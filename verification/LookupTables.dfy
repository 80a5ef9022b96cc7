/**
  The tables that turn an index into a variable name and back.

  Mlog can read a variable of another processor only by name, so names are kept
  in lookup processors (260 block ids each), the successor of every name in the
  INCR processor, and the page of a name in a 128-character string.  The same
  names, in the same order, are the variables that the Kotlin side reaches by
  index in a RAM processor.
 */
module LookupTables {
  import opened AddressMap
  import opened Options

  type Name = seq<int>

  // --- generate_code ----------------------------------------------------------

  /** `procs[k][j]` is the name stored under block id `j` of lookup processor `k`; each line of a RAM processor names
      six variables. */
  datatype Tables = Tables(procs: seq<seq<Name>>, lines: seq<seq<Name>>)

  /** The lines finished so far hold the names in order, and `line` the ones after them. */
  predicate LinesHold(names: seq<Name>, lines: seq<seq<Name>>, line: seq<Name>) {
    && 6 * |lines| + |line| <= |names|
    && (forall k :: 0 <= k < |lines| ==> |lines[k]| == 6)
    && (forall k, j :: 0 <= k < |lines| && 0 <= j < 6 ==> lines[k][j] == names[6 * k + j])
    && (forall j :: 0 <= j < |line| ==> line[j] == names[6 * |lines| + j])
  }

  /** The lookup processors finished so far hold the names in order, and `proc` the ones after them. */
  predicate ProcsHold(names: seq<Name>, procs: seq<seq<Name>>, proc: seq<Name>) {
    && 260 * |procs| + |proc| <= |names|
    && (forall k :: 0 <= k < |procs| ==> |procs[k]| == 260)
    && (forall k, j :: 0 <= k < |procs| && 0 <= j < 260 ==> procs[k][j] == names[260 * k + j])
    && (forall j :: 0 <= j < |proc| ==> proc[j] == names[260 * |procs| + j])
  }

  predicate LinesDone(names: seq<Name>, lines: seq<seq<Name>>) {
    && |lines| == (|names| + 5) / 6
    && (forall k :: 0 <= k < |lines| ==> |lines[k]| == 6)
    && (forall k, j :: 0 <= k < |lines| && 0 <= j < 6 ==>
          lines[k][j] == names[if 6 * k + j < |names| then 6 * k + j else |names| - 1])
  }

  predicate ProcsDone(names: seq<Name>, procs: seq<seq<Name>>) {
    forall i :: 0 <= i < |names| ==>
      i / 260 < |procs| && i % 260 < |procs[i / 260]| && procs[i / 260][i % 260] == names[i]
  }

  /** One name for the RAM processor; the last line is padded by repeating its last name. */
  method AddToLines(ramSize: int, names: seq<Name>, ramProc: seq<seq<Name>>, line: seq<Name>, n: int)
      returns (done: bool, lines': seq<seq<Name>>, line': seq<Name>)
    requires 0 <= n < ramSize && n < |names| && |line| < 6 && 6 * |ramProc| + |line| == n
    requires LinesHold(names, ramProc, line)
    ensures done <==> n + 1 == ramSize
    ensures !done ==> LinesHold(names, lines', line') && |line'| < 6 && 6 * |lines'| + |line'| == n + 1
    ensures done ==> LinesDone(names[..ramSize], lines')
  {
    done, lines', line' := false, ramProc, line + [names[n]];
    var remaining := ramSize - |ramProc| * 6;
    if remaining == |line'| {
      done := true;
      if remaining > 0 {
        lines' := ramProc + [line' + seq(6 - |line'|, _ => line'[|line'| - 1])];
      }
    } else if |line'| == 6 {
      lines' := ramProc + [line'];
      line' := [];
    }
  }

  /** One name for the lookup processors. */
  method AddToLookup(names: seq<Name>, lookupProcs: seq<seq<Name>>, lookupProc: seq<Name>, n: int, done: bool)
      returns (procs': seq<seq<Name>>, proc': seq<Name>)
    requires 0 <= n < |names| && |lookupProc| < 260 && 260 * |lookupProcs| + |lookupProc| == n
    requires ProcsHold(names, lookupProcs, lookupProc)
    ensures !done ==> ProcsHold(names, procs', proc') && |proc'| < 260 && 260 * |procs'| + |proc'| == n + 1
    ensures done ==> ProcsDone(names[..n + 1], procs')
  {
    procs', proc' := lookupProcs, lookupProc + [names[n]];
    if |proc'| == 260 || done {
      procs' := lookupProcs + [proc'];
      proc' := [];
    }
  }

  method GenerateCode(ramSize: int, names: seq<Name>) returns (r: Option<Tables>)
    requires ramSize >= 1
    ensures r.Some? <==> ramSize <= |names|
    ensures r.Some? ==> ProcsDone(names[..ramSize], r.value.procs) && LinesDone(names[..ramSize], r.value.lines)
  {
    var lookupProcs: seq<seq<Name>>, lookupProc: seq<Name> := [], [];
    var ramProc: seq<seq<Name>>, line: seq<Name> := [], [];
    for n := 0 to |names|
      invariant n < ramSize
      invariant 6 * |ramProc| + |line| == n && |line| < 6 && LinesHold(names, ramProc, line)
      invariant 260 * |lookupProcs| + |lookupProc| == n && |lookupProc| < 260
      invariant ProcsHold(names, lookupProcs, lookupProc)
    {
      var done;
      done, ramProc, line := AddToLines(ramSize, names, ramProc, line, n);
      lookupProcs, lookupProc := AddToLookup(names, lookupProcs, lookupProc, n, done);
      if done {
        return Some(Tables(lookupProcs, ramProc));
      }
    }
    r := None;
  }

  // --- the order of variables in a RAM processor ------------------------------

  function Flatten(lines: seq<seq<Name>>): seq<Name> {
    if lines == [] then [] else Flatten(lines[..|lines| - 1]) + lines[|lines| - 1]
  }

  /** A processor numbers its variables in order of first appearance. */
  function FirstAppearances(s: seq<Name>): seq<Name> {
    if s == [] then []
    else
      var before := FirstAppearances(s[..|s| - 1]);
      if s[|s| - 1] in before then before else before + [s[|s| - 1]]
  }

  lemma {:induction false} FlattenIndex(lines: seq<seq<Name>>, i: int)
    requires forall k :: 0 <= k < |lines| ==> |lines[k]| == 6
    ensures |Flatten(lines)| == 6 * |lines|
    ensures 0 <= i < 6 * |lines| ==> Flatten(lines)[i] == lines[i / 6][i % 6]
  {
    if lines != [] {
      FlattenIndex(lines[..|lines| - 1], i);
    }
  }

  lemma {:induction false} FirstAppearancesOfDistinct(s: seq<Name>, names: seq<Name>)
    requires forall i, j :: 0 <= i < j < |names| ==> names[i] != names[j]
    requires |names| > 0 && forall i :: 0 <= i < |s| ==> s[i] == names[if i < |names| then i else |names| - 1]
    ensures FirstAppearances(s) == names[..if |s| < |names| then |s| else |names|]
  {
    if s != [] {
      FirstAppearancesOfDistinct(s[..|s| - 1], names);
    }
  }

  /** The Kotlin side reads variable `i + 1` of a RAM processor (variable 0 is the program counter): it is the one
      named `names[i]`. */
  lemma VariableOrder(names: seq<Name>, t: Tables)
    requires |names| > 0 && LinesDone(names, t.lines)
    requires forall i, j :: 0 <= i < j < |names| ==> names[i] != names[j]
    ensures FirstAppearances(Flatten(t.lines)) == names
  {
    var s := Flatten(t.lines);
    FlattenIndex(t.lines, 0);
    forall i | 0 <= i < |s| ensures s[i] == names[if i < |names| then i else |names| - 1] {
      FlattenIndex(t.lines, i);
    }
    FirstAppearancesOfDistinct(s, names);
    assert names[..|names|] == names;
  }

  // --- the tables of the CPU --------------------------------------------------

  /** The lookup processors hold the 4096 names of the mlogv32 format. */
  predicate CpuTables(t: Tables) { ProcsDone(seq(4096, i => VariableName(i)), t.procs) }

  method BuildCpuTables() returns (t: Tables)
    ensures CpuTables(t)
    ensures FirstAppearances(Flatten(t.lines)) == seq(4096, i => VariableName(i))
  {
    var names := IterVariables();
    var r := GenerateCode(4096, names);
    t := r.value;
    assert names[..4096] == names;
    forall i, j | 0 <= i < j < |names| ensures names[i] != names[j] {
      if names[i] == names[j] { VariableNameInjective(i, j); }
    }
    assert names == seq(4096, i => VariableName(i));
    VariableOrder(names, t);
  }

  /** lookup_variable: the name of word `index` of a processor. */
  method LookupVariable(t: Tables, index: int) returns (variable: Name)
    requires CpuTables(t) && 0 <= index < 4096
    ensures variable == VariableName(index)
  {
    var lookup := index / 260;
    var blockId := index % 260;
    variable := t.procs[lookup][blockId];
    assert variable == seq(4096, i => VariableName(i))[index];
  }

  /** The variable after `i` on the same page, or null at the end of a page. */
  function Successor(i: int): Option<Name> {
    if (i + 1) % 1024 == 0 then None else Some(VariableName(i + 1))
  }

  /** The first `n` variables have their successor. */
  predicate LinkedUpTo(incr: map<Name, Option<Name>>, n: int) {
    forall i :: 0 <= i < n ==> VariableName(i) in incr && incr[VariableName(i)] == Successor(i)
  }

  lemma LinkStep(incr: map<Name, Option<Name>>, n: int)
    requires 0 <= n < 4096 && LinkedUpTo(incr, n)
    ensures LinkedUpTo(incr[VariableName(n) := Successor(n)], n + 1)
  {
    forall i | 0 <= i < n ensures VariableName(i) != VariableName(n) {
      if VariableName(i) == VariableName(n) {
        VariableNameInjective(i, n);
      }
    }
  }

  /** One round of init_incr: the variable at `address`, or null when the next one starts a page. */
  method LinkValue(t: Tables, address: int) returns (variable: Option<Name>, linked: Option<Name>)
    requires CpuTables(t) && 4 <= address <= 16384 && address % 4 == 0
    ensures linked == Successor(address / 4 - 1)
    ensures address < 16384 ==> variable == Some(VariableName(address / 4))
  {
    variable := None;
    if address < 16384 {
      var name := LookupVariable(t, address / 4);
      variable := Some(name);
    }
    linked := if address % 4096 == 0 then None else variable;
  }

  /** init_incr: each variable points to the next one, and the last of each page to null. */
  method InitIncr(t: Tables) returns (incr: map<Name, Option<Name>>)
    requires CpuTables(t)
    ensures LinkedUpTo(incr, 4096)
  {
    incr := map[];
    var prevVariable: Option<Name> := Some(VariableName(0));
    var address := 4;
    ghost var n := 0;
    while address <= 16384
      invariant address == 4 * n + 4 && 0 <= n <= 4096
      invariant n < 4096 ==> prevVariable == Some(VariableName(n))
      invariant LinkedUpTo(incr, n)
    {
      var variable, linked := LinkValue(t, address);
      LinkStep(incr, n);
      incr := incr[prevVariable.value := linked];
      prevVariable := variable;
      address := address + 4;
      n := n + 1;
    }
  }

  /** Order of the two-character names. */
  predicate Before(a: Name, b: Name)
    requires |a| == 2 && |b| == 2
  {
    a[0] < b[0] || (a[0] == b[0] && a[1] < b[1])
  }

  /** The string that maps the first character of a name to its page: entry `k` is an ASCII digit. */
  method PageOffsets() returns (digits: seq<int>)
    ensures |digits| == 128
    ensures forall i :: 0 <= i < 4096 ==> 0 <= VariableName(i)[0] < 128 && digits[VariableName(i)[0]] % 4 == i / 1024
  {
    var page0, page1, page2, page3 := VariableName(0), VariableName(1024), VariableName(2048), VariableName(3072);
    digits := [];
    for i := 0 to 128
      invariant |digits| == i
      invariant forall k :: 0 <= k < i ==> digits[k] == PageDigit(k)
    {
      var name := [i, page0[1]];
      var value := if i < 32 || Before(name, page1) then 48
                   else if Before(name, page2) then 49
                   else if Before(name, page3) then 50
                   else 51;
      digits := digits + [value];
    }
    forall i | 0 <= i < 4096
      ensures 0 <= VariableName(i)[0] < 128 && digits[VariableName(i)[0]] % 4 == i / 1024
    {
      PageOfName(i);
    }
  }

  function PageDigit(code: int): int {
    if code < NameCode(16) then 48 else if code < NameCode(32) then 49 else if code < NameCode(48) then 50 else 51
  }

  lemma PageOfName(i: int)
    requires 0 <= i < 4096
    ensures 0 <= NameCode(i / 64) < 128 && PageDigit(NameCode(i / 64)) % 4 == i / 1024
  {
  }
}
