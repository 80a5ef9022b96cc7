/**
  The allocator of local variables in templates: names get numbered slots, freed
  slots are reused smallest first.

  `Step` and `Run` say what the operations do, failures included; the class is
  the code, and is proved to follow them.
 */
module LocalVariables {
  import opened Options

  // --- what the operations do -------------------------------------------------

  /** The names and their slots, the freed slots, the next number, and the largest slot a name ever had. */
  datatype State = State(cache: map<string, int>, freed: set<int>, index: int, largest: int)

  /** `removeprefix("$")` */
  function Key(name: string): string { if StartsWith(name, "$") then name[1..] else name }

  ghost predicate IsSmallest(s: set<int>, x: int) { x in s && forall y :: y in s ==> x <= y }

  lemma SomeElement<T>(s: set<T>) returns (a: T)
    requires s != {}
    ensures a in s
  {
    a :| a in s;
  }

  lemma {:induction false} SmallestExists(s: set<int>)
    requires s != {}
    ensures exists x :: IsSmallest(s, x)
    decreases |s|
  {
    var a := SomeElement(s);
    var rest := s - {a};
    if rest == {} {
      assert s == {a};
      assert IsSmallest(s, a);
    } else {
      SmallestExists(rest);
      var x :| IsSmallest(rest, x);
      assert forall y :: y in s ==> y == a || y in rest;
      assert IsSmallest(s, if a < x then a else x);
    }
  }

  ghost function Smallest(s: set<int>): (x: int)
    requires s != {}
    ensures IsSmallest(s, x)
  {
    SmallestExists(s);
    var x :| IsSmallest(s, x);
    x
  }

  /** A slot for a new name: the smallest freed one, or the next number. */
  ghost function Take(s: State): (int, State) {
    if s.freed != {} then (Smallest(s.freed), s.(freed := s.freed - {Smallest(s.freed)}))
    else (s.index, s.(index := s.index + 1))
  }

  function Max(a: int, b: int): int { if a > b then a else b }

  /** The name has to be declared first: it is new and starts with a second dollar sign. */
  predicate Undeclared(s: State, name: string) { name !in s.cache && StartsWith(name, "$") }

  /** local_variable: a known name keeps its slot; a new one takes a slot before it may turn out to be undeclared. */
  ghost function UseSpec(s: State, name: string, declare: bool): (Option<int>, State) {
    if name in s.cache then (Some(s.cache[name]), s)
    else
      var (i, t) := Take(s);
      if !declare && StartsWith(name, "$") then (None, t)
      else (Some(i), t.(cache := s.cache[name := i], largest := Max(i, s.largest)))
  }

  function ResetSpec(s: State, i: int): (bool, State) {
    if i < 1 then (false, s) else (true, State(map[], {}, i, s.largest))
  }

  /** The names before the first one without two dollar signs are declared. */
  ghost function DeclareEach(s: State, names: seq<string>): (bool, State)
    decreases |names|
  {
    if names == [] then (true, s)
    else
      var n := |names| - 1;
      var (ok, t) := DeclareEach(s, names[..n]);
      if !ok || !StartsWith(names[n], "$$") then (false, t) else (true, UseSpec(t, Key(names[n]), true).1)
  }

  ghost function DeclareSpec(s: State, names: seq<string>, i: int, reset: bool): (bool, State) {
    if reset && i < 1 then (false, s) else DeclareEach(if reset then ResetSpec(s, i).1 else s, names)
  }

  predicate CanFree(s: State, name: string) { StartsWith(name, "$") && Key(name) in s.cache }

  function FreeOne(s: State, name: string): State
    requires CanFree(s, name)
  {
    s.(cache := s.cache - {Key(name)}, freed := s.freed + {s.cache[Key(name)]})
  }

  /** The names before the first one that is not live are freed. */
  function FreeSpec(s: State, names: seq<string>): (bool, State)
    decreases |names|
  {
    if names == [] then (true, s)
    else
      var n := |names| - 1;
      var (ok, t) := FreeSpec(s, names[..n]);
      if !ok || !CanFree(t, names[n]) then (false, t) else (true, FreeOne(t, names[n]))
  }

  datatype Op = Reset(i: int) | Declare(names: seq<string>, i: int, reset: bool)
              | Free(names: seq<string>) | Use(name: string)

  ghost function Step(s: State, op: Op): (bool, State) {
    match op
    case Reset(i) => ResetSpec(s, i)
    case Declare(names, i, reset) => DeclareSpec(s, names, i, reset)
    case Free(names) => FreeSpec(s, names)
    case Use(name) => var (r, t) := UseSpec(s, name, false); (r.Some?, t)
  }

  /** Operations until the first failure. */
  ghost function Run(s: State, ops: seq<Op>): (bool, State)
    decreases |ops|
  {
    if ops == [] then (true, s)
    else
      var n := |ops| - 1;
      var (ok, t) := Run(s, ops[..n]);
      if !ok then (false, t) else Step(t, ops[n])
  }

  // --- conservation -----------------------------------------------------------

  /** The numbers from `lo` up to `hi`. */
  function Range(lo: int, hi: int): (r: set<int>)
    ensures forall i :: i in r <==> lo <= i < hi
    decreases hi - lo
  {
    if lo >= hi then {} else Range(lo, hi - 1) + {hi - 1}
  }

  predicate Injective(m: map<string, int>) { forall a, b :: a in m && b in m && a != b ==> m[a] != m[b] }

  predicate Bounded(s: State) { forall name :: name in s.cache ==> s.cache[name] <= s.largest }

  /** Live and freed slots are disjoint and together are exactly the slots given out since the reset, except for
      `lost`. */
  predicate ConservedBut(s: State, base: int, lost: set<int>) {
    && base <= s.index && Injective(s.cache) && Bounded(s)
    && s.cache.Values !! s.freed && s.cache.Values !! lost && s.freed !! lost
    && s.cache.Values + s.freed + lost == Range(base, s.index)
  }

  predicate Conserved(s: State, base: int) { ConservedBut(s, base, {}) }

  lemma AddValue(m: map<string, int>, name: string, i: int)
    requires name !in m && i !in m.Values && Injective(m)
    ensures m[name := i].Values == m.Values + {i} && Injective(m[name := i])
  {
    var m' := m[name := i];
    assert m'[name] == i;
    forall v | v in m.Values ensures v in m'.Values {
      var a :| a in m && m[a] == v;
      assert m'[a] == v;
    }
  }

  lemma RemoveValue(m: map<string, int>, name: string)
    requires name in m && Injective(m)
    ensures (m - {name}).Values == m.Values - {m[name]} && Injective(m - {name})
  {
    var m' := m - {name};
    forall v | v in m.Values && v != m[name] ensures v in m'.Values {
      var a :| a in m && m[a] == v;
      assert m'[a] == v;
    }
    forall v | v in m'.Values ensures v in m.Values && v != m[name] {
      var a :| a in m' && m'[a] == v;
      assert m[a] == v;
    }
  }

  /** Taking a slot moves one slot out of the books. */
  lemma TakeConserves(s: State, base: int)
    requires Conserved(s, base)
    ensures var (i, t) := Take(s);
            t.cache == s.cache && t.largest == s.largest && ConservedBut(t, base, {i})
  {
    if s.freed == {} {
      assert Range(base, s.index + 1) == Range(base, s.index) + {s.index};
    }
  }

  lemma UseConserves(s: State, base: int, name: string, declare: bool)
    requires Conserved(s, base) && (declare || !Undeclared(s, name))
    ensures var (r, t) := UseSpec(s, name, declare);
            && Conserved(t, base) && s.largest <= t.largest
            && r.Some? && name in t.cache && t.cache[name] == r.value
  {
    if name !in s.cache {
      TakeConserves(s, base);
      AddValue(s.cache, name, Take(s).0);
    }
  }

  lemma FreeOneConserves(s: State, base: int, name: string)
    requires Conserved(s, base) && CanFree(s, name)
    ensures Conserved(FreeOne(s, name), base)
  {
    RemoveValue(s.cache, Key(name));
    assert s.cache[Key(name)] in s.cache.Values;
  }

  lemma {:induction false} FreeConserves(s: State, base: int, names: seq<string>)
    requires Conserved(s, base)
    ensures Conserved(FreeSpec(s, names).1, base) && FreeSpec(s, names).1.largest == s.largest
    decreases |names|
  {
    if names != [] {
      var n := |names| - 1;
      FreeConserves(s, base, names[..n]);
      var (ok, t) := FreeSpec(s, names[..n]);
      if ok && CanFree(t, names[n]) {
        FreeOneConserves(t, base, names[n]);
      }
    }
  }

  lemma {:induction false} DeclareConserves(s: State, base: int, names: seq<string>)
    requires Conserved(s, base)
    ensures Conserved(DeclareEach(s, names).1, base) && s.largest <= DeclareEach(s, names).1.largest
    decreases |names|
  {
    if names != [] {
      var n := |names| - 1;
      DeclareConserves(s, base, names[..n]);
      var (ok, t) := DeclareEach(s, names[..n]);
      if ok && StartsWith(names[n], "$$") {
        UseConserves(t, base, Key(names[n]), true);
      }
    }
  }

  /** Where the numbering starts after an operation. */
  function BaseAfter(op: Op, base: int): int {
    match op
    case Reset(i) => if i < 1 then base else i
    case Declare(_, i, reset) => if reset && i >= 1 then i else base
    case _ => base
  }

  predicate Loses(s: State, op: Op) { op.Use? && Undeclared(s, op.name) }

  /** An operation conserves the slots, whether it succeeds or fails, exactly if it is no use of an undeclared name;
      that one loses exactly one slot.  The largest slot never drops. */
  lemma StepConserves(s: State, base: int, op: Op)
    requires Conserved(s, base)
    ensures Conserved(Step(s, op).1, BaseAfter(op, base)) <==> !Loses(s, op)
    ensures Loses(s, op) ==> !Step(s, op).0 && ConservedBut(Step(s, op).1, base, {Take(s).0})
    ensures s.largest <= Step(s, op).1.largest
  {
    match op
    case Reset(i) =>
    case Declare(names, i, reset) =>
      if !(reset && i < 1) {
        DeclareConserves(if reset then ResetSpec(s, i).1 else s, BaseAfter(op, base), names);
      }
    case Free(names) =>
      FreeConserves(s, base, names);
    case Use(name) =>
      if Loses(s, op) {
        TakeConserves(s, base);
        var (i, t) := Take(s);
        assert i in Range(base, t.index) && i !in t.cache.Values + t.freed;
      } else {
        UseConserves(s, base, name, false);
      }
  }

  ghost function BaseOf(base: int, ops: seq<Op>): int
    decreases |ops|
  {
    if ops == [] then base else BaseAfter(ops[|ops| - 1], BaseOf(base, ops[..|ops| - 1]))
  }

  /** Any successful run conserves the slots, and no index that a name ever had is above the largest one. */
  lemma {:induction false} RunConserves(s: State, base: int, ops: seq<Op>)
    requires Conserved(s, base)
    ensures Run(s, ops).0 ==> Conserved(Run(s, ops).1, BaseOf(base, ops))
    ensures s.largest <= Run(s, ops).1.largest
    decreases |ops|
  {
    if ops != [] {
      var n := |ops| - 1;
      RunConserves(s, base, ops[..n]);
      var (ok, t) := Run(s, ops[..n]);
      if ok {
        StepConserves(t, BaseOf(base, ops[..n]), ops[n]);
      }
    }
  }

  /** As many slots are live or free as were given out. */
  lemma Count(s: State, base: int)
    requires Conserved(s, base)
    ensures |s.cache| + |s.freed| == s.index - base
  {
    RangeSize(base, s.index);
    ValuesSize(s.cache);
    assert s.cache.Values + s.freed + {} == s.cache.Values + s.freed;
    assert |s.cache.Values + s.freed| == |s.cache.Values| + |s.freed|;
  }

  lemma {:induction false} RangeSize(lo: int, hi: int)
    requires lo <= hi
    ensures |Range(lo, hi)| == hi - lo
    decreases hi - lo
  {
    if lo < hi {
      RangeSize(lo, hi - 1);
    }
  }

  lemma {:induction false} ValuesSize(m: map<string, int>)
    requires Injective(m)
    ensures |m.Values| == |m|
    decreases |m|
  {
    if m != map[] {
      var a :| a in m;
      var m' := m - {a};
      RemoveValue(m, a);
      assert m == m'[a := m[a]];
      ValuesSize(m');
      assert m[a] in m.Values;
      assert m.Values == m'.Values + {m[a]};
    } else {
      assert m.Values == {};
    }
  }

  // --- the code ---------------------------------------------------------------

  predicate Descending(s: seq<int>) { forall i, j :: 0 <= i < j < |s| ==> s[i] > s[j] }

  predicate Distinct(s: seq<int>) { forall i, j :: 0 <= i < j < |s| ==> s[i] != s[j] }

  function Elements(s: seq<int>): set<int> { set x | x in s }

  method InsertDescending(s: seq<int>, x: int) returns (r: seq<int>)
    requires Descending(s) && x !in s
    ensures Descending(r) && Elements(r) == Elements(s) + {x} && |r| == |s| + 1
  {
    var k := 0;
    while k < |s| && s[k] > x
      invariant 0 <= k <= |s| && forall i :: 0 <= i < k ==> s[i] > x
    {
      k := k + 1;
    }
    assert k < |s| ==> s[k] < x;
    r := s[..k] + [x] + s[k..];
    SplitElements(s, k, x);
  }

  lemma SplitElements(s: seq<int>, k: int, x: int)
    requires 0 <= k <= |s|
    ensures Elements(s[..k] + [x] + s[k..]) == Elements(s) + {x}
  {
    assert s == s[..k] + s[k..];
  }

  /** `sort(reverse=True)` */
  method SortDescending(s: seq<int>) returns (r: seq<int>)
    requires Distinct(s)
    ensures Descending(r) && Elements(r) == Elements(s)
  {
    r := [];
    for n := 0 to |s|
      invariant Descending(r) && Elements(r) == Elements(s[..n])
    {
      assert s[n] !in s[..n];
      assert s[n] !in Elements(r);
      r := InsertDescending(r, s[n]);
      assert s[..n + 1] == s[..n] + [s[n]];
    }
    assert s[..|s|] == s;
  }

  /** The slots in the order in which `free_locals` appends them. */
  function FreedSlots(s: State, names: seq<string>): seq<int>
    decreases |names|
  {
    if names == [] then []
    else
      var n := |names| - 1;
      var (ok, t) := FreeSpec(s, names[..n]);
      FreedSlots(s, names[..n]) + if ok && CanFree(t, names[n]) then [t.cache[Key(names[n])]] else []
  }

  class LocalVariables {
    var index: int
    var cache: map<string, int>
    var freed: seq<int>
    var largest: int

    /** Where the numbering started at the last reset. */
    ghost var base: int

    ghost function View(): State
      reads this
    {
      State(cache, Elements(freed), index, largest)
    }

    ghost predicate Valid()
      reads this
    {
      Conserved(View(), base) && Descending(freed)
    }

    constructor ()
      ensures Valid() && base == 1 && View() == State(map[], {}, 1, 0)
    {
      index, cache, freed, largest, base := 1, map[], [], 0, 1;
    }

    method ResetLocals(i: int) returns (ok: bool)
      requires Valid()
      modifies this`index, this`cache, this`freed, this`base
      ensures (ok, View()) == ResetSpec(old(View()), i) && Valid() && base == BaseAfter(Reset(i), old(base))
    {
      if i < 1 {
        return false;
      }
      index, base := i, i;
      cache := map[];
      freed := [];
      assert Elements(freed) == {};
      ok := true;
    }

    /** The top of the sorted list is the smallest freed slot. */
    method TakeSlot() returns (i: int)
      requires Valid()
      modifies this`index, this`freed
      ensures (i, View()) == Take(old(View())) && Descending(freed)
    {
      if freed != [] {
        var n := |freed| - 1;
        i := freed[n];
        LastIsSmallest(freed);
        freed := freed[..n];
      } else {
        i := index;
        index := i + 1;
      }
    }

    method LocalVariable(name: string, declare: bool) returns (r: Option<int>)
      requires Valid()
      modifies this`index, this`cache, this`freed, this`largest
      ensures (r, View()) == UseSpec(old(View()), name, declare) && Descending(freed)
      ensures r.Some? ==> Valid()
    {
      UseConservesIf(View(), base, name, declare);
      if name in cache {
        return Some(cache[name]);
      }
      var i := TakeSlot();
      if !declare && StartsWith(name, "$") {
        return None;
      }
      cache := cache[name := i];
      largest := if i > largest then i else largest;
      r := Some(i);
    }

    method FreeLocal(name: string) returns (ok: bool)
      modifies this`cache, this`freed
      ensures ok <==> CanFree(old(View()), name)
      ensures ok ==> View() == FreeOne(old(View()), name) && freed == old(freed) + [old(cache)[Key(name)]]
      ensures !ok ==> cache == old(cache) && freed == old(freed)
    {
      if !StartsWith(name, "$") {
        return false;
      }
      var key := Key(name);
      if key !in cache {
        return false;
      }
      var i := cache[key];
      cache := cache - {key};
      freed := freed + [i];
      assert Elements(freed) == Elements(old(freed)) + {i};
      ok := true;
    }

    /** The loop of free_locals, which may stop in the middle. */
    method FreeEach(names: seq<string>) returns (ok: bool)
      modifies this`cache, this`freed
      ensures (ok, View()) == FreeSpec(old(View()), names) && freed == old(freed) + FreedSlots(old(View()), names)
    {
      for n := 0 to |names|
        invariant (true, View()) == FreeSpec(old(View()), names[..n])
        invariant freed == old(freed) + FreedSlots(old(View()), names[..n])
      {
        var one := FreeLocal(names[n]);
        assert names[..n + 1][..n] == names[..n];
        if !one {
          StuckAt(old(View()), names, n);
          return false;
        }
      }
      assert names[..|names|] == names;
      ok := true;
    }

    /** free_locals: free every name and sort.  After a failure the slots are conserved, but the sort has not
        happened. */
    method FreeLocals(names: seq<string>) returns (ok: bool)
      requires Valid()
      modifies this`cache, this`freed
      ensures (ok, View()) == FreeSpec(old(View()), names) && Conserved(View(), base)
      ensures ok ==> Valid()
      ensures !ok ==> freed == old(freed) + FreedSlots(old(View()), names)
      ensures exists n :: Leading(old(View()), names, n)
                       && (ok <==> n == |names|) && (Valid() <==> ok || InOrder(old(View()), old(freed), names, n))
    {
      ghost var n := LeadingExists(View(), names, 0);
      FailedFreeSortedIff(View(), freed, names, n);
      FreeConserves(View(), base, names);
      FreedDistinct(View(), base, freed, names);
      ok := FreeEach(names);
      if ok {
        var sorted := SortDescending(freed);
        freed := sorted;
      }
    }

    method DeclareLocals(names: seq<string>, i: int, reset: bool) returns (ok: bool)
      requires Valid()
      modifies this
      ensures (ok, View()) == DeclareSpec(old(View()), names, i, reset) && Valid()
      ensures base == BaseAfter(Declare(names, i, reset), old(base))
    {
      if reset {
        var good := ResetLocals(i);
        if !good {
          return false;
        }
      }
      ok := DeclareAll(names);
    }

    method DeclareAll(names: seq<string>) returns (ok: bool)
      requires Valid()
      modifies this`index, this`cache, this`freed, this`largest
      ensures (ok, View()) == DeclareEach(old(View()), names) && Valid()
    {
      for n := 0 to |names|
        invariant Valid() && (true, View()) == DeclareEach(old(View()), names[..n])
      {
        assert names[..n + 1][..n] == names[..n];
        if !StartsWith(names[n], "$$") {
          DeclareStuckAt(old(View()), names, n);
          return false;
        }
        var slot := LocalVariable(Key(names[n]), true);
      }
      assert names[..|names|] == names;
      ok := true;
    }

    method PerformOne(op: Op) returns (ok: bool)
      requires Valid()
      modifies this
      ensures (ok, View()) == Step(old(View()), op) && (ok ==> Valid() && base == BaseAfter(op, old(base)))
    {
      match op
      case Reset(i) =>
        ok := ResetLocals(i);
      case Declare(names, i, reset) =>
        ok := DeclareLocals(names, i, reset);
      case Free(names) =>
        ok := FreeLocals(names);
      case Use(name) =>
        var slot := LocalVariable(name, false);
        ok := slot.Some?;
    }

    /** Any sequence of operations: it goes on exactly as long as none of them fails, and does what `Run` says. */
    method Perform(ops: seq<Op>) returns (done: bool)
      requires Valid()
      modifies this
      ensures (done, View()) == Run(old(View()), ops)
      ensures done ==> Valid() && base == BaseOf(old(base), ops)
      ensures old(largest) <= largest
    {
      RunConserves(View(), base, ops);
      for n := 0 to |ops|
        invariant Valid() && base == BaseOf(old(base), ops[..n]) && (true, View()) == Run(old(View()), ops[..n])
      {
        assert ops[..n + 1][..n] == ops[..n];
        var ok := PerformOne(ops[n]);
        if !ok {
          RunStuckAt(old(View()), ops, n);
          return false;
        }
      }
      assert ops[..|ops|] == ops;
      done := true;
    }
  }

  // --- helpers of the class ---------------------------------------------------

  lemma LastIsSmallest(s: seq<int>)
    requires Descending(s) && s != []
    ensures Elements(s) != {} && Smallest(Elements(s)) == s[|s| - 1] && Descending(s[..|s| - 1])
    ensures Elements(s[..|s| - 1]) == Elements(s) - {s[|s| - 1]}
  {
    var n := |s| - 1;
    assert s[n] in Elements(s);
    assert s == s[..n] + [s[n]];
    forall y | y in Elements(s) ensures s[n] <= y {
      var k :| 0 <= k < |s| && s[k] == y;
    }
    assert IsSmallest(Elements(s), s[n]);
  }

  lemma UseConservesIf(s: State, base: int, name: string, declare: bool)
    requires Conserved(s, base)
    ensures UseSpec(s, name, declare).0.Some? ==> Conserved(UseSpec(s, name, declare).1, base)
  {
    if declare || !Undeclared(s, name) {
      UseConserves(s, base, name, declare);
    }
  }

  /** Once stuck, a fold stays where it is. */
  lemma {:induction false} StuckAt(s: State, names: seq<string>, n: int)
    requires 0 <= n < |names| && FreeSpec(s, names[..n]).0 && !CanFree(FreeSpec(s, names[..n]).1, names[n])
    ensures FreeSpec(s, names) == (false, FreeSpec(s, names[..n]).1)
    ensures FreedSlots(s, names) == FreedSlots(s, names[..n])
    decreases |names|
  {
    var m := |names| - 1;
    if n < m {
      assert names[..m][..n] == names[..n];
      StuckAt(s, names[..m], n);
    }
  }

  lemma {:induction false} DeclareStuckAt(s: State, names: seq<string>, n: int)
    requires 0 <= n < |names| && DeclareEach(s, names[..n]).0 && !StartsWith(names[n], "$$")
    ensures DeclareEach(s, names) == (false, DeclareEach(s, names[..n]).1)
    decreases |names|
  {
    var m := |names| - 1;
    if n < m {
      assert names[..m][..n] == names[..n];
      DeclareStuckAt(s, names[..m], n);
    }
  }

  lemma {:induction false} RunStuckAt(s: State, ops: seq<Op>, n: int)
    requires 0 <= n < |ops| && Run(s, ops[..n]).0 && !Step(Run(s, ops[..n]).1, ops[n]).0
    ensures Run(s, ops) == Step(Run(s, ops[..n]).1, ops[n])
    decreases |ops|
  {
    var m := |ops| - 1;
    if n < m {
      assert ops[..m][..n] == ops[..n];
      RunStuckAt(s, ops[..m], n);
    }
  }

  lemma AppendDistinct(list: seq<int>, i: int)
    requires Distinct(list) && i !in Elements(list)
    ensures Distinct(list + [i]) && Elements(list + [i]) == Elements(list) + {i}
  {
  }

  /** The list of freed slots has no repetitions while names are being freed. */
  lemma {:induction false} FreedDistinct(s: State, base: int, freed: seq<int>, names: seq<string>)
    requires Conserved(s, base) && s.freed == Elements(freed) && Distinct(freed)
    ensures Distinct(freed + FreedSlots(s, names))
    ensures Elements(freed + FreedSlots(s, names)) == FreeSpec(s, names).1.freed
    decreases |names|
  {
    if names == [] {
      assert freed + [] == freed;
    } else {
      var n := |names| - 1;
      FreedDistinct(s, base, freed, names[..n]);
      FreeConserves(s, base, names[..n]);
      var (ok, t) := FreeSpec(s, names[..n]);
      var list := freed + FreedSlots(s, names[..n]);
      if ok && CanFree(t, names[n]) {
        var i := t.cache[Key(names[n])];
        assert i in t.cache.Values && i !in Elements(list);
        assert freed + FreedSlots(s, names) == list + [i];
        AppendDistinct(list, i);
      } else {
        assert freed + FreedSlots(s, names) == list;
      }
    }
  }

  // --- a free that fails ------------------------------------------------------

  predicate Among(names: seq<string>, v: string) { exists j :: 0 <= j < |names| && Key(names[j]) == v }

  lemma AmongNext(names: seq<string>, n: int, v: string)
    requires 0 <= n && |names| == n + 1
    ensures Among(names, v) <==> Among(names[..n], v) || Key(names[n]) == v
  {
    if Among(names[..n], v) {
      var j :| 0 <= j < n && Key(names[..n][j]) == v;
      assert Key(names[j]) == v;
    }
    if Among(names, v) {
      var j :| 0 <= j < |names| && Key(names[j]) == v;
      assert j < n ==> Key(names[..n][j]) == v;
    }
  }

  /** The name has a slot, and is not named before. */
  predicate Freeable(s: State, names: seq<string>, k: int)
    requires 0 <= k < |names|
  {
    CanFree(s, names[k]) && !Among(names[..k], Key(names[k]))
  }

  ghost function SlotOf(s: State, names: seq<string>, k: int): int
    requires 0 <= k < |names| && Freeable(s, names, k)
  {
    s.cache[Key(names[k])]
  }

  /** The slots of the names, in their order. */
  ghost predicate SlotsOf(s: State, names: seq<string>, n: int, slots: seq<int>)
    requires 0 <= n <= |names| && forall k :: 0 <= k < n ==> Freeable(s, names, k)
  {
    |slots| == n && forall k :: 0 <= k < n ==> slots[k] == SlotOf(s, names, k)
  }

  /** Exactly the first `n` names can be freed. */
  ghost predicate Leading(s: State, names: seq<string>, n: int) {
    && 0 <= n <= |names|
    && (forall k :: 0 <= k < n ==> Freeable(s, names, k))
    && (n < |names| ==> !Freeable(s, names, n))
  }

  /** `t` has the names that are not among `names`, with their slots. */
  ghost predicate Remaining(s: State, names: seq<string>, t: State) {
    forall v :: (v in t.cache <==> v in s.cache && !Among(names, v)) && (v in t.cache ==> t.cache[v] == s.cache[v])
  }

  lemma RemainingOne(s: State, names: seq<string>, t: State, n: int)
    requires 0 <= n && |names| == n + 1 && Remaining(s, names[..n], t) && CanFree(t, names[n])
    ensures Remaining(s, names, FreeOne(t, names[n]))
  {
    var u := FreeOne(t, names[n]);
    forall v
      ensures (v in u.cache <==> v in s.cache && !Among(names, v)) && (v in u.cache ==> u.cache[v] == s.cache[v])
    {
      AmongNext(names, n, v);
    }
  }

  lemma FreesNext(s: State, names: seq<string>, m: int, t: State)
    requires 0 <= m < |names| && Remaining(s, names[..m], t) && Freeable(s, names, m)
    ensures CanFree(t, names[m]) && t.cache[Key(names[m])] == SlotOf(s, names, m)
    ensures Remaining(s, names[..m + 1], FreeOne(t, names[m]))
  {
    assert names[..m + 1][..m] == names[..m];
    RemainingOne(s, names[..m + 1], t, m);
  }

  lemma SpecNext(s: State, names: seq<string>, m: int)
    requires 0 <= m < |names| && FreeSpec(s, names[..m]).0 && CanFree(FreeSpec(s, names[..m]).1, names[m])
    ensures var t := FreeSpec(s, names[..m]).1;
            FreeSpec(s, names[..m + 1]) == (true, FreeOne(t, names[m]))
            && FreedSlots(s, names[..m + 1]) == FreedSlots(s, names[..m]) + [t.cache[Key(names[m])]]
  {
    assert names[..m + 1][..m] == names[..m];
  }

  lemma SlotsNext(s: State, names: seq<string>, m: int, slots: seq<int>, i: int)
    requires 0 <= m < |names| && forall k :: 0 <= k <= m ==> Freeable(s, names, k)
    requires SlotsOf(s, names, m, slots) && i == SlotOf(s, names, m)
    ensures SlotsOf(s, names, m + 1, slots + [i])
  {
  }

  lemma FreedNext(s: State, names: seq<string>, m: int, t: State)
    requires 0 <= m < |names| && forall k :: 0 <= k <= m ==> Freeable(s, names, k)
    requires FreeSpec(s, names[..m]) == (true, t) && Remaining(s, names[..m], t)
    requires SlotsOf(s, names, m, FreedSlots(s, names[..m]))
    ensures FreeSpec(s, names[..m + 1]).0 && Remaining(s, names[..m + 1], FreeSpec(s, names[..m + 1]).1)
    ensures SlotsOf(s, names, m + 1, FreedSlots(s, names[..m + 1]))
  {
    FreesNext(s, names, m, t);
    SpecNext(s, names, m);
    SlotsNext(s, names, m, FreedSlots(s, names[..m]), SlotOf(s, names, m));
  }

  /** While all names can be freed, their slots go onto the list in order. */
  lemma {:induction false} FreedAll(s: State, names: seq<string>, n: int)
    requires 0 <= n <= |names| && forall k :: 0 <= k < n ==> Freeable(s, names, k)
    ensures FreeSpec(s, names[..n]).0 && Remaining(s, names[..n], FreeSpec(s, names[..n]).1)
    ensures SlotsOf(s, names, n, FreedSlots(s, names[..n]))
    decreases n
  {
    if n > 0 {
      FreedAll(s, names, n - 1);
      FreedNext(s, names, n - 1, FreeSpec(s, names[..n - 1]).1);
    }
  }

  /** free_locals frees exactly the leading names that it can free, and fails if there are more. */
  lemma FreedLeading(s: State, names: seq<string>, n: int)
    requires Leading(s, names, n)
    ensures FreeSpec(s, names).0 <==> n == |names|
    ensures SlotsOf(s, names, n, FreedSlots(s, names))
  {
    FreedAll(s, names, n);
    if n < |names| {
      assert !Freeable(s, names, n);
      StuckAt(s, names, n);
    } else {
      assert names[..n] == names;
    }
  }

  /** The slots of the first `n` names come in descending order, and below the freed ones. */
  ghost predicate InOrder(s: State, freed: seq<int>, names: seq<string>, n: int)
    requires Leading(s, names, n)
  {
    && (forall i, j :: 0 <= i < j < n ==> SlotOf(s, names, i) > SlotOf(s, names, j))
    && (0 < n && freed != [] ==> freed[|freed| - 1] > SlotOf(s, names, 0))
  }

  lemma DescendingAppend(a: seq<int>, b: seq<int>)
    requires Descending(a)
    ensures Descending(a + b) <==> Descending(b) && (a != [] && b != [] ==> a[|a| - 1] > b[0])
  {
    var c := a + b;
    if Descending(c) {
      forall i, j | 0 <= i < j < |b| ensures b[i] > b[j] {
        assert c[|a| + i] == b[i] && c[|a| + j] == b[j];
      }
      if a != [] && b != [] {
        assert c[|a| - 1] == a[|a| - 1] && c[|a|] == b[0];
      }
    }
  }

  /** A free that fails leaves the list sorted exactly if the names it could free were given from the largest slot to
      the smallest, below every slot already freed. */
  lemma FailedFreeSortedIff(s: State, freed: seq<int>, names: seq<string>, n: int)
    requires Leading(s, names, n) && Descending(freed)
    ensures FreeSpec(s, names).0 <==> n == |names|
    ensures Descending(freed + FreedSlots(s, names)) <==> InOrder(s, freed, names, n)
  {
    FreedLeading(s, names, n);
    DescendingAppend(freed, FreedSlots(s, names));
  }

  lemma {:induction false} LeadingExists(s: State, names: seq<string>, k: int) returns (n: int)
    requires 0 <= k <= |names| && forall i :: 0 <= i < k ==> Freeable(s, names, i)
    ensures Leading(s, names, n)
    decreases |names| - k
  {
    if k < |names| && Freeable(s, names, k) {
      n := LeadingExists(s, names, k + 1);
    } else {
      n := k;
    }
  }

  /** Freeing two names and then one that is unknown leaves the list unsorted: the next name would get slot 2 instead
      of 1. */
  lemma UnsortedAfterFailure()
    ensures var s := State(map["a" := 1, "b" := 2], {}, 3, 2);
            var names := ["$a", "$b", "x"];
            Conserved(s, 1) && !FreeSpec(s, names).0 && !Descending(FreedSlots(s, names))
  {
    var s := State(map["a" := 1, "b" := 2], {}, 3, 2);
    var names := ["$a", "$b", "x"];
    SmallConserved(s);
    assert Key("$a") == "a" && Key("$b") == "b";
    assert Freeable(s, names, 0) && Freeable(s, names, 1) && !Freeable(s, names, 2);
    FailedFreeSortedIff(s, [], names, 2);
    assert SlotOf(s, names, 0) < SlotOf(s, names, 1);
    assert [] + FreedSlots(s, names) == FreedSlots(s, names);
  }

  lemma SmallConserved(s: State)
    requires s == State(map["a" := 1, "b" := 2], {}, 3, 2)
    ensures Conserved(s, 1)
  {
    assert s.cache.Values == {1, 2} by {
      assert s.cache["a"] == 1 && s.cache["b"] == 2;
    }
    assert Range(1, 3) == {1, 2};
  }
}
