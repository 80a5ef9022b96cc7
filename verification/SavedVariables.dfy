/**
  The check that every variable a worker writes is handed to the next worker.
 */
module SavedVariables {
  import opened Options
  import opened Mlog

  datatype Phase = Init | Fetching | Checking

  /** The variable that a statement writes, for the kinds of statement that the check knows. */
  function TargetOf(node: Node): Option<string> {
    if !node.Statement? then None
    else
      var n := |node.args|;
      if node.name == "read" then (if n == 3 then Some(node.args[0].text) else None)
      else if node.name == "getblock" || node.name == "lookup" || node.name == "op" then
        (if n >= 2 then Some(node.args[1].text) else None)
      else if
        || node.name == "getflag" || node.name == "getlink" || node.name == "sensor"
        || node.name == "set" || node.name == "select"
      then
        (if n >= 1 then Some(node.args[0].text) else None)
      else None
  }

  /** The target is the first or the second argument, by the name of the statement; read has exactly three arguments. */
  lemma TargetByName(args: seq<Token>, name: string)
    ensures TargetOf(Statement("read", args)) == if |args| == 3 then Some(args[0].text) else None
    ensures name in {"getblock", "lookup", "op"} ==>
              TargetOf(Statement(name, args)) == if |args| >= 2 then Some(args[1].text) else None
    ensures name in {"getflag", "getlink", "sensor", "set", "select"} ==>
              TargetOf(Statement(name, args)) == if |args| >= 1 then Some(args[0].text) else None
    ensures name !in {"read", "getblock", "lookup", "op", "getflag", "getlink", "sensor", "set", "select"} ==>
              TargetOf(Statement(name, args)) == None
  {
  }

  predicate IsDirective(node: Node, name: string) { node.Directive? && node.name == name }

  /** A read from the previous worker. */
  predicate IsRestore(node: Node) {
    node.Statement? && node.name == "read" && |node.args| == 3 && node.args[1].text == "prev_proc"
  }

  function Texts(args: seq<Token>): set<string> { set t | t in args :: t.text }

  /** The text without its first and last character. */
  function Unquote(s: string): string { if |s| >= 2 then s[1..|s| - 1] else "" }

  /** A quoted name, and a read from the previous worker. */
  lemma RestoreForm(name: string, args: seq<Token>)
    ensures Unquote("\"" + name + "\"") == name
    ensures IsRestore(Statement("read", args)) <==> |args| == 3 && args[1].text == "prev_proc"
  {
  }

  /** The phase before node `i`. */
  function PhaseAt(ast: Ast, i: int): Phase
    requires 0 <= i <= |ast|
  {
    if i == 0 then Init
    else if IsDirective(ast[i - 1], "start_fetch") then Fetching
    else if IsDirective(ast[i - 1], "end_fetch") then Checking
    else PhaseAt(ast, i - 1)
  }

  /** The variables that count as saved before node `i`. */
  function SavedAt(ast: Ast, i: int): set<string>
    requires 0 <= i <= |ast|
  {
    if i == 0 then {"@counter"}
    else
      var node, saved := ast[i - 1], SavedAt(ast, i - 1);
      if IsRestore(node) && PhaseAt(ast, i - 1) == Fetching then saved + {node.args[0].text}
      else if IsDirective(node, "push_saved") then saved + Texts(node.args)
      else if IsDirective(node, "pop_saved") then saved - Texts(node.args)
      else saved
  }

  predicate Restores(ast: Ast, i: int)
    requires 0 <= i < |ast|
  {
    IsRestore(ast[i]) && PhaseAt(ast, i) == Fetching
  }

  /** The statement at `i` writes `v` while `v` is not saved. */
  predicate Offends(ast: Ast, i: int, v: string)
    requires 0 <= i < |ast|
  {
    PhaseAt(ast, i) == Checking && TargetOf(ast[i]) == Some(v) && v !in SavedAt(ast, i)
  }

  predicate RestoresWell(ast: Ast, i: int)
    requires 0 <= i < |ast|
  {
    Restores(ast, i) ==> ast[i].args[0].text == Unquote(ast[i].args[2].text) && ast[i].args[0].text !in SavedAt(ast, i)
  }

  /** pop_saved removes its arguments one by one, and fails on one that is not there. */
  predicate PopsWell(ast: Ast, i: int)
    requires 0 <= i < |ast|
  {
    IsDirective(ast[i], "pop_saved") ==>
      && (forall k :: 0 <= k < |ast[i].args| ==> ast[i].args[k].text in SavedAt(ast, i))
      && (forall k, l :: 0 <= k < l < |ast[i].args| ==> ast[i].args[k].text != ast[i].args[l].text)
  }

  predicate PopsUpTo(ast: Ast, n: int)
    requires 0 <= n <= |ast|
  {
    forall i :: 0 <= i < n ==> PopsWell(ast, i)
  }

  datatype Warning = InvalidRestoration(name: string) | DuplicateRestoration(name: string) | Unsaved(name: string)

  datatype CheckResult = Checked(warnings: seq<Warning>) | NotSaved(at: int)

  method PopAll(saved: set<string>, args: seq<Token>) returns (r: Option<set<string>>)
    ensures r.Some? <==>
              && (forall k :: 0 <= k < |args| ==> args[k].text in saved)
              && (forall k, l :: 0 <= k < l < |args| ==> args[k].text != args[l].text)
    ensures r.Some? ==> r.value == saved - Texts(args)
  {
    var left := saved;
    for n := 0 to |args|
      invariant left == saved - Texts(args[..n])
      invariant forall k :: 0 <= k < n ==> args[k].text in saved
      invariant forall k, l :: 0 <= k < l < n ==> args[k].text != args[l].text
    {
      if args[n].text !in left {
        if args[n].text in saved {
          var t :| t in args[..n] && t.text == args[n].text;
          var k :| 0 <= k < n && args[k] == t;
          assert args[k].text == args[n].text;
        }
        return None;
      }
      left := left - {args[n].text};
      assert forall k :: 0 <= k < n ==> args[k] in args[..n];
      assert args[..n + 1] == args[..n] + [args[n]];
    }
    assert args[..|args|] == args;
    r := Some(left);
  }

  ghost predicate OffendsBefore(ast: Ast, n: int, v: string)
    requires 0 <= n <= |ast|
  {
    exists i :: 0 <= i < n && Offends(ast, i, v)
  }

  ghost predicate RestoresWellUpTo(ast: Ast, n: int)
    requires 0 <= n <= |ast|
  {
    forall i :: 0 <= i < n ==> RestoresWell(ast, i)
  }

  ghost predicate OnlyUnsaved(warnings: seq<Warning>) { forall k :: 0 <= k < |warnings| ==> warnings[k].Unsaved? }

  ghost predicate Collects(ast: Ast, n: int, warned: set<string>)
    requires 0 <= n <= |ast|
  {
    forall v :: v in warned <==> OffendsBefore(ast, n, v)
  }

  ghost predicate Lists(warnings: seq<Warning>, warned: set<string>) {
    forall v :: Unsaved(v) in warnings <==> v in warned
  }

  /** What the loop has found so far. */
  ghost predicate Reported(ast: Ast, n: int, warnings: seq<Warning>, warned: set<string>)
    requires 0 <= n <= |ast|
  {
    Lists(warnings, warned) && Collects(ast, n, warned) && (OnlyUnsaved(warnings) <==> RestoresWellUpTo(ast, n))
  }

  /** One node: the new state of the loop, or null if a pop fails. */
  method CheckNode(ast: Ast, i: int, phase: Phase, saved: set<string>, warned: set<string>, warnings: seq<Warning>)
      returns (ok: bool, phase': Phase, saved': set<string>, warned': set<string>, warnings': seq<Warning>)
    requires 0 <= i < |ast| && phase == PhaseAt(ast, i) && saved == SavedAt(ast, i)
    requires Reported(ast, i, warnings, warned)
    ensures ok <==> PopsWell(ast, i)
    ensures ok ==>
              phase' == PhaseAt(ast, i + 1) && saved' == SavedAt(ast, i + 1) && Reported(ast, i + 1, warnings', warned')
  {
    var node := ast[i];
    ok, phase', saved', warned', warnings' := true, phase, saved, warned, warnings;
    if IsRestore(node) && phase == Fetching {
      var v := node.args[0].text;
      if v != Unquote(node.args[2].text) {
        warnings' := warnings + [InvalidRestoration(v)];
      } else if v in saved {
        warnings' := warnings + [DuplicateRestoration(v)];
      }
      saved' := saved + {v};
      ReportRestore(ast, i, warnings, warned, warnings');
    } else if node.Statement? {
      var target := TargetOf(node);
      if target.Some? && phase == Checking && target.value !in saved + warned {
        warnings' := warnings + [Unsaved(target.value)];
        warned' := warned + {target.value};
        ReportNew(ast, i, warnings, warned, target.value);
      } else {
        ReportNothing(ast, i, warnings, warned);
      }
    } else {
      if IsDirective(node, "start_fetch") {
        phase' := Fetching;
      } else if IsDirective(node, "end_fetch") {
        phase' := Checking;
      } else if IsDirective(node, "push_saved") {
        saved' := saved + Texts(node.args);
      } else if IsDirective(node, "pop_saved") {
        var left := PopAll(saved, node.args);
        if left.None? {
          ok := false;
          return;
        }
        saved' := left.value;
      }
      ReportNothing(ast, i, warnings, warned);
    }
  }

  lemma OffendsNext(ast: Ast, i: int, v: string)
    requires 0 <= i < |ast|
    ensures OffendsBefore(ast, i + 1, v) <==> OffendsBefore(ast, i, v) || Offends(ast, i, v)
  {
    if OffendsBefore(ast, i, v) {
      var k :| 0 <= k < i && Offends(ast, k, v);
      assert k < i + 1 && Offends(ast, k, v);
    }
  }

  lemma CollectsNext(ast: Ast, i: int, warned: set<string>, warned': set<string>)
    requires 0 <= i < |ast| && Collects(ast, i, warned)
    requires forall v :: v in warned' <==> v in warned || Offends(ast, i, v)
    ensures Collects(ast, i + 1, warned')
  {
    forall v ensures v in warned' <==> OffendsBefore(ast, i + 1, v) {
      OffendsNext(ast, i, v);
    }
  }

  lemma AppendUnsaved(warnings: seq<Warning>, w: Warning)
    ensures OnlyUnsaved(warnings + [w]) <==> OnlyUnsaved(warnings) && w.Unsaved?
  {
    var longer := warnings + [w];
    assert longer[|warnings|] == w;
    assert forall k :: 0 <= k < |warnings| ==> longer[k] == warnings[k];
  }

  lemma ReportRestore(ast: Ast, i: int, warnings: seq<Warning>, warned: set<string>, warnings': seq<Warning>)
    requires 0 <= i < |ast| && Reported(ast, i, warnings, warned) && Restores(ast, i)
    requires if RestoresWell(ast, i) then warnings' == warnings
             else exists w: Warning :: !w.Unsaved? && warnings' == warnings + [w]
    ensures Reported(ast, i + 1, warnings', warned)
  {
    CollectsNext(ast, i, warned, warned);
    if !RestoresWell(ast, i) {
      var w: Warning :| !w.Unsaved? && warnings' == warnings + [w];
      AppendUnsaved(warnings, w);
    }
  }

  lemma ReportNew(ast: Ast, i: int, warnings: seq<Warning>, warned: set<string>, v: string)
    requires 0 <= i < |ast| && Reported(ast, i, warnings, warned) && !Restores(ast, i) && Offends(ast, i, v)
    ensures Reported(ast, i + 1, warnings + [Unsaved(v)], warned + {v})
  {
    CollectsNext(ast, i, warned, warned + {v});
    AppendUnsaved(warnings, Unsaved(v));
  }

  lemma ReportNothing(ast: Ast, i: int, warnings: seq<Warning>, warned: set<string>)
    requires 0 <= i < |ast| && Reported(ast, i, warnings, warned) && !Restores(ast, i)
    requires forall v :: Offends(ast, i, v) ==> v in warned
    ensures Reported(ast, i + 1, warnings, warned)
  {
    CollectsNext(ast, i, warned, warned);
  }

  /** The loop of check_unsaved_variables. */
  method CheckNodes(ast: Ast) returns (failed: Option<int>, warnings: seq<Warning>, ghost warned: set<string>)
    ensures failed.None? <==> PopsUpTo(ast, |ast|)
    ensures failed.None? ==> Reported(ast, |ast|, warnings, warned)
  {
    var saved, phase := {"@counter"}, Init;
    var seen: set<string> := {};
    warnings, warned := [], {};
    NothingReported(ast);
    for i := 0 to |ast|
      invariant phase == PhaseAt(ast, i) && saved == SavedAt(ast, i) && Reported(ast, i, warnings, seen)
      invariant PopsUpTo(ast, i)
    {
      var ok;
      ok, phase, saved, seen, warnings := CheckNode(ast, i, phase, saved, seen, warnings);
      if !ok {
        assert !PopsWell(ast, i);
        return Some(i), warnings, seen;
      }
    }
    failed, warned := None, seen;
  }

  /** check_unsaved_variables: an unsaved write is reported, and so is a restoration under the wrong name or a second
      one. */
  method CheckUnsavedVariables(ast: Ast) returns (r: CheckResult)
    ensures r.Checked? <==> PopsUpTo(ast, |ast|)
    ensures r.Checked? ==> forall v :: Unsaved(v) in r.warnings <==> exists i :: 0 <= i < |ast| && Offends(ast, i, v)
    ensures r.Checked? && r.warnings == [] <==> Passes(ast)
  {
    var failed, warnings;
    ghost var warned;
    failed, warnings, warned := CheckNodes(ast);
    if failed.Some? {
      return NotSaved(failed.value);
    }
    NoWarnings(ast, warnings, warned);
    r := Checked(warnings);
  }

  /** The program for which the check has nothing to say. */
  ghost predicate Passes(ast: Ast) {
    && PopsUpTo(ast, |ast|)
    && (forall i :: 0 <= i < |ast| ==> RestoresWell(ast, i))
    && (forall i, v :: 0 <= i < |ast| ==> !Offends(ast, i, v))
  }

  lemma NothingReported(ast: Ast)
    ensures Reported(ast, 0, [], {}) && PhaseAt(ast, 0) == Init && SavedAt(ast, 0) == {"@counter"}
  {
  }

  lemma NoWarnings(ast: Ast, warnings: seq<Warning>, warned: set<string>)
    requires Reported(ast, |ast|, warnings, warned) && PopsUpTo(ast, |ast|)
    ensures warnings == [] <==> Passes(ast)
  {
    if warnings != [] {
      var w := warnings[0];
      if w.Unsaved? {
        assert w.name in warned;
      }
    } else {
      forall i, v | 0 <= i < |ast| ensures !Offends(ast, i, v) {
        assert Unsaved(v) !in warnings && !OffendsBefore(ast, |ast|, v);
      }
    }
  }
}
