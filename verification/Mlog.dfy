/**
  The preprocessor's view of an mlog program: labels, length assertions, and the
  substitution of symbolic labels.
 */
module Mlog {
  import opened Options

  // --- syntax -----------------------------------------------------------------

  /** A token with its span in the text; `reference` marks a symbolic label, written between percent signs. */
  datatype Token = Token(text: string, reference: bool, start: int, end: int)

  datatype Node = Label(name: string) | Statement(name: string, args: seq<Token>)
                | Directive(name: string, args: seq<Token>)

  type Ast = seq<Node>

  /** `int` on the text of a token. */
  type Parser = string -> Option<int>

  // --- iter_labels ------------------------------------------------------------

  /** The number of statements: the address that the next statement will have. */
  function Address(ast: Ast): (n: nat) {
    if ast == [] then 0
    else Address(ast[..|ast| - 1]) + if ast[|ast| - 1].Statement? then 1 else 0
  }

  predicate IsStart(node: Node) { node.Directive? && node.name == "start_assert_length" && |node.args| == 1 }

  predicate IsEnd(node: Node) { node.Directive? && node.name == "end_assert_length" }

  predicate IsCounter(node: Node) { node.Directive? && node.name == "assert_counter" && |node.args| == 1 }

  /** The start directive at `j` is still open at `i`. */
  predicate OpenAt(ast: Ast, j: int, i: int) {
    0 <= j < i <= |ast| && IsStart(ast[j]) && forall k :: j < k < i ==> !IsStart(ast[k]) && !IsEnd(ast[k])
  }

  /** The length that a start directive asserts. */
  function Length(parse: Parser, node: Node): Option<int>
    requires IsStart(node)
  {
    parse(node.args[0].text)
  }

  /** The bracket from `j` to `i` has the asserted length. */
  predicate Matches(parse: Parser, ast: Ast, j: int, i: int)
    requires OpenAt(ast, j, i)
  {
    Length(parse, ast[j]) == Some(Address(ast[..i]) - Address(ast[..j]))
  }

  /** What iter_labels demands of the node at `i`. */
  ghost predicate NodeOk(parse: Parser, ast: Ast, i: int)
    requires 0 <= i < |ast|
  {
    && (IsStart(ast[i]) ==> (exists n :: Length(parse, ast[i]) == Some(n) && n >= 0) && forall j :: !OpenAt(ast, j, i))
    && (IsEnd(ast[i]) ==> exists j :: OpenAt(ast, j, i) && Matches(parse, ast, j, i))
    && (IsCounter(ast[i]) ==> parse(ast[i].args[0].text) == Some(Address(ast[..i])))
  }

  /** Brackets are balanced and not nested, and every assertion holds. */
  ghost predicate Accepted(parse: Parser, ast: Ast) {
    (forall i :: 0 <= i < |ast| ==> NodeOk(parse, ast, i)) && forall j :: !OpenAt(ast, j, |ast|)
  }

  /** Every label with the number of statements before it, in order. */
  function Labels(ast: Ast): seq<(string, int)> {
    if ast == [] then []
    else
      var before, node := ast[..|ast| - 1], ast[|ast| - 1];
      Labels(before) + if node.Label? then [(node.name, Address(before))] else []
  }

  /** The loop's `length_assertion` is the open start directive, if there is one. */
  ghost predicate Tracks(parse: Parser, ast: Ast, i: int, assertion: Option<(int, int)>)
    requires 0 <= i <= |ast|
  {
    match assertion
    case None => forall j :: !OpenAt(ast, j, i)
    case Some(a) => exists j :: OpenAt(ast, j, i) && Length(parse, ast[j]) == Some(a.0) && a.1 == Address(ast[..j])
  }

  lemma OpenUnique(ast: Ast, j: int, k: int, i: int)
    requires OpenAt(ast, j, i) && OpenAt(ast, k, i)
    ensures j == k
  {
  }

  lemma TrackStart(parse: Parser, ast: Ast, i: int, n: int)
    requires 0 <= i < |ast| && IsStart(ast[i]) && Length(parse, ast[i]) == Some(n)
    ensures Tracks(parse, ast, i + 1, Some((n, Address(ast[..i]))))
  {
    assert OpenAt(ast, i, i + 1);
  }

  lemma TrackEnd(parse: Parser, ast: Ast, i: int)
    requires 0 <= i < |ast| && IsEnd(ast[i])
    ensures Tracks(parse, ast, i + 1, None)
  {
  }

  lemma StillOpen(ast: Ast, j: int, i: int)
    requires 0 <= i < |ast| && !IsStart(ast[i]) && OpenAt(ast, j, i + 1)
    ensures OpenAt(ast, j, i)
  {
  }

  lemma TrackOther(parse: Parser, ast: Ast, i: int, assertion: Option<(int, int)>)
    requires 0 <= i < |ast| && !IsStart(ast[i]) && !IsEnd(ast[i]) && Tracks(parse, ast, i, assertion)
    ensures Tracks(parse, ast, i + 1, assertion)
  {
    if assertion.None? {
      var n := i + 1;
      forall j ensures !OpenAt(ast, j, n) {
        if OpenAt(ast, j, n) {
          StillOpen(ast, j, i);
        }
      }
    } else {
      var j :| && OpenAt(ast, j, i) && Length(parse, ast[j]) == Some(assertion.value.0)
               && assertion.value.1 == Address(ast[..j]);
      assert OpenAt(ast, j, i + 1);
    }
  }

  datatype LabelError = Nested | BadInteger | Unmatched | WrongLength | WrongCounter | Unclosed

  datatype LabelResult = Ok(labels: seq<(string, int)>) | Error(error: LabelError, at: int)

  /** The directives of iter_labels; an error ends the iteration. */
  method CheckDirective(parse: Parser, ast: Ast, i: int, counter: int, assertion: Option<(int, int)>)
      returns (next: Option<(int, int)>, error: Option<LabelError>)
    requires 0 <= i < |ast| && ast[i].Directive? && counter == Address(ast[..i]) && Tracks(parse, ast, i, assertion)
    ensures error.None? <==> NodeOk(parse, ast, i)
    ensures error.None? ==> Tracks(parse, ast, i + 1, next)
  {
    next, error := assertion, None;
    var node := ast[i];
    if node.name == "start_assert_length" && |node.args| == 1 {
      if assertion.Some? {
        return next, Some(Nested);
      }
      var n := parse(node.args[0].text);
      if n.None? || n.value < 0 {
        return next, Some(BadInteger);
      }
      next := Some((n.value, counter));
      TrackStart(parse, ast, i, n.value);
    } else if node.name == "end_assert_length" {
      if assertion.None? {
        return next, Some(Unmatched);
      }
      ghost var j :| && OpenAt(ast, j, i) && Length(parse, ast[j]) == Some(assertion.value.0)
                     && assertion.value.1 == Address(ast[..j]);
      OnlyMatch(parse, ast, j, i);
      next := None;
      TrackEnd(parse, ast, i);
      if assertion.value.0 != counter - assertion.value.1 {
        return next, Some(WrongLength);
      }
    } else if node.name == "assert_counter" && |node.args| == 1 {
      var n := parse(node.args[0].text);
      TrackOther(parse, ast, i, assertion);
      if n.None? {
        return next, Some(BadInteger);
      }
      if counter != n.value {
        return next, Some(WrongCounter);
      }
    } else {
      TrackOther(parse, ast, i, assertion);
    }
  }

  lemma OnlyMatch(parse: Parser, ast: Ast, j: int, i: int)
    requires 0 <= i < |ast| && IsEnd(ast[i]) && OpenAt(ast, j, i)
    ensures NodeOk(parse, ast, i) <==> Matches(parse, ast, j, i)
  {
    forall k | OpenAt(ast, k, i) ensures k == j {
      OpenUnique(ast, j, k, i);
    }
  }

  method IterLabels(parse: Parser, ast: Ast) returns (r: LabelResult)
    ensures r.Ok? <==> Accepted(parse, ast)
    ensures r.Ok? ==> r.labels == Labels(ast)
    ensures r.Error? ==> 0 <= r.at <= |ast| && forall i :: 0 <= i < r.at ==> NodeOk(parse, ast, i)
  {
    var counter := 0;
    var assertion: Option<(int, int)> := None;
    var labels: seq<(string, int)> := [];
    for i := 0 to |ast|
      invariant counter == Address(ast[..i]) && labels == Labels(ast[..i])
      invariant Tracks(parse, ast, i, assertion)
      invariant forall k :: 0 <= k < i ==> NodeOk(parse, ast, k)
    {
      assert ast[..i + 1][..i] == ast[..i];
      match ast[i]
      case Label(name) =>
        TrackOther(parse, ast, i, assertion);
        labels := labels + [(name, counter)];
      case Statement(_, _) =>
        TrackOther(parse, ast, i, assertion);
        counter := counter + 1;
      case Directive(_, _) =>
        var next, error := CheckDirective(parse, ast, i, counter, assertion);
        if error.Some? {
          return Error(error.value, i);
        }
        assertion := next;
    }
    assert ast[..|ast|] == ast;
    if assertion.Some? {
      return Error(Unclosed, |ast|);
    }
    r := Ok(labels);
  }

  // --- what the addresses mean ------------------------------------------------

  /** The statements of a program; `@counter` is an index into them. */
  function Statements(ast: Ast): (s: seq<Node>)
    ensures |s| == Address(ast) && forall i :: 0 <= i < |s| ==> s[i].Statement?
  {
    if ast == [] then []
    else Statements(ast[..|ast| - 1]) + if ast[|ast| - 1].Statement? then [ast[|ast| - 1]] else []
  }

  lemma {:induction false} StatementsAppend(a: Ast, b: Ast)
    ensures Statements(a + b) == Statements(a) + Statements(b)
    decreases |b|
  {
    if b == [] {
      assert a + b == a;
    } else {
      assert (a + b)[..|a + b| - 1] == a + b[..|b| - 1];
      StatementsAppend(a, b[..|b| - 1]);
    }
  }

  /** `address` is where the statements from node `i` on begin. */
  ghost predicate Begins(ast: Ast, address: int, i: int)
    requires 0 <= i <= |ast|
  {
    0 <= address <= |Statements(ast)| && Statements(ast)[address..] == Statements(ast[i..])
  }

  lemma AddressBegins(ast: Ast, i: int)
    requires 0 <= i <= |ast|
    ensures Begins(ast, Address(ast[..i]), i)
  {
    assert ast == ast[..i] + ast[i..];
    StatementsAppend(ast[..i], ast[i..]);
  }

  lemma SkipNode(ast: Ast, address: int, i: int)
    requires 0 <= i < |ast| && !ast[i].Statement? && Begins(ast, address, i)
    ensures Begins(ast, address, i + 1)
  {
    assert ast[i..] == [ast[i]] + ast[i + 1..];
    StatementsAppend([ast[i]], ast[i + 1..]);
    assert [ast[i]][..0] == [];
    assert Statements([ast[i]]) == [];
  }

  /** A label at `i` is the address of the first statement after it. */
  lemma LabelTarget(ast: Ast, i: int)
    requires 0 <= i < |ast| && ast[i].Label?
    ensures (ast[i].name, Address(ast[..i]) as int) in Labels(ast)
    ensures Begins(ast, Address(ast[..i]), i + 1)
  {
    LabelListed(ast, i);
    AddressBegins(ast, i);
    SkipNode(ast, Address(ast[..i]), i);
  }

  lemma {:induction false} LabelListed(ast: Ast, i: int)
    requires 0 <= i < |ast| && ast[i].Label?
    ensures (ast[i].name, Address(ast[..i]) as int) in Labels(ast)
    decreases |ast|
  {
    if i < |ast| - 1 {
      LabelListed(ast[..|ast| - 1], i);
      assert ast[..|ast| - 1][..i] == ast[..i];
    }
  }

  /** If the program is accepted, a statement directly before a start directive that adds the asserted length to
      `@counter` (which is already one past it) arrives at the first statement after the end directive. */
  lemma LengthAssertion(parse: Parser, ast: Ast, j: int, i: int)
    requires Accepted(parse, ast) && 0 <= i < |ast| && OpenAt(ast, j, i) && IsEnd(ast[i])
    ensures Length(parse, ast[j]).Some? && Begins(ast, Address(ast[..j]) + Length(parse, ast[j]).value, i + 1)
  {
    assert NodeOk(parse, ast, i);
    OnlyMatch(parse, ast, j, i);
    AddressBegins(ast, i);
    SkipNode(ast, Address(ast[..i]), i);
  }
}
