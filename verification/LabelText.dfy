/**
  The substitution of symbolic labels in the program text.
 */
module LabelText {
  import opened Options
  import opened Mlog

  /** The symbolic references among the arguments of a statement list, in order. */
  function ArgRefs(args: seq<Token>): seq<Token> {
    if args == [] then [] else ArgRefs(args[..|args| - 1]) + if args[|args| - 1].reference then [args[|args| - 1]]
    else []
  }

  function References(ast: Ast): seq<Token> {
    if ast == [] then []
    else
      var node := ast[|ast| - 1];
      References(ast[..|ast| - 1]) + if node.Statement? then ArgRefs(node.args) else []
  }

  /** The name between the percent signs. */
  function RefName(t: Token): string { if |t.text| >= 2 then t.text[1..|t.text| - 1] else "" }

  /** `str` of an address. */
  function Decimal(n: nat): (s: string)
    ensures |s| > 0
  {
    var digit := [['0', '1', '2', '3', '4', '5', '6', '7', '8', '9'][n % 10]];
    if n < 10 then digit else Decimal(n / 10) + digit
  }

  /** The number that a string of digits stands for. */
  function DigitsValue(s: string): int {
    if s == "" then 0 else 10 * DigitsValue(s[..|s| - 1]) + (s[|s| - 1] as int - '0' as int)
  }

  /** The assembler reads back the address that was meant. */
  lemma {:induction false} DecimalValue(n: nat)
    ensures DigitsValue(Decimal(n)) == n
  {
    var s := Decimal(n);
    if n >= 10 {
      DecimalValue(n / 10);
      assert s[..|s| - 1] == Decimal(n / 10);
    } else {
      assert s[..|s| - 1] == "";
    }
  }

  type LabelMap = map<string, nat>

  /** The spans that the parser reports: in order, without overlap, inside the text. */
  predicate Spans(text: string, refs: seq<Token>) {
    && (forall k :: 0 <= k < |refs| ==> 0 <= refs[k].start <= refs[k].end <= |text|)
    && (forall j, k :: 0 <= j < k < |refs| ==> refs[j].end <= refs[k].start)
  }

  /** The text before reference `k` begins here, and ends at its start or at the end of the text. */
  function GapStart(refs: seq<Token>, k: int): int
    requires 0 <= k <= |refs|
  {
    if k == 0 then 0 else refs[k - 1].end
  }

  function GapEnd(text: string, refs: seq<Token>, k: int): int
    requires 0 <= k <= |refs|
  {
    if k == |refs| then |text| else refs[k].start
  }

  function Replacement(labels: LabelMap, t: Token): string {
    if RefName(t) in labels then Decimal(labels[RefName(t)]) else ""
  }

  /** The address of each reference's label, in decimal. */
  function Addresses(refs: seq<Token>, labels: LabelMap): (reps: seq<string>)
    ensures |reps| == |refs| && forall k :: 0 <= k < |refs| ==> reps[k] == Replacement(labels, refs[k])
  {
    seq(|refs|, k requires 0 <= k < |refs| => Replacement(labels, refs[k]))
  }

  predicate AllKnown(refs: seq<Token>, labels: LabelMap) { forall k :: 0 <= k < |refs| ==> RefName(refs[k]) in labels }

  /** How far the text from gap `k` on has moved. */
  function Shift(refs: seq<Token>, reps: seq<string>, k: int): int
    requires |reps| == |refs| && 0 <= k <= |refs|
  {
    if k == 0 then 0 else Shift(refs, reps, k - 1) + |reps[k - 1]| - (refs[k - 1].end - refs[k - 1].start)
  }

  /** Gap `k` is in `out`, moved but not changed. */
  predicate GapKept(text: string, refs: seq<Token>, reps: seq<string>, k: int, out: string)
    requires Spans(text, refs) && |reps| == |refs| && 0 <= k <= |refs|
  {
    var a, b, shift := GapStart(refs, k), GapEnd(text, refs, k), Shift(refs, reps, k);
    0 <= a + shift && b + shift <= |out| && out[a + shift..b + shift] == text[a..b]
  }

  /** Reference `k` is in `out` as the address of its label. */
  predicate RefReplaced(refs: seq<Token>, reps: seq<string>, k: int, out: string)
    requires |reps| == |refs| && 0 <= k < |refs|
  {
    var at := refs[k].start + Shift(refs, reps, k);
    var address := reps[k];
    0 <= at && at + |address| <= |out| && out[at..at + |address|] == address
  }

  /** The output up to reference `k`. */
  function Prefix(text: string, refs: seq<Token>, reps: seq<string>, k: int): (s: string)
    requires Spans(text, refs) && |reps| == |refs| && 0 <= k <= |refs|
    ensures |s| == GapStart(refs, k) + Shift(refs, reps, k)
  {
    if k == 0 then ""
    else Prefix(text, refs, reps, k - 1) + (text[GapStart(refs, k - 1)..refs[k - 1].start] + reps[k - 1])
  }

  lemma PrefixParts(text: string, refs: seq<Token>, reps: seq<string>, k: int, out: string)
    requires Spans(text, refs) && |reps| == |refs| && 0 <= k < |refs|
    requires StartsWith(out, Prefix(text, refs, reps, k + 1))
    ensures StartsWith(out, Prefix(text, refs, reps, k))
    ensures GapKept(text, refs, reps, k, out) && RefReplaced(refs, reps, k, out)
  {
    var a, b, shift := GapStart(refs, k), refs[k].start, Shift(refs, reps, k);
    assert k > 0 ==> refs[k - 1].end <= refs[k].start;
    Located(out, Prefix(text, refs, reps, k), text[a..b], reps[k], a + shift, b + shift);
  }

  /** `ThreeParts` by position. */
  lemma Located(out: string, p: string, gap: string, address: string, a: int, b: int)
    requires StartsWith(out, p + (gap + address)) && a == |p| && b == a + |gap|
    ensures StartsWith(out, p) && b + |address| <= |out|
    ensures out[a..b] == gap && out[b..b + |address|] == address
  {
    ThreeParts(out, p, gap, address);
  }

  lemma ThreeParts(out: string, a: string, b: string, c: string)
    requires StartsWith(out, a + (b + c))
    ensures StartsWith(out, a)
    ensures out[|a|..|a| + |b|] == b && out[|a| + |b|..|a| + |b| + |c|] == c
  {
    var whole := a + (b + c);
    assert out[..|whole|] == whole;
    assert a == whole[..|a|] == out[..|a|];
    assert b == whole[|a|..|a| + |b|] == out[|a|..|a| + |b|];
    assert c == whole[|a| + |b|..|a| + |b| + |c|] == out[|a| + |b|..|a| + |b| + |c|];
  }

  lemma {:induction false} AllParts(text: string, refs: seq<Token>, reps: seq<string>, n: int, out: string)
    requires Spans(text, refs) && |reps| == |refs| && 0 <= n <= |refs| && StartsWith(out, Prefix(text, refs, reps, n))
    ensures forall k :: 0 <= k < n ==> GapKept(text, refs, reps, k, out) && RefReplaced(refs, reps, k, out)
  {
    if n > 0 {
      PrefixParts(text, refs, reps, n - 1, out);
      AllParts(text, refs, reps, n - 1, out);
    }
  }

  /** Every gap is kept, every reference is replaced, and there is nothing else. */
  predicate Resolved(text: string, refs: seq<Token>, reps: seq<string>, out: string)
    requires Spans(text, refs) && |reps| == |refs|
  {
    && |out| == |text| + Shift(refs, reps, |refs|)
    && (forall k :: 0 <= k <= |refs| ==> GapKept(text, refs, reps, k, out))
    && (forall k :: 0 <= k < |refs| ==> RefReplaced(refs, reps, k, out))
  }

  lemma LastGap(text: string, refs: seq<Token>, reps: seq<string>, out: string)
    requires Spans(text, refs) && |reps| == |refs|
    requires out == Prefix(text, refs, reps, |refs|) + (text[GapStart(refs, |refs|)..] + "")
    ensures Resolved(text, refs, reps, out)
  {
    AllParts(text, refs, reps, |refs|, out);
    var a, shift := GapStart(refs, |refs|), Shift(refs, reps, |refs|);
    Located(out, Prefix(text, refs, reps, |refs|), text[a..], "", a + shift, |text| + shift);
  }

  datatype Replaced = NewText(text: string) | UnknownLabel(token: Token)

  /** replace_symbolic_labels: only the spans of references change, each into the address of its label. */
  method ReplaceSymbolicLabels(text: string, ast: Ast, labels: LabelMap) returns (r: Replaced)
    requires Spans(text, References(ast))
    ensures r.NewText? <==> AllKnown(References(ast), labels)
    ensures r.NewText? ==> Resolved(text, References(ast), Addresses(References(ast), labels), r.text)
    ensures r.UnknownLabel? ==> r.token in References(ast) && RefName(r.token) !in labels
  {
    r := ReplaceSpans(text, References(ast), labels);
  }

  /** The loop of replace_symbolic_labels. */
  method CollectParts(text: string, refs: seq<Token>, labels: LabelMap, ghost reps: seq<string>)
      returns (unknown: int, parts: string, startPos: int)
    requires Spans(text, refs) && |reps| == |refs|
    requires forall k :: 0 <= k < |refs| ==> reps[k] == Replacement(labels, refs[k])
    ensures 0 <= unknown <= |refs| && forall k :: 0 <= k < unknown ==> RefName(refs[k]) in labels
    ensures unknown < |refs| ==> RefName(refs[unknown]) !in labels
    ensures startPos == GapStart(refs, unknown) && parts == Prefix(text, refs, reps, unknown)
  {
    parts, startPos, unknown := "", 0, 0;
    while unknown < |refs| && RefName(refs[unknown]) in labels
      invariant 0 <= unknown <= |refs| && forall k :: 0 <= k < unknown ==> RefName(refs[k]) in labels
      invariant startPos == GapStart(refs, unknown) && parts == Prefix(text, refs, reps, unknown)
    {
      var token := refs[unknown];
      parts := parts + (text[startPos..token.start] + Replacement(labels, token));
      startPos := token.end;
      unknown := unknown + 1;
    }
  }

  method ReplaceSpans(text: string, refs: seq<Token>, labels: LabelMap) returns (r: Replaced)
    requires Spans(text, refs)
    ensures r.NewText? <==> AllKnown(refs, labels)
    ensures r.NewText? ==> Resolved(text, refs, Addresses(refs, labels), r.text)
    ensures r.UnknownLabel? ==> r.token in refs && RefName(r.token) !in labels
  {
    var unknown, parts, startPos := CollectParts(text, refs, labels, Addresses(refs, labels));
    if unknown < |refs| {
      return UnknownLabel(refs[unknown]);
    }
    LastGap(text, refs, Addresses(refs, labels), parts + (text[startPos..] + ""));
    assert text[startPos..] + "" == text[startPos..];
    r := NewText(parts + text[startPos..]);
  }

  /** `out` has, at the place of reference `k`, digits that read as the address of its label. */
  ghost predicate ReadsAddress(refs: seq<Token>, labels: LabelMap, k: int, out: string)
    requires 0 <= k < |refs|
  {
    && RefName(refs[k]) in labels
    && exists a, b :: 0 <= a < b <= |out| && DigitsValue(out[a..b]) == labels[RefName(refs[k])]
                   && forall i :: a <= i < b ==> '0' <= out[i] <= '9'
  }

  lemma {:induction false} DecimalDigits(n: nat)
    ensures forall i :: 0 <= i < |Decimal(n)| ==> '0' <= Decimal(n)[i] <= '9'
  {
    if n >= 10 {
      DecimalDigits(n / 10);
    }
  }

  /** In the new text every reference reads as its address. */
  lemma ResolvedReads(text: string, refs: seq<Token>, labels: LabelMap, out: string, k: int)
    requires Spans(text, refs) && AllKnown(refs, labels) && Resolved(text, refs, Addresses(refs, labels), out)
    requires 0 <= k < |refs|
    ensures ReadsAddress(refs, labels, k, out)
  {
    var reps, n := Addresses(refs, labels), labels[RefName(refs[k])];
    assert RefReplaced(refs, reps, k, out);
    var at := refs[k].start + Shift(refs, reps, k);
    DecimalValue(n);
    DecimalDigits(n);
    var b := at + |reps[k]|;
    assert out[at..b] == Decimal(n);
    forall i | at <= i < b ensures '0' <= out[i] <= '9' {
      assert out[i] == Decimal(n)[i - at];
    }
  }

  /** A name is what stands between percent signs, and numbers are in base ten. */
  lemma RefExamples(name: string, t: Token)
    requires t.text == "%" + name + "%"
    ensures RefName(t) == name
    ensures Decimal(2070) == "2070"
  {
    assert Decimal(2) == "2" && Decimal(20) == "20" && Decimal(207) == "207";
  }
}
