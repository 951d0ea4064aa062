/** The word tokenizer shared by both landing pages: a capturing whitespace
    split of a paragraph, positional span ids, and the class each span gets. */
module Words {

  import opened Wrappers

  /** Membership in the regular-expression class `\s` of ECMAScript: the
      WhiteSpace and LineTerminator code points. */
  predicate IsSpace(c: char) {
    || c == '\t' || c == '\n' || c == '\U{000B}' || c == '\U{000C}' || c == '\r'
    || c == ' ' || c == '\U{00A0}' || c == '\U{1680}'
    || ('\U{2000}' <= c <= '\U{200A}')
    || c == '\U{2028}' || c == '\U{2029}' || c == '\U{202F}' || c == '\U{205F}'
    || c == '\U{3000}' || c == '\U{FEFF}'
  }

  /** A string with no `\s` character in it. */
  predicate NoSpace(s: string) {
    forall i :: 0 <= i < |s| ==> !IsSpace(s[i])
  }

  /** A string that matches `/^\s+$/`: non-empty and whitespace only. */
  predicate IsSpaceRun(s: string) {
    |s| > 0 && forall i :: 0 <= i < |s| ==> IsSpace(s[i])
  }

  /** Concatenation of a sequence of strings, in order. */
  function Concat(t: seq<string>): string {
    if t == [] then "" else t[0] + Concat(t[1..])
  }

  lemma {:induction false} ConcatAppend(a: seq<string>, b: seq<string>)
    ensures Concat(a + b) == Concat(a) + Concat(b)
  {
    if a == [] {
      assert a + b == b;
    } else {
      assert (a + b)[1..] == a[1..] + b;
      ConcatAppend(a[1..], b);
    }
  }

  /** Length of the longest prefix of `s` that holds no whitespace. */
  function NonSpacePrefix(s: string): (k: nat)
    ensures k <= |s|
    ensures NoSpace(s[..k])
    ensures k < |s| ==> IsSpace(s[k])
  {
    if s == [] || IsSpace(s[0]) then 0 else 1 + NonSpacePrefix(s[1..])
  }

  /** Length of the longest prefix of `s` made of whitespace only. */
  function SpacePrefix(s: string): (k: nat)
    ensures k <= |s|
    ensures forall i :: 0 <= i < k ==> IsSpace(s[i])
    ensures k < |s| ==> !IsSpace(s[k])
  {
    if s == [] || !IsSpace(s[0]) then 0 else 1 + SpacePrefix(s[1..])
  }

  /** `text.split(/(\s+)/)`: the pieces between maximal whitespace runs,
      with each run itself kept as a piece because the group captures it. */
  function Split(s: string): (t: seq<string>)
    ensures |t| % 2 == 1
    decreases |s|
  {
    var w := NonSpacePrefix(s);
    if w == |s| then [s]
    else
      var rest := s[w..];
      var g := SpacePrefix(rest);
      [s[..w], rest[..g]] + Split(rest[g..])
  }

  /** The shape every split result has: odd length, whitespace-free pieces at
      even positions, whitespace runs at odd positions, and an empty piece
      only at either end. */
  predicate WellFormed(t: seq<string>) {
    && |t| % 2 == 1
    && (forall k :: 0 <= k < |t| && k % 2 == 0 ==> NoSpace(t[k]))
    && (forall k :: 0 <= k < |t| && k % 2 == 1 ==> IsSpaceRun(t[k]))
    && (forall k :: 0 < k < |t| - 1 ==> t[k] != "")
  }

  lemma {:induction false} NonSpacePrefixOf(a: string, b: string)
    requires NoSpace(a)
    requires b == [] || IsSpace(b[0])
    ensures NonSpacePrefix(a + b) == |a|
    decreases |a|
  {
    if a != [] {
      assert (a + b)[1..] == a[1..] + b;
      NonSpacePrefixOf(a[1..], b);
    } else {
      assert a + b == b;
    }
  }

  lemma {:induction false} SpacePrefixOf(a: string, b: string)
    requires forall i :: 0 <= i < |a| ==> IsSpace(a[i])
    requires b == [] || !IsSpace(b[0])
    ensures SpacePrefix(a + b) == |a|
    decreases |a|
  {
    if a != [] {
      assert (a + b)[1..] == a[1..] + b;
      SpacePrefixOf(a[1..], b);
    } else {
      assert a + b == b;
    }
  }

  /** Round trip: joining the pieces of a split gives back the text,
      including the empty text and text with leading or trailing spaces. */
  lemma {:induction false} SplitRoundTrip(s: string)
    ensures Concat(Split(s)) == s
    decreases |s|
  {
    var w := NonSpacePrefix(s);
    if w == |s| {
      assert Concat([s]) == s + Concat([]);
    } else {
      var rest := s[w..];
      var g := SpacePrefix(rest);
      var t := Split(s);
      SplitRoundTrip(rest[g..]);
      ConcatTwo(t);
      assert t[2..] == Split(rest[g..]);
      assert s == s[..w] + (rest[..g] + rest[g..]);
    }
  }

  /** A whitespace-free piece and a whitespace run in front of a
      well-formed sequence keep it well-formed, as long as the piece that
      follows the run is empty only at the very end. */
  lemma {:induction false} WellFormedCons(a: string, b: string, tail: seq<string>)
    requires NoSpace(a) && IsSpaceRun(b) && WellFormed(tail)
    requires |tail| > 1 ==> tail[0] != ""
    ensures WellFormed([a, b] + tail)
  {
    var t := [a, b] + tail;
    assert forall k :: 2 <= k < |t| ==> t[k] == tail[k - 2];
  }

  /** The split has the alternating shape of `WellFormed`. */
  lemma {:induction false} SplitWellFormed(s: string)
    ensures WellFormed(Split(s))
    decreases |s|
  {
    var w := NonSpacePrefix(s);
    if w != |s| {
      var rest := s[w..];
      var g := SpacePrefix(rest);
      var r := rest[g..];
      SplitWellFormed(r);
      SplitFirst(r);
      WellFormedCons(s[..w], rest[..g], Split(r));
    }
  }

  lemma {:induction false} ConcatTwo(t: seq<string>)
    requires |t| >= 2
    ensures Concat(t) == t[0] + (t[1] + Concat(t[2..]))
  {
    assert Concat(t) == t[0] + Concat(t[1..]);
    assert t[1..][1..] == t[2..];
  }

  lemma {:induction false} WellFormedTail(t: seq<string>)
    requires WellFormed(t) && |t| >= 3
    ensures WellFormed(t[2..])
  {
    var tail := t[2..];
    assert forall k :: 0 <= k < |tail| ==> tail[k] == t[k + 2];
  }

  /** What follows a whitespace run of a well-formed sequence, joined up,
      is empty or starts with a non-space. */
  lemma {:induction false} AfterRun(t: seq<string>)
    requires WellFormed(t) && |t| >= 3
    ensures Concat(t[2..]) == [] || !IsSpace(Concat(t[2..])[0])
  {
    var tail := t[2..];
    assert Concat(tail) == tail[0] + Concat(tail[1..]);
    if |tail| > 1 {
      assert tail[0] == t[2] && t[2] != "" && NoSpace(t[2]);
    } else {
      assert tail[1..] == [];
    }
  }

  /** One step of the split: a whitespace-free piece, then a maximal
      whitespace run, then the split of what follows. */
  lemma {:induction false} SplitStep(a: string, b: string, c: string)
    requires NoSpace(a) && IsSpaceRun(b)
    requires c == [] || !IsSpace(c[0])
    ensures Split(a + (b + c)) == [a, b] + Split(c)
  {
    var s := a + (b + c);
    NonSpacePrefixOf(a, b + c);
    var w := NonSpacePrefix(s);
    var rest := s[w..];
    assert s[..w] == a && rest == b + c;
    SpacePrefixOf(b, c);
    var g := SpacePrefix(rest);
    assert rest[..g] == b && rest[g..] == c;
  }

  /** The split is the only well-formed decomposition of the text, so
      `WellFormed` and the round trip together characterise it. */
  lemma {:induction false} SplitUnique(s: string, t: seq<string>)
    requires WellFormed(t)
    requires Concat(t) == s
    ensures t == Split(s)
    decreases |t|
  {
    if |t| == 1 {
      assert Concat(t) == t[0] + Concat([]);
      NonSpacePrefixOf(s, []);
      assert s + [] == s;
    } else {
      var after := Concat(t[2..]);
      ConcatTwo(t);
      AfterRun(t);
      SplitStep(t[0], t[1], after);
      WellFormedTail(t);
      SplitUnique(after, t[2..]);
      assert t == [t[0], t[1]] + t[2..];
    }
  }

  /** The first piece is empty exactly when the text is empty or begins with
      whitespace. */
  lemma {:induction false} SplitFirst(s: string)
    ensures Split(s)[0] == "" <==> s == "" || IsSpace(s[0])
  {
    var w := NonSpacePrefix(s);
    assert Split(s)[0] == s[..w];
  }

  /** The last piece is empty exactly when the text is empty or ends with
      whitespace. */
  lemma {:induction false} SplitLast(s: string)
    ensures Split(s)[|Split(s)| - 1] == "" <==> s == "" || IsSpace(s[|s| - 1])
    decreases |s|
  {
    var w := NonSpacePrefix(s);
    if w == |s| {
      assert s[..w] == s;
    } else {
      var rest := s[w..];
      var g := SpacePrefix(rest);
      var r := rest[g..];
      SplitLast(r);
      var t := Split(s);
      assert t == [s[..w], rest[..g]] + Split(r);
      assert t[|t| - 1] == Split(r)[|Split(r)| - 1];
      if r == "" {
        assert s[|s| - 1] == rest[g - 1];
      } else {
        assert s[|s| - 1] == r[|r| - 1];
      }
    }
  }

  /** Worked case: a double space stays one whitespace token. */
  lemma {:induction false} SplitDoubleSpace()
    ensures Split("a  b") == ["a", "  ", "b"]
  {
    var t: seq<string> := ["a", "  ", "b"];
    assert NoSpace(t[0]) && NoSpace(t[2]) && IsSpaceRun(t[1]);
    assert WellFormed(t);
    assert Concat(t) == "a" + ("  " + ("b" + Concat([])));
    SplitUnique("a  b", t);
  }

  /** Worked case: whitespace at either end yields an empty edge token. */
  lemma {:induction false} SplitEdgeSpaces()
    ensures Split(" a ") == ["", " ", "a", " ", ""]
  {
    var t: seq<string> := ["", " ", "a", " ", ""];
    assert NoSpace(t[0]) && NoSpace(t[2]) && NoSpace(t[4]);
    assert IsSpaceRun(t[1]) && IsSpaceRun(t[3]);
    assert WellFormed(t);
    assert Concat(t) == "" + (" " + ("a" + (" " + ("" + Concat([])))));
    SplitUnique(" a ", t);
  }

  /** Decimal digit character of `d`. */
  function Digit(d: nat): char
    requires d < 10
  {
    ('0' as int + d) as char
  }

  /** `${n}` for a non-negative integer: its decimal numeral. */
  function NatToString(n: nat): (r: string)
    ensures |r| >= 1
    ensures n >= 10 ==> |r| >= 2
  {
    if n < 10 then [Digit(n)] else NatToString(n / 10) + [Digit(n % 10)]
  }

  lemma {:induction false} NatToStringInjective(m: nat, n: nat)
    requires NatToString(m) == NatToString(n)
    ensures m == n
  {
    var a, b := NatToString(m), NatToString(n);
    if m >= 10 && n >= 10 {
      assert a[|a| - 1] == Digit(m % 10) && b[|b| - 1] == Digit(n % 10);
      assert a[..|a| - 1] == NatToString(m / 10);
      assert b[..|b| - 1] == NatToString(n / 10);
      NatToStringInjective(m / 10, n / 10);
    }
  }

  /** The id the tokenizer gives the token at position `k`: `w-<k>`. */
  function Id(k: nat): (r: string)
    ensures |r| >= 3 && r[..2] == "w-"
  {
    "w-" + NatToString(k)
  }

  lemma {:induction false} IdInjective(i: nat, j: nat)
    requires Id(i) == Id(j)
    ensures i == j
  {
    assert Id(i)[2..] == NatToString(i);
    assert Id(j)[2..] == NatToString(j);
    NatToStringInjective(i, j);
  }

  /** One token of a paragraph together with its id. */
  datatype WordSpan = WordSpan(id: string, word: string)

  /** The tokens of `text` paired with their positional ids. */
  function WordSpans(text: string): (ws: seq<WordSpan>)
  {
    var t := Split(text);
    seq(|t|, k requires 0 <= k < |t| => WordSpan(Id(k), t[k]))
  }

  function WordsOf(ws: seq<WordSpan>): seq<string> {
    seq(|ws|, k requires 0 <= k < |ws| => ws[k].word)
  }

  /** `splitIntoWordSpans`: split the text, then map each token to a span,
      taking its id from a counter that the mapping increments. */
  method SplitIntoWordSpans(text: string) returns (spans: seq<WordSpan>)
    ensures spans == WordSpans(text)
  {
    var tokens := Split(text);
    var i := 0;
    spans := [];
    for p := 0 to |tokens|
      invariant i == p == |spans|
      invariant forall k :: 0 <= k < p ==> spans[k] == WordSpan(Id(k), tokens[k])
    {
      spans := spans + [WordSpan(Id(i), tokens[p])];
      i := i + 1;
    }
  }

  /** Joining the words of the spans, in order, gives back the text, and ids
      are distinct even where a word repeats. */
  lemma {:induction false} SpansRoundTrip(text: string)
    ensures Concat(WordsOf(WordSpans(text))) == text
    ensures forall i, j :: 0 <= i < j < |WordSpans(text)| ==>
              WordSpans(text)[i].id != WordSpans(text)[j].id
  {
    var ws := WordSpans(text);
    assert WordsOf(ws) == Split(text);
    SplitRoundTrip(text);
    forall i, j | 0 <= i < j < |ws|
      ensures ws[i].id != ws[j].id
    {
      if ws[i].id == ws[j].id { IdInjective(i, j); }
    }
  }

  /** The class `Paragraph` gives a token (`None` is `undefined`): none for a whitespace run
      (`/^\s+$/` matches), `"word"` for everything else. */
  function SpanClass(word: string): (cls: Option<string>)
  {
    if IsSpaceRun(word) then None else Some("word")
  }

  /** One rendered `<span>`: React key, class name and text. */
  datatype Span = Span(key: string, className: Option<string>, text: string)

  /** The spans `Paragraph` renders for `text`. */
  function Paragraph(text: string): (spans: seq<Span>)
  {
    var ws := WordSpans(text);
    seq(|ws|, k requires 0 <= k < |ws| => Span(ws[k].id, SpanClass(ws[k].word), ws[k].word))
  }

  /** In a rendered paragraph the spans at odd positions (the whitespace
      runs) carry no class and every span at an even position carries
      `"word"`, the empty leading or trailing token included. */
  lemma {:induction false} ParagraphClasses(text: string)
    ensures |Paragraph(text)| % 2 == 1
    ensures forall k :: 0 <= k < |Paragraph(text)| ==>
              (Paragraph(text)[k].className == None <==> k % 2 == 1)
    ensures forall k :: 0 <= k < |Paragraph(text)| && k % 2 == 0 ==>
              Paragraph(text)[k].className == Some("word")
  {
    var t := Split(text);
    SplitWellFormed(text);
    forall k | 0 <= k < |t| && k % 2 == 0
      ensures !IsSpaceRun(t[k])
    {
      assert NoSpace(t[k]);
      if |t[k]| > 0 { assert !IsSpace(t[k][0]); }
    }
  }

  function TextsOf(ps: seq<Span>): seq<string> {
    seq(|ps|, k requires 0 <= k < |ps| => ps[k].text)
  }

  /** The paragraph renders the text unchanged, under distinct keys. */
  lemma {:induction false} ParagraphText(text: string)
    ensures Concat(TextsOf(Paragraph(text))) == text
    ensures forall i, j :: 0 <= i < j < |Paragraph(text)| ==> Paragraph(text)[i].key != Paragraph(text)[j].key
  {
    SpansRoundTrip(text);
    assert TextsOf(Paragraph(text)) == WordsOf(WordSpans(text));
  }
}
