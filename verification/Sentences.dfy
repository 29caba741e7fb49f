/** How the storage server cuts a file into sentences, and what replacing one does to the others. */
module Sentences {
  import opened Text

  /** Where a sentence lies: `end` is None when no delimiter follows (a NULL end pointer). */
  datatype Place = Missing | Place(start: int, end: Option<int>) {
    function Shift(d: int): Place {
      match this
      case Missing => Missing
      case Place(a, None) => Place(a + d, None)
      case Place(a, Some(e)) => Place(a + d, Some(e + d))
    }
  }

  // ---- The first sentence of a text, the gap after it, and the rest ----

  predicate Ended(s: string) { CSpan(s, DELIMS) < |s| }

  function BodyLen(s: string): (n: nat)
    ensures n <= |s| && (s != [] ==> n > 0)
  {
    var d := CSpan(s, DELIMS);
    if d < |s| then d + 1 else |s|
  }

  function Body(s: string): string { s[..BodyLen(s)] }

  function Tail(s: string): string { s[BodyLen(s)..] }

  /** Where the cursor stands after the first delimiter and the blanks behind it. */
  function RestStart(s: string): (n: nat)
    ensures BodyLen(s) <= n <= |s|
  {
    SpanFrom(s, BLANKS, BodyLen(s))
  }

  function Rest(s: string): (r: string)
    ensures |r| <= |s| && (Ended(s) ==> |r| < |s|)
  {
    s[RestStart(s)..]
  }

  /** The first sentence with the blanks that separate it from the next. */
  function Head(s: string): (r: string)
    ensures |r| == RestStart(s) && |r| + |Rest(s)| == |s|
  {
    s[..RestStart(s)]
  }

  lemma HeadRest(s: string)
    ensures Head(s) + Rest(s) == s
    ensures Head(s) == s[..RestStart(s)] && Rest(s) == s[RestStart(s)..]
  {
    hide RestStart;
  }

  /** Where get_nth_sentence finds sentence n. Any n <= 0 means the first one. */
  function Locate(s: string, n: int): (p: Place)
    ensures p.Place? ==> 0 <= p.start <= |s|
    ensures p.Place? && p.end.Some? ==> p.start < p.end.value <= |s|
    decreases if n < 0 then 0 else n
  {
    if n <= 0 then Place(0, if Ended(s) then Some(BodyLen(s)) else None)
    else if !Ended(s) then Missing
    else Locate(Rest(s), n - 1).Shift(|Head(s)|)
  }

  /** Where the text of a sentence ends: at its delimiter, or with the file. */
  function EndOf(s: string, p: Place): int {
    if p.Place? && p.end.Some? then p.end.value else |s|
  }

  /** The text of sentence n, empty when there is none. */
  function Sentence(s: string, n: int): string {
    var p := Locate(s, n);
    if p.Place? then s[p.start..EndOf(s, p)] else []
  }

  /** The text with sentence n replaced by t; unchanged when there is none. */
  function Splice(s: string, n: int, t: string): string {
    var p := Locate(s, n);
    if p.Place? then s[..p.start] + t + s[EndOf(s, p)..] else s
  }

  lemma RestStartIs(content: string, start: nat, n: nat)
    requires start <= |content| && BodyLen(content[start..]) <= n <= |content| - start
    requires forall i :: start + BodyLen(content[start..]) <= i < start + n ==> content[i] in BLANKS
    requires start + n < |content| ==> content[start + n] !in BLANKS
    ensures RestStart(content[start..]) == n && Rest(content[start..]) == content[start + n..]
  {
  }

  /** The loop that walks over the blanks after a delimiter. */
  method SkipBlanks(content: string, from: nat) returns (start: nat)
    requires from <= |content|
    ensures from <= start <= |content|
    ensures forall i :: from <= i < start ==> content[i] in BLANKS
    ensures start < |content| ==> content[start] !in BLANKS
  {
    start := from;
    while start < |content| &&
      (content[start] == ' ' || content[start] == '\n' || content[start] == '\t' || content[start] == '\r')
      invariant from <= start <= |content|
      invariant forall i :: from <= i < start ==> content[i] in BLANKS
    {
      start := start + 1;
    }
  }

  lemma NoSentence(s: string, n: int)
    requires n > 0 && !Ended(s)
    ensures Locate(s, n) == Missing
  {
  }

  lemma FirstSentence(s: string, n: int)
    requires n <= 0
    ensures Locate(s, n) == Place(0, if Ended(s) then Some(BodyLen(s)) else None)
  {
  }

  lemma LocateStep(s: string, n: int, d: int)
    requires n > 0 && Ended(s)
    ensures Locate(s, n).Shift(d) == Locate(Rest(s), n - 1).Shift(d + RestStart(s))
  {
    hide Rest, RestStart;
  }

  /** get_nth_sentence: a pointer advanced past delimiters and blanks. */
  method GetNthSentence(content: string, n: int) returns (place: Place)
    ensures place == Locate(content, n)
  {
    hide Rest, RestStart, Locate;
    var start, i := 0, 0;
    assert content[start..] == content;
    while i < n
      invariant 0 <= i && (i <= n || i == 0) && 0 <= start <= |content|
      invariant Locate(content, n) == Locate(content[start..], n - i).Shift(start)
    {
      ghost var s := content[start..];
      var d := CSpan(content[start..], DELIMS);
      if start + d == |content| { NoSentence(s, n - i); return Missing; }
      LocateStep(s, n - i, start);
      var next := SkipBlanks(content, start + d + 1);
      RestStartIs(content, start, next - start);
      start := next;
      i := i + 1;
    }
    var d := CSpan(content[start..], DELIMS);
    FirstSentence(content[start..], n - i);
    place := Place(start, if start + d < |content| then Some(start + d + 1) else None);
  }

  // ---- Counting: sentence n exists exactly when n delimiters do ----

  ghost function Count(s: string): nat {
    multiset(s)['.'] + multiset(s)['?'] + multiset(s)['!']
  }

  lemma CountAppend(a: string, b: string)
    ensures Count(a + b) == Count(a) + Count(b)
  {
    assert multiset(a + b) == multiset(a) + multiset(b);
  }

  lemma CountNone(s: string)
    ensures Count(s) == 0 <==> NoneIn(s, DELIMS)
  {
    assert forall c :: c in s <==> c in multiset(s);
  }

  lemma NotEnded(s: string)
    ensures Ended(s) <==> !NoneIn(s, DELIMS)
    ensures !Ended(s) ==> Body(s) == s && Tail(s) == [] && Count(s) == 0
    ensures !Ended(s) ==> Rest(s) == []
  {
    CountNone(s);
    if Ended(s) { assert s[CSpan(s, DELIMS)] in s; }
  }

  /** A first sentence holds one delimiter, its last character, and only blanks follow up to the rest. */
  lemma HeadShape(s: string)
    requires Ended(s)
    ensures Head(s) == Body(s) + Head(s)[BodyLen(s)..] && AllIn(Head(s)[BodyLen(s)..], BLANKS)
    ensures Body(s) != [] && Body(s)[|Body(s)| - 1] in DELIMS && NoneIn(Body(s)[..|Body(s)| - 1], DELIMS)
    ensures Count(Body(s)) == 1 && Count(Head(s)) == 1
  {
    hide Count, RestStart, Rest, CSpan;
    var b, h := Body(s), Head(s);
    var gap := h[|b|..];
    var k := |b| - 1;
    GapBlank(s);
    assert h == b + gap;
    assert forall i :: 0 <= i < k ==> s[i] !in DELIMS;
    CountNone(b[..k]);
    CountNone(gap);
    assert b == b[..k] + [b[k]];
    CountAppend(b[..k], [b[k]]);
    CountOne(b[k]);
    CountAppend(b, gap);
  }

  lemma GapBlank(s: string)
    requires Ended(s)
    ensures |Head(s)| >= |Body(s)| && Head(s)[..|Body(s)|] == Body(s) && AllIn(Head(s)[|Body(s)|..], BLANKS)
  {
    assert Head(s)[|Body(s)|..] == s[BodyLen(s)..RestStart(s)];
  }

  lemma CountOne(c: char)
    requires c in DELIMS
    ensures Count([c]) == 1
  {
    assert multiset([c]) == multiset{c};
  }

  lemma CountRest(s: string)
    requires Ended(s)
    ensures Count(s) == 1 + Count(Rest(s))
  {
    HeadShape(s);
    HeadRest(s);
    CountAppend(Head(s), Rest(s));
  }

  /** Sentence n exists exactly when the text holds at least n delimiters. */
  lemma {:induction false} SentenceExists(s: string, n: int)
    ensures Locate(s, n).Place? <==> n <= Count(s)
    decreases if n < 0 then 0 else n
  {
    hide Rest, Head, Count;
    if n <= 0 {
    } else if !Ended(s) {
      NotEnded(s);
    } else {
      SentenceExists(Rest(s), n - 1);
      CountRest(s);
    }
  }
}
