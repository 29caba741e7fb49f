/** What replacing one sentence does to the place and the text of every other. */
module Locality {
  import opened Text
  import opened Sentences

  /** The text ends a sentence: only blanks follow its last delimiter. */
  ghost predicate Closed(t: string) {
    exists i :: 0 <= i < |t| && t[i] in DELIMS && AllIn(t[i + 1..], BLANKS)
  }

  predicate Clean(x: string) { x == [] || x[0] !in BLANKS }

  lemma RestIs(s: string, d: nat, n: nat)
    requires d < n <= |s| && s[d] in DELIMS && (forall i :: 0 <= i < d ==> s[i] !in DELIMS)
    requires (forall i :: d < i < n ==> s[i] in BLANKS) && (n < |s| ==> s[n] !in BLANKS)
    ensures Ended(s) && BodyLen(s) == d + 1 && RestStart(s) == n
    ensures Body(s) == s[..d + 1] && Tail(s) == s[d + 1..] && Head(s) == s[..n] && Rest(s) == s[n..]
  {
    CSpanIs(s, DELIMS, d);
  }

  /** The delimiter that ends the first sentence, and where the rest starts. */
  lemma EndedAt(s: string) returns (d: nat, n: nat)
    requires Ended(s)
    ensures d < n <= |s| && d + 1 == BodyLen(s) && n == RestStart(s)
    ensures s[d] in DELIMS && (forall i :: 0 <= i < d ==> s[i] !in DELIMS)
    ensures (forall i :: d < i < n ==> s[i] in BLANKS) && (n < |s| ==> s[n] !in BLANKS)
    ensures Body(s) == s[..d + 1] && Head(s) == s[..n] && Rest(s) == s[n..]
  {
    d, n := CSpan(s, DELIMS), RestStart(s);
  }

  lemma RestClean(s: string)
    ensures Clean(Rest(s))
  {
  }

  /** Changing what follows a sentence and its gap leaves both as they are. */
  lemma HeadAgain(s: string, x: string)
    requires Ended(s)
    ensures Ended(Head(s) + x) && Body(Head(s) + x) == Body(s) && BodyLen(Head(s) + x) == BodyLen(s)
    ensures Rest(Head(s) + x) == Strip(x, BLANKS)
    ensures Clean(x) ==> Head(Head(s) + x) == Head(s) && Rest(Head(s) + x) == x
  {
    hide Ended, Body, BodyLen, Head, Rest, RestStart, Strip, Span, Clean;
    var d, n := EndedAt(s);
    var g := StripSpan(x);
    FrontCut(s, n, x, d, g);
    var y := s[..n] + x;
    assert y == Head(s) + x;
    RestIs(y, d, n + g);
  }

  lemma StripSpan(x: string) returns (g: nat)
    ensures g <= |x| && x[g..] == Strip(x, BLANKS)
    ensures (forall i :: 0 <= i < g ==> x[i] in BLANKS) && (g < |x| ==> x[g] !in BLANKS)
    ensures Clean(x) ==> g == 0 && Strip(x, BLANKS) == x
  {
    g := Span(x, BLANKS);
  }

  lemma FrontCut(s: string, n: nat, x: string, d: nat, g: nat)
    requires d < n <= |s| && g <= |x|
    requires s[d] in DELIMS && (forall i :: 0 <= i < d ==> s[i] !in DELIMS) &&
      (forall i :: d < i < n ==> s[i] in BLANKS)
    requires (forall i :: 0 <= i < g ==> x[i] in BLANKS) && (g < |x| ==> x[g] !in BLANKS)
    ensures var y := s[..n] + x;
      && y[d] in DELIMS && (forall i :: 0 <= i < d ==> y[i] !in DELIMS)
      && (forall i :: d < i < n + g ==> y[i] in BLANKS) && (n + g < |y| ==> y[n + g] !in BLANKS)
      && y[..d + 1] == s[..d + 1] && y[..n] == s[..n] && y[n..] == x && y[n + g..] == x[g..]
  {
  }

  lemma HeadAgainPlace(s: string, x: string, j: int)
    requires Ended(s) && j > 0
    ensures Clean(x) ==> Locate(Head(s) + x, j) == Locate(x, j - 1).Shift(|Head(s)|)
    ensures Locate(Head(s) + x, j) == Locate(Strip(x, BLANKS), j - 1).Shift(|Head(s)| + |x| - |Strip(x, BLANKS)|)
  {
    hide Locate, Ended, Body, BodyLen, Head, Rest, RestStart, Strip, Clean;
    var y := Head(s) + x;
    HeadAgain(s, x);
    StepPlace(y, j);
    assert |Head(y)| + |Rest(y)| == |y|;
  }

  lemma ShiftZero(p: Place)
    ensures p.Shift(0) == p
    ensures forall d, e :: p.Shift(d).Shift(e) == p.Shift(d + e)
  {
  }

  lemma FirstSplice(s: string, n: int, t: string)
    requires n <= 0
    ensures Splice(s, n, t) == t + Tail(s) && Sentence(s, n) == Body(s)
  {
    hide CSpan;
    assert EndOf(s, Locate(s, n)) == BodyLen(s);
    assert s[0..BodyLen(s)] == s[..BodyLen(s)] == Body(s);
    assert s[..0] + t == t;
  }

  /** A sentence found in a suffix of the text is the same sentence, replaced the same way. */
  lemma SuffixSplice(s: string, h: nat, r: string, n: int, m: int, t: string)
    requires h <= |s| && r == s[h..] && Locate(r, m).Place? && Locate(s, n) == Locate(r, m).Shift(h)
    ensures Sentence(s, n) == Sentence(r, m) && Splice(s, n, t) == s[..h] + Splice(r, m, t)
    ensures s[EndOf(s, Locate(s, n))..] == r[EndOf(r, Locate(r, m))..]
  {
    hide Locate, EndOf, Sentence, Splice;
    var p := Locate(r, m);
    var a, e := p.start, EndOf(r, p);
    EndShift(s, h, r, p);
    CutAt(s, n, t, h + a, h + e);
    CutAt(r, m, t, a, e);
    SliceFacts(s, h, r, a, e);
    SpliceParts(s[..h], r[..a], t, r[e..]);
  }

  lemma CutAt(s: string, n: int, t: string, a: nat, e: nat)
    requires Locate(s, n).Place? && a == Locate(s, n).start && e == EndOf(s, Locate(s, n)) && a <= e <= |s|
    ensures Sentence(s, n) == s[a..e] && Splice(s, n, t) == s[..a] + t + s[e..]
  {
    hide Locate, EndOf;
  }

  lemma EndShift(s: string, h: nat, r: string, p: Place)
    requires h <= |s| && r == s[h..] && p.Place? && 0 <= p.start <= |r|
    requires p.end.Some? ==> p.start < p.end.value <= |r|
    ensures EndOf(s, p.Shift(h)) == h + EndOf(r, p) && p.start <= EndOf(r, p) <= |r|
  {
  }

  lemma SpliceParts(h: string, a: string, t: string, e: string)
    ensures (h + a) + t + e == h + (a + t + e)
  {
  }

  /** Sentence and Splice over the first sentence and the rest. */
  lemma LaterSplice(s: string, n: int, t: string)
    requires n > 0 && Locate(s, n).Place?
    ensures Ended(s) && Locate(Rest(s), n - 1).Place?
    ensures Splice(s, n, t) == Head(s) + Splice(Rest(s), n - 1, t)
    ensures Sentence(s, n) == Sentence(Rest(s), n - 1)
    ensures s[EndOf(s, Locate(s, n))..] == Rest(s)[EndOf(Rest(s), Locate(Rest(s), n - 1))..]
  {
    hide Locate, Sentence, Splice, Head, Rest, RestStart, Ended, EndOf;
    if !Ended(s) { NoSentence(s, n); }
    StepPlace(s, n);
    HeadRest(s);
    SuffixSplice(s, RestStart(s), Rest(s), n, n - 1, t);
  }

  lemma SliceFacts(s: string, h: nat, r: string, a: nat, e: nat)
    requires h <= |s| && a <= e <= |r| && r == s[h..]
    ensures s[..h + a] == s[..h] + r[..a] && s[h + a..h + e] == r[a..e] && s[h + e..] == r[e..]
  {
  }

  /** A replaced sentence leaves every earlier one where it was. */
  lemma {:induction false} EarlierSentences(s: string, n: int, t: string, m: int)
    requires Locate(s, n).Place? && m < n && 0 < n
    ensures Locate(s, m).Place? && Locate(Splice(s, n, t), m) == Locate(s, m)
    ensures Sentence(Splice(s, n, t), m) == Sentence(s, m)
    decreases n
  {
    hide Locate, Sentence, Splice, Head, Rest, RestStart, Body, BodyLen, Ended, Clean;
    LaterSplice(s, n, t);
    var x := Splice(Rest(s), n - 1, t);
    var y := Head(s) + x;
    if m <= 0 {
      HeadAgain(s, x);
      FirstSentence(s, m);
      FirstSentence(y, m);
      FirstSplice(s, m, []);
      FirstSplice(y, m, []);
      assert |Body(s)| == BodyLen(s) && |Body(y)| == BodyLen(y) by { BodyLength(s); BodyLength(y); }
    } else {
      EarlierSentences(Rest(s), n - 1, t, m - 1);
      assert Locate(y, m) == Locate(x, m - 1).Shift(|Head(s)|) by {
        LaterSplice(Rest(s), n - 1, t);
        RestClean(s);
        StartsAsHead(Rest(s), Splice(Rest(Rest(s)), n - 2, t));
        HeadAgainPlace(s, x, m);
      }
      assert Rest(y) == x by {
        LaterSplice(Rest(s), n - 1, t);
        RestClean(s);
        StartsAsHead(Rest(s), Splice(Rest(Rest(s)), n - 2, t));
        HeadAgain(s, x);
      }
      StepPlace(s, m);
      assert Sentence(s, m) == Sentence(Rest(s), m - 1) by { LaterSplice(s, m, []); }
      assert Sentence(y, m) == Sentence(Rest(y), m - 1) by { LaterSplice(y, m, []); }
    }
  }

  lemma StepPlace(s: string, n: int)
    requires n > 0 && Ended(s)
    ensures Locate(s, n) == Locate(Rest(s), n - 1).Shift(|Head(s)|)
  {
    hide Locate, Sentence, Splice, Head, Rest, RestStart, Body, BodyLen, Ended, Clean;
    LocateStep(s, n, 0);
    ShiftZero(Locate(s, n));
    assert |Head(s)| == RestStart(s);
  }

  lemma BodyLength(s: string)
    ensures |Body(s)| == BodyLen(s)
  {
    hide BodyLen;
  }

  lemma StartsAsHead(s: string, x: string)
    requires Ended(s) && Clean(s)
    ensures Clean(Head(s) + x)
  {
    assert (Head(s) + x)[0] == s[0];
  }

  /** A sentence ends with its only delimiter, or runs without one to the end of the text. */
  lemma {:induction false} SentenceShape(s: string, n: int)
    requires Locate(s, n).Place?
    ensures var b, p := Sentence(s, n), Locate(s, n);
      if p.end.Some? then b != [] && b[|b| - 1] in {'.', '?', '!'} && NoneIn(b[..|b| - 1], {'.', '?', '!'})
      else NoneIn(b, {'.', '?', '!'}) && b == s[p.start..]
    decreases if n < 0 then 0 else n
  {
    hide Locate, Sentence, Splice, Rest, RestStart, Head, Body, BodyLen, Tail, Ended, NoneIn, Count;
    if n <= 0 {
      FirstSplice(s, n, []);
      FirstSentence(s, n);
      if Ended(s) { HeadShape(s); } else { NotEnded(s); }
      assert s[0..] == s;
    } else {
      LaterSplice(s, n, []);
      StepPlace(s, n);
      SentenceShape(Rest(s), n - 1);
      HeadRest(s);
      var k := Locate(Rest(s), n - 1).start;
      assert s[|Head(s)| + k..] == Rest(s)[k..];
    }
  }

  /** Between consecutive sentences lie only blanks, and the later one starts with none. */
  lemma {:induction false} GapShape(s: string, n: int)
    requires Locate(s, n).Place? && n > 0
    ensures Locate(s, n - 1).Place? && Locate(s, n - 1).end.Some?
    ensures var e, a := Locate(s, n - 1).end.value, Locate(s, n).start;
      e <= a && AllIn(s[e..a], {' ', '\n', '\t', '\r'}) && (s[a..] == [] || s[a..][0] !in {' ', '\n', '\t', '\r'})
    decreases n
  {
    hide Locate, Sentence, Splice, Head, Rest, RestStart, Body, BodyLen, Ended;
    if !Ended(s) { NoSentence(s, n); }
    var r, h := Rest(s), |Head(s)|;
    assert h == RestStart(s) && h <= |s| && r == s[h..] by { HeadRest(s); }
    StepPlace(s, n);
    if n == 1 {
      FirstSentence(s, 0);
      FirstSentence(r, 0);
      FirstGap(s);
    } else {
      GapShape(r, n - 1);
      StepPlace(s, n - 1);
      GapShift(s, h, r, Locate(r, n - 2).end.value, Locate(r, n - 1).start);
    }
  }

  lemma FirstGap(s: string)
    requires Ended(s)
    ensures BodyLen(s) <= RestStart(s) && AllIn(s[BodyLen(s)..RestStart(s)], BLANKS) && Clean(s[RestStart(s)..])
  {
    hide CSpan;
  }

  lemma GapShift(s: string, h: nat, r: string, e: nat, a: nat)
    requires h <= |s| && r == s[h..] && e <= a <= |r| && AllIn(r[e..a], BLANKS) && Clean(r[a..])
    ensures AllIn(s[h + e..h + a], BLANKS) && Clean(s[h + a..])
  {
    SliceFacts(s, h, r, e, a);
    assert s[h + a..] == r[a..];
  }

  // ---- Later sentences ----

  lemma NoDelimPrefix(t: string, y: string)
    requires NoneIn(t, DELIMS)
    ensures Ended(t + y) <==> Ended(y)
    ensures Ended(y) ==> Rest(t + y) == Rest(y)
  {
    hide Rest, RestStart, BodyLen;
    assert forall i :: 0 <= i < |t| ==> t[i] in t;
    if Ended(y) {
      hide Ended, NoneIn;
      var d, n := EndedAt(y);
      FrontMoves(t, y, d, n);
      RestIs(t + y, |t| + d, |t| + n);
    } else {
      CSpanIs(t + y, DELIMS, |t + y|);
    }
  }

  lemma FrontMoves(t: string, y: string, d: nat, n: nat)
    requires (forall i :: 0 <= i < |t| ==> t[i] !in DELIMS) && d < n <= |y|
    requires y[d] in DELIMS && (forall i :: 0 <= i < d ==> y[i] !in DELIMS)
    requires (forall i :: d < i < n ==> y[i] in BLANKS) && (n < |y| ==> y[n] !in BLANKS)
    ensures var x, k := t + y, |t|;
      && x[k + d] in DELIMS && (forall i :: 0 <= i < k + d ==> x[i] !in DELIMS)
      && (forall i :: k + d < i < k + n ==> x[i] in BLANKS) && (k + n < |x| ==> x[k + n] !in BLANKS)
      && x[k + n..] == y[n..]
  {
  }

  lemma NoDelimPrefixPlace(t: string, y: string, j: int)
    requires NoneIn(t, DELIMS) && j > 0
    ensures Locate(t + y, j) == Locate(y, j).Shift(|t|)
  {
    hide Locate, Head, Rest, RestStart, BodyLen, Ended;
    NoDelimPrefix(t, y);
    if Ended(y) {
      StepPlace(y, j);
      StepPlace(t + y, j);
    } else {
      NoSentence(y, j);
      NoSentence(t + y, j);
    }
  }

  /** Blanks in front of a text move its later sentences and change nothing else. */
  lemma LeadingBlanks(x: string, j: int)
    requires j > 0
    ensures Locate(x, j) == Locate(Strip(x, BLANKS), j).Shift(|x| - |Strip(x, BLANKS)|)
  {
    var b, y := x[..Span(x, BLANKS)], Strip(x, BLANKS);
    assert x == b + y;
    assert NoneIn(b, DELIMS);
    hide Locate, Strip, Span;
    NoDelimPrefixPlace(b, y, j);
  }

  lemma PlaceAfterHead(s: string, x: string, j: int)
    requires Ended(s) && j > 1
    ensures Locate(Head(s) + x, j) == Locate(x, j - 1).Shift(|Head(s)|)
  {
    hide Locate, Head, Ended, Strip;
    HeadAgainPlace(s, x, j);
    LeadingBlanks(x, j - 1);
  }

  lemma ClosedSuffix(t: string, d: nat, n: nat)
    requires d < n <= |t| && t[d] in DELIMS && (forall i :: 0 <= i < d ==> t[i] !in DELIMS)
    requires (forall i :: d < i < n ==> t[i] in BLANKS) && (n < |t| ==> t[n] !in BLANKS)
    ensures Closed(t) <==> n == |t| || Closed(t[n..])
  {
    var r := t[n..];
    if n == |t| {
      assert AllIn(t[d + 1..], BLANKS);
    } else {
      if Closed(t) {
        var i :| 0 <= i < |t| && t[i] in DELIMS && AllIn(t[i + 1..], BLANKS);
        assert i >= n;
        assert r[i - n + 1..] == t[i + 1..] && r[i - n] == t[i];
      }
      if Closed(r) {
        var i :| 0 <= i < |r| && r[i] in DELIMS && AllIn(r[i + 1..], BLANKS);
        assert r[i + 1..] == t[n + i + 1..] && t[n + i] == r[i];
      }
    }
  }

  lemma ClosedRest(t: string)
    requires Ended(t)
    ensures Closed(t) <==> Rest(t) == [] || Closed(Rest(t))
  {
    hide Closed, Ended, RestStart;
    var d, n := EndedAt(t);
    ClosedSuffix(t, d, n);
  }

  lemma ClosedCounts(t: string)
    requires Closed(t)
    ensures Ended(t)
  {
    if !Ended(t) { NotEnded(t); }
  }

  /** Past a text with k delimiters, sentence k + j is sentence j of what follows. */
  lemma {:induction false} SkipText(t: string, y: string, j: int)
    requires j > 0 || (j == 0 && Closed(t))
    ensures Locate(t + y, Count(t) + j) == Locate(Strip(y, BLANKS), j).Shift(|t| + |y| - |Strip(y, BLANKS)|)
    decreases |t|
  {
    hide Locate, Head, Rest, RestStart, Ended, Strip, Count, Clean, Closed;
    if !Ended(t) {
      NotEnded(t);
      if Closed(t) { ClosedCounts(t); }
      NoDelimPrefixPlace(t, y, j);
      LeadingBlanks(y, j);
    } else {
      CountRest(t);
      HeadRest(t);
      var r := Rest(t);
      if r == [] {
        assert Count(r) == 0 by { CountNone(r); }
        assert Head(t) == t;
        HeadAgainPlace(t, y, 1 + j);
      } else {
        ClosedRest(t);
        SkipText(r, y, j);
        assert t + y == Head(t) + (r + y);
        assert Clean(r + y) by { RestClean(t); CleanAppend(r, y); }
        HeadAgainPlace(t, r + y, Count(t) + j);
      }
    }
  }

  lemma CleanAppend(r: string, y: string)
    requires r != [] && Clean(r)
    ensures Clean(r + y)
  {
    assert (r + y)[0] == r[0];
  }

  /** Where the sentences after a replaced one go: k delimiters in the new text move their numbers by k - 1. */
  lemma {:induction false} LaterPlaces(s: string, n: int, t: string, m: int)
    requires 0 <= n < m && Locate(s, m).Place? && Locate(s, n).Place?
    requires m > n + 1 || Closed(t)
    ensures Locate(Splice(s, n, t), m - 1 + Count(t)) == Locate(s, m).Shift(|t| - |Sentence(s, n)|)
    decreases n
  {
    hide Locate, Sentence, Splice, Head, Rest, RestStart, Ended, Strip, Count, Clean, Closed, Body, BodyLen;
    if !Ended(s) { NoSentence(s, m); }
    StepPlace(s, m);
    if n == 0 {
      FirstSplice(s, n, t);
      SkipText(t, Tail(s), m - 1);
      assert Strip(Tail(s), BLANKS) == Rest(s) by { StripTail(s); }
      BodyLength(s);
      ShiftCompose(Locate(Rest(s), m - 1), |Head(s)|, |t| - |Body(s)|);
    } else {
      LaterSplice(s, n, t);
      LaterPlaces(Rest(s), n - 1, t, m - 1);
      assert Count(t) >= 1 || m > n + 1 by { if Closed(t) { ClosedCounts(t); CountRest(t); } }
      PlaceAfterHead(s, Splice(Rest(s), n - 1, t), m - 1 + Count(t));
      ShiftCompose(Locate(Rest(s), m - 1), |Head(s)|, |t| - |Sentence(s, n)|);
    }
  }

  lemma ShiftCompose(p: Place, d: int, e: int)
    ensures p.Shift(d).Shift(e) == p.Shift(d + e) == p.Shift(e).Shift(d)
  {
  }

  lemma StripTail(s: string)
    ensures Ended(s) ==> Strip(Tail(s), BLANKS) == Rest(s)
  {
    if Ended(s) {
      var g := RestStart(s) - BodyLen(s);
      assert forall i :: 0 <= i < |Tail(s)| ==> Tail(s)[i] == s[BodyLen(s) + i];
      SpanIs(Tail(s), BLANKS, g);
      assert Tail(s)[g..] == s[RestStart(s)..];
    }
  }

  lemma {:induction false} PlacesOrdered(s: string, n: int, m: int)
    requires 0 <= n < m && Locate(s, m).Place?
    ensures Locate(s, n).Place? && Locate(s, n).end.Some? && Locate(s, n).end.value <= Locate(s, m).start
    decreases n
  {
    hide Locate, Head, Rest, RestStart, Ended, BodyLen;
    if !Ended(s) { NoSentence(s, m); }
    StepPlace(s, m);
    assert |Head(s)| == RestStart(s) >= BodyLen(s);
    if n == 0 {
      FirstSentence(s, n);
    } else {
      PlacesOrdered(Rest(s), n - 1, m - 1);
      StepPlace(s, n);
    }
  }

  /** Where an open text ends, the sentence in progress already started inside it. */
  lemma {:induction false} OpenPlace(t: string, y: string)
    requires !Closed(t) && !AllIn(t, BLANKS)
    ensures Locate(t + y, Count(t)).Place? && Locate(t + y, Count(t)).start < |t|
    ensures Count(t) == 0 ==> Span(t + y, BLANKS) < |t| && Strip(t + y, BLANKS) == Strip(t, BLANKS) + y
    decreases |t|
  {
    hide Locate, Head, Rest, RestStart, Ended, Strip, Count, Closed, Clean, Span;
    if !Ended(t) {
      NotEnded(t);
      FirstSentence(t + y, 0);
      StripText(t, y);
    } else {
      ClosedRest(t);
      CountRest(t);
      HeadRest(t);
      var r := Rest(t);
      RestClean(t);
      assert !AllIn(r, BLANKS) by { CleanHasText(r); }
      OpenPlace(r, y);
      assert t + y == Head(t) + (r + y);
      CleanAppend(r, y);
      HeadAgainPlace(t, r + y, Count(t));
    }
  }

  lemma StripText(t: string, y: string)
    requires !AllIn(t, BLANKS)
    ensures |t| > 0 && Span(t + y, BLANKS) < |t| && Strip(t + y, BLANKS) == Strip(t, BLANKS) + y
  {
    StripAppend(t, y, BLANKS);
  }

  lemma CleanHasText(r: string)
    requires r != [] && Clean(r)
    ensures !AllIn(r, BLANKS)
  {
    assert r[0] in r;
  }

  lemma {:induction false} NextPlaceMoves(s: string, n: int, t: string)
    requires 0 <= n && Locate(s, n).Place? && Locate(s, n).end.Some?
    requires !Closed(t) && !AllIn(t, BLANKS)
    ensures Locate(Splice(s, n, t), n + Count(t)).Place?
    ensures Locate(Splice(s, n, t), n + Count(t)).start < Locate(s, n).start + |t|
    decreases n
  {
    hide Locate, Sentence, Splice, Head, Rest, RestStart, Ended, Strip, Count, Clean, Closed, Body, BodyLen, Span;
    if n == 0 {
      FirstSplice(s, n, t);
      FirstSentence(s, n);
      OpenPlace(t, Tail(s));
    } else {
      LaterSplice(s, n, t);
      StepPlace(s, n);
      NextPlaceMoves(Rest(s), n - 1, t);
      var x := Splice(Rest(s), n - 1, t);
      if n - 1 + Count(t) > 0 {
        PlaceAfterHead(s, x, n + Count(t));
      } else {
        FirstSplice(Rest(s), 0, t);
        FirstSentence(Rest(s), 0);
        OpenPlace(t, Tail(Rest(s)));
        HeadAgainPlace(s, x, 1);
        FirstSentence(Strip(x, BLANKS), 0);
        assert |x| - |Strip(x, BLANKS)| == Span(x, BLANKS) by { StripLength(x); }
      }
    }
  }

  lemma StripLength(x: string)
    ensures |x| - |Strip(x, BLANKS)| == Span(x, BLANKS)
  {
  }

  lemma BlankFacts(t: string, y: string)
    requires AllIn(t, BLANKS)
    ensures NoneIn(t, DELIMS) && Count(t) == 0 && !Closed(t)
    ensures Strip(t + y, BLANKS) == Strip(y, BLANKS)
  {
    hide Count;
    assert NoneIn(t, DELIMS);
    CountNone(t);
    if Closed(t) { ClosedCounts(t); NotEnded(t); }
    StripBlanks(t, y);
  }

  lemma StripBlanks(t: string, y: string)
    requires AllIn(t, BLANKS)
    ensures Strip(t + y, BLANKS) == Strip(y, BLANKS)
  {
    assert forall i :: 0 <= i < |t| ==> t[i] in t;
    SpanIs(t + y, BLANKS, |t| + Span(y, BLANKS));
    assert (t + y)[|t| + Span(y, BLANKS)..] == y[Span(y, BLANKS)..];
  }

  /** Blanks in place of a later sentence only widen the gap in front of the next one. */
  lemma {:induction false} BlankPlaces(s: string, n: int, t: string)
    requires 0 < n && Locate(s, n + 1).Place? && Locate(s, n).Place? && AllIn(t, BLANKS)
    ensures Locate(Splice(s, n, t), n) == Locate(s, n + 1).Shift(|t| - |Sentence(s, n)|)
    decreases n
  {
    hide Locate, Sentence, Splice, Head, Rest, RestStart, Ended, Strip, Count, Clean, Closed, Body, BodyLen, Tail,
      AllIn;
    if !Ended(s) { NoSentence(s, n + 1); }
    var r := Rest(s);
    StepPlace(s, n + 1);
    LaterSplice(s, n, t);
    var x := Splice(r, n - 1, t);
    if n == 1 {
      if !Ended(r) { NoSentence(r, 1); }
      StepPlace(r, 1);
      FirstSplice(r, 0, t);
      BlankFacts(t, Tail(r));
      assert Strip(x, BLANKS) == Rest(r) by { StripTail(r); }
      HeadAgainPlace(s, x, 1);
      TailLength(r);
      ShiftCompose(Locate(Rest(r), 0), |Head(r)|, |Head(s)|);
      ShiftCompose(Locate(Rest(r), 0), |Head(r)| + |Head(s)|, |t| - |Body(r)|);
    } else {
      BlankPlaces(r, n - 1, t);
      PlaceAfterHead(s, x, n);
      ShiftCompose(Locate(r, n), |Head(s)|, |t| - |Sentence(s, n)|);
    }
  }

  lemma TailLength(s: string)
    ensures |Body(s)| + |Tail(s)| == |s| == |Head(s)| + |Rest(s)|
  {
    hide BodyLen;
  }

  /** Blanks in place of the first sentence become part of the next one. */
  lemma BlankFirst(s: string, t: string)
    requires Locate(s, 1).Place? && AllIn(t, BLANKS)
    ensures Locate(s, 0).Place? && Locate(s, 0).end.Some?
    ensures Locate(Splice(s, 0, t), 0) == Locate(s, 1).Shift(|t| - |Sentence(s, 0)|)
            <==> t == [] && Locate(s, 0).end.value == Locate(s, 1).start
  {
    hide Locate, Sentence, Splice, Head, Rest, RestStart, Ended, Body, BodyLen, Tail, AllIn;
    if !Ended(s) { NoSentence(s, 1); }
    StepPlace(s, 1);
    FirstSentence(s, 0);
    FirstSentence(Rest(s), 0);
    FirstSplice(s, 0, t);
    var s' := t + Tail(s);
    FirstSentence(s', 0);
    BodyLength(s);
    HeadRest(s);
    if t == [] && |Head(s)| == BodyLen(s) {
      assert s' == Rest(s) by { SameCut(s); assert s' == Tail(s); }
      ShiftCompose(Locate(Rest(s), 0), |Head(s)|, -|Body(s)|);
      ShiftZero(Locate(Rest(s), 0));
    } else {
      assert |Head(s)| >= BodyLen(s) by { HeadLength(s); }
    }
  }

  lemma HeadLength(s: string)
    ensures |Head(s)| >= BodyLen(s)
  {
  }

  lemma SameCut(s: string)
    requires |Head(s)| == BodyLen(s)
    ensures Tail(s) == Rest(s)
  {
    hide BodyLen;
  }

  /** When sentence m keeps its text and moves with the change in length, after t replaced sentence n < m: always,
      except the very next one, which t must leave alone. It does so when it closes its sentence; when it is blank and
      an earlier delimiter stands in front; and when it is empty and there was no gap either. */
  ghost predicate Stays(s: string, n: int, t: string, m: int)
    requires Locate(s, n).Place? && Locate(s, m).Place?
  {
    || m > n + 1
    || Closed(t)
    || (AllIn(t, BLANKS) && n > 0)
    || (t == [] && Locate(s, n).end == Some(Locate(s, m).start))
  }

  /** A later sentence keeps its text and moves by the change in length, its number changed by Count(t) - 1,
      exactly when it stays. */
  lemma LaterSentences(s: string, n: int, t: string, m: int)
    requires 0 <= n < m && Locate(s, m).Place?
    ensures Locate(s, n).Place?
    ensures Locate(Splice(s, n, t), m - 1 + Count(t)) == Locate(s, m).Shift(|t| - |Sentence(s, n)|)
      <==> Stays(s, n, t, m)
    ensures Stays(s, n, t, m) ==> Sentence(Splice(s, n, t), m - 1 + Count(t)) == Sentence(s, m)
  {
    hide Locate, Count, Closed, Sentence, Splice, AllIn;
    PlacesOrdered(s, n, m);
    if m > n + 1 || Closed(t) {
      LaterPlaces(s, n, t, m);
    } else if AllIn(t, BLANKS) {
      BlankFacts(t, []);
      if n > 0 { BlankPlaces(s, n, t); } else { BlankFirst(s, t); }
    } else {
      assert t != [] by { assert AllIn([], BLANKS) by { NothingBlank(); } }
      NextPlaceMoves(s, n, t);
      PlaceLength(s, n);
    }
    if Stays(s, n, t, m) { LaterText(s, n, t, m, m - 1 + Count(t)); }
  }

  lemma NothingBlank()
    ensures AllIn([], BLANKS)
  {
  }

  lemma PlaceLength(s: string, n: int)
    requires Locate(s, n).Place? && Locate(s, n).end.Some?
    ensures |Sentence(s, n)| == Locate(s, n).end.value - Locate(s, n).start
  {
    hide Locate;
  }

  lemma LaterText(s: string, n: int, t: string, m: int, k: int)
    requires Locate(s, n).Place? && Locate(s, n).end.Some? && Locate(s, m).Place?
    requires Locate(s, n).end.value <= Locate(s, m).start
    requires Locate(Splice(s, n, t), k) == Locate(s, m).Shift(|t| - |Sentence(s, n)|)
    ensures Sentence(Splice(s, n, t), k) == Sentence(s, m)
  {
    hide Locate, Sentence, Splice;
    var p, q := Locate(s, n), Locate(s, m);
    var c := EndOf(s, q);
    CutAt(s, n, t, p.start, p.end.value);
    CutAt(s, m, [], q.start, c);
    SameTail(s, p.start, p.end.value, t, q.start, c);
    var x, d := Splice(s, n, t), |t| - |Sentence(s, n)|;
    assert EndOf(x, Locate(x, k)) == c + d;
    CutAt(x, k, [], q.start + d, c + d);
  }

  lemma SameTail(s: string, a: nat, e: nat, t: string, b: nat, c: nat)
    requires a <= e <= b <= c <= |s|
    ensures var x, d := s[..a] + t + s[e..], |t| - (e - a);
      |x| == |s| + d && x[b + d..c + d] == s[b..c]
  {
    var x, d := s[..a] + t + s[e..], |t| - (e - a);
    assert forall i :: b <= i < c ==> x[i + d] == s[i];
  }

  // ---- How many sentences there are, and which keep their number ----

  lemma CountSplice(s: string, n: int, t: string)
    requires Locate(s, n).Place?
    ensures |Splice(s, n, t)| == |s| + |t| - |Sentence(s, n)|
    ensures Count(Splice(s, n, t)) == Count(s) + Count(t) - Count(Sentence(s, n))
  {
    hide Locate, Count, Sentence, Splice, EndOf;
    var p := Locate(s, n);
    var a, e := p.start, EndOf(s, p);
    EndShift(s, 0, s, p) by { assert s[0..] == s; }
    ShiftZero(p);
    CutAt(s, n, t, a, e);
    assert s == s[..a] + s[a..e] + s[e..];
    CountAppend(s[..a] + s[a..e], s[e..]);
    CountAppend(s[..a], s[a..e]);
    CountAppend(s[..a] + t, s[e..]);
    CountAppend(s[..a], t);
  }

  /** A sentence holds one delimiter or none, and the last one is the one without. */
  lemma {:induction false} SentenceCount(s: string, n: int)
    requires 0 <= n && Locate(s, n).Place?
    ensures Count(Sentence(s, n)) == if n < Count(s) then 1 else 0
    ensures Locate(s, n).end.Some? <==> n < Count(s)
    decreases n
  {
    hide Locate, Count, Sentence, Splice, Head, Rest, RestStart, Ended, Body, BodyLen, NoneIn;
    SentenceExists(s, n);
    if n == 0 {
      FirstSentence(s, n);
      FirstSplice(s, n, []);
      if Ended(s) { HeadShape(s); CountRest(s); } else { NotEnded(s); }
    } else {
      LaterSplice(s, n, []);
      StepPlace(s, n);
      CountRest(s);
      SentenceCount(Rest(s), n - 1);
    }
  }

  /** Another sentence keeps its number, its text and, but for the change in length, its place: always when it is an
      earlier one, and a later one exactly when the new text has one delimiter and does not run on into it. */
  lemma SameNumber(s: string, n: int, t: string, m: int)
    requires 0 <= n && 0 <= m && m != n && Locate(s, n).Place? && Locate(s, m).Place?
    ensures Locate(Splice(s, n, t), m) == Locate(s, m).Shift(if m < n then 0 else |t| - |Sentence(s, n)|)
            <==> m < n || (Count(t) == 1 && (m > n + 1 || Closed(t)))
  {
    hide Locate, Count, Sentence, Splice, Closed, AllIn;
    ShiftZero(Locate(s, m));
    if m < n {
      EarlierSentences(s, n, t, m);
    } else if Count(t) == 1 {
      assert !AllIn(t, BLANKS) by { if AllIn(t, BLANKS) { BlankFacts(t, []); } }
      assert t != [] by { assert AllIn([], BLANKS) by { NothingBlank(); } }
      LaterSentences(s, n, t, m);
    } else {
      OtherNumber(s, n, t, m);
    }
  }

  lemma OtherNumber(s: string, n: int, t: string, m: int)
    requires 0 <= n < m && Locate(s, n).Place? && Locate(s, m).Place? && Count(t) != 1
    ensures Locate(Splice(s, n, t), m) != Locate(s, m).Shift(|t| - |Sentence(s, n)|)
  {
    hide Locate, Count, Sentence, Splice, Closed, AllIn;
    var s', k := Splice(s, n, t), m - 1 + Count(t);
    PlacesOrdered(s, n, m);
    PlaceLength(s, n);
    LaterSentences(s, n, t, m);
    if Locate(s', m) == Locate(s, m).Shift(|t| - |Sentence(s, n)|) {
      if Stays(s, n, t, m) {
        PlacesOrdered(s', if k < m then k else m, if k < m then m else k);
      } else if Count(t) > 1 {
        assert !AllIn(t, BLANKS) by { if AllIn(t, BLANKS) { BlankFacts(t, []); } }
        NextPlaceMoves(s, n, t);
        PlacesOrdered(s', m, k);
      } else {
        SentenceExists(s', m);
        CountSplice(s, n, t);
        SentenceCount(s, n);
        SentenceExists(s, m + 1);
        LaterPlaces(s, n, t, m + 1);
        PlacesOrdered(s, m, m + 1);
      }
    }
  }
}
