/** When commits to different sentences of one file can be exchanged. */
module Commutation {
  import opened Text
  import opened Sentences
  import opened Locality
  import opened Words
  import opened Commit

  /** Head(s) is the first sentence and the blanks in front of the rest. */
  lemma HeadGap(s: string)
    requires Ended(s)
    ensures Head(s) == Body(s) + Tail(s)[..Span(Tail(s), BLANKS)] && Rest(s) == Strip(Tail(s), BLANKS)
  {
    hide BodyLen, RestStart;
    StripTail(s);
    HeadRest(s);
    assert s == Body(s) + Tail(s);
    assert |Head(s)| == |Body(s)| + Span(Tail(s), BLANKS);
    assert Head(s) == s[..|Head(s)|];
  }

  lemma TailAgain(s: string, x: string)
    requires Ended(s)
    ensures Ended(Head(s) + x) && Body(Head(s) + x) == Body(s)
    ensures Tail(Head(s) + x) == Tail(s)[..Span(Tail(s), BLANKS)] + x
  {
    hide Head, Body, Span, Ended, CSpan;
    HeadAgain(s, x);
    HeadGap(s);
    var y, b := Head(s) + x, Body(s);
    BodyTail(y);
    assert y == b + (Tail(s)[..Span(Tail(s), BLANKS)] + x);
  }

  /** A text with one delimiter, behind which come only blanks. */
  ghost predicate OneSentence(t: string) { Closed(t) && Count(t) == 1 }

  lemma TheDelimiter(t: string) returns (d: nat)
    requires OneSentence(t)
    ensures d < |t| && t[d] in DELIMS && NoneIn(t[..d], DELIMS) && AllIn(t[d + 1..], BLANKS)
  {
    hide Count;
    d :| d < |t| && t[d] in DELIMS && AllIn(t[d + 1..], BLANKS);
    assert t == t[..d] + [t[d]] + t[d + 1..];
    CountAppend(t[..d] + [t[d]], t[d + 1..]);
    CountAppend(t[..d], [t[d]]);
    CountOne(t[d]);
    CountNone(t[..d]);
  }

  lemma OneHead(t: string, y: string)
    requires OneSentence(t)
    ensures Ended(t + y) && Rest(t + y) == Strip(y, BLANKS) && Head(t + y) == t + y[..Span(y, BLANKS)]
  {
    hide OneSentence;
    var d := TheDelimiter(t);
    var n := |t| + Span(y, BLANKS);
    var x := t + y;
    assert forall i :: 0 <= i < d ==> x[i] == t[..d][i] && t[..d][i] in t[..d];
    assert forall i :: d < i < |t| ==> x[i] == t[d + 1..][i - d - 1] && t[d + 1..][i - d - 1] in t[d + 1..];
    assert forall i :: |t| <= i < |x| ==> x[i] == y[i - |t|];
    RestIs(x, d, n);
    assert x[..n] == t + y[..Span(y, BLANKS)] && x[n..] == y[Span(y, BLANKS)..];
  }

  /** Sentence i committed then j gives the same file as j then i. */
  ghost predicate Commute(s: string, i: int, a: seq<Write>, j: int, b: seq<Write>) {
    CommitText(CommitText(s, i, a), j, b) == CommitText(CommitText(s, j, b), i, a)
  }

  // ---- When they commute ----

  lemma {:induction false} EndedCommutes(s: string, i: int, j: int, a: seq<Write>, b: seq<Write>)
    requires 0 <= i < j
    requires Locate(s, i).Place? && Locate(s, i).end.Some? && OneSentence(Rewrite(Sentence(s, i), a))
    ensures Commute(s, i, a, j, b)
    decreases i
  {
    hide CommitText, Locate, Head, Rest, Body, Tail, Sentence, Rewrite, OneSentence, Ended, Clean, Span, Strip;
    CommitLater(s, j, b);
    if i == 0 {
      FirstSentence(s, i);
      assert Sentence(s, i) == Body(s) by { FirstSplice(s, i, []); }
      var t, x := Rewrite(Body(s), a), CommitText(Rest(s), j - 1, b);
      var gap := Tail(s)[..Span(Tail(s), BLANKS)];
      CommitFirst(s, i, a);
      OneHead(t, Tail(s));
      HeadGap(s);
      CommitLater(t + Tail(s), j, b);
      TailAgain(s, x);
      CommitFirst(Head(s) + x, i, a);
      assert t + gap + x == t + (gap + x);
    } else {
      var r := Rest(s);
      assert Ended(s) && Locate(r, i - 1).Place? && Sentence(s, i) == Sentence(r, i - 1) by { LaterSplice(s, i, []); }
      StepPlace(s, i);
      EndedCommutes(r, i - 1, j - 1, a, b);
      CommitLater(s, i, a);
      CommitAfterHead(s, CommitText(r, i - 1, a), j, b);
      assert Clean(CommitText(r, j - 1, b)) by { RestClean(s); CommitClean(r, j - 1, b); }
      CommitAfterHead(s, CommitText(r, j - 1, b), i, a);
    }
  }

  /** What a commit does to the number of delimiters and the length. */
  lemma CommitCounts(s: string, i: int, a: seq<Write>)
    requires 0 <= i && Locate(s, i).Place?
    ensures var s', t := CommitText(s, i, a), Rewrite(Sentence(s, i), a);
      && s' == Splice(s, i, t) && |s'| == |s| + |t| - |Sentence(s, i)|
      && Count(s') == Count(s) + Count(t) - (if Locate(s, i).end.Some? then 1 else 0)
    ensures Locate(s, i).end.Some? <==> i < Count(s)
    ensures |Sentence(s, i)| <= |s|
  {
    hide Locate, Rewrite, Sentence, Splice, Count;
    CountSplice(s, i, Rewrite(Sentence(s, i), a));
    SentenceCount(s, i);
    CountSplice(s, i, []);
  }

  lemma NoCommit(s: string, j: int, b: seq<Write>)
    requires Locate(s, j).Missing?
    ensures CommitText(s, j, b) == s
  {
    hide Locate, Rewrite, Sentence, Splice;
    NoSplice(s, j, Rewrite(Sentence(s, j), b));
  }

  lemma OpenCommutes(s: string, i: int, j: int, a: seq<Write>, b: seq<Write>)
    requires 0 <= i < j
    requires Locate(s, i).Place? && Locate(s, i).end.None? && Count(Rewrite(Sentence(s, i), a)) == 0
    ensures Commute(s, i, a, j, b)
  {
    hide CommitText, Locate, Rewrite, Sentence, Splice, Count;
    CommitCounts(s, i, a);
    SentenceExists(s, j);
    SentenceExists(CommitText(s, i, a), j);
    NoCommit(s, j, b);
    NoCommit(CommitText(s, i, a), j, b);
  }

  // ---- When they do not ----

  /** A session that writes one letter over the first word. */
  predicate Letter(b: seq<Write>) { |b| == 1 && b[0].index == 0 && |b[0].content| == 1 }

  function Other(s: string, q: int): (w: string)
    ensures |w| == 1 && (0 <= q < |s| ==> w[0] != s[q])
  {
    if 0 <= q < |s| && s[q] == 'x' then "y" else "x"
  }

  /** What writing the letter does to the text from the sentence's start on. */
  lemma LetterShows(s: string, j: int, w: string)
    requires Locate(s, j).Place? && |w| == 1
    ensures var x, q := CommitText(s, j, [Write(0, w)]), Locate(s, j).start;
      && q < |x| && x[..q] == s[..q] && x[q] == w[0]
  {
    hide CommitText, Locate, Rewrite, Sentence, Splice;
    var u := Rewrite(Sentence(s, j), [Write(0, w)]);
    CommitIs(s, j, [Write(0, w)]);
    RewriteFirst(Sentence(s, j), w);
    FrontOfSplice(s, j, u);
    assert Splice(s, j, u)[Locate(s, j).start] == u[0];
  }

  lemma CommitIs(s: string, j: int, b: seq<Write>)
    ensures CommitText(s, j, b) == Splice(s, j, Rewrite(Sentence(s, j), b))
  {
  }

  /** An edit that changes the number of sentences shows in a commit to the last one there is before or after it. */
  lemma CountShows(s: string, i: int, a: seq<Write>)
    requires 0 <= i && Locate(s, i).Place? && Count(CommitText(s, i, a)) != Count(s)
    ensures exists j, b :: i < j && Letter(b) && !Commute(s, i, a, j, b)
  {
    hide CommitText, Locate, Rewrite, Sentence, Splice, Count;
    var s' := CommitText(s, i, a);
    CommitCounts(s, i, a);
    SentenceExists(s, i);
    var j := if Count(s') > Count(s) then Count(s') else Count(s);
    SentenceExists(s, j);
    SentenceExists(s', j);
    assert i < j;
    if Count(s') > Count(s) {
      var b := [Write(0, Other(s', Locate(s', j).start))];
      NoCommit(s, j, b);
      LetterShows(s', j, b[0].content);
      assert Letter(b) && !Commute(s, i, a, j, b);
    } else {
      var b := [Write(0, Other(s, Locate(s, j).start))];
      NoCommit(s', j, b);
      FirstShows(s, i, a, j, b[0].content);
      assert Letter(b) && !Commute(s, i, a, j, b);
    }
  }

  /** Editing sentence i after writing the letter in sentence j > i shows the letter, moved. */
  lemma FirstShows(s: string, i: int, a: seq<Write>, j: int, w: string)
    requires 0 <= i < j && Locate(s, i).Place? && Locate(s, j).Place?
    requires |w| == 1 && (Locate(s, j).start < |s| ==> w[0] != s[Locate(s, j).start])
    ensures CommitText(CommitText(s, j, [Write(0, w)]), i, a) != CommitText(s, i, a)
  {
    hide CommitText, Locate, Rewrite, Sentence, Splice;
    var b, p, q := [Write(0, w)], Locate(s, i), Locate(s, j).start;
    var r, t := CommitText(s, j, b), Rewrite(Sentence(s, i), a);
    PlacesOrdered(s, i, j);
    LetterShows(s, j, w);
    CommitIs(s, j, b);
    EarlierSentences(s, j, Rewrite(Sentence(s, j), b), i);
    CommitIs(s, i, a);
    CommitIs(r, i, a);
    CutAt(s, i, t, p.start, p.end.value);
    CutAt(r, i, t, p.start, p.end.value);
    var k := q - p.end.value;
    AfterCut(s, p.start, t, p.end.value, k);
    AfterCut(r, p.start, t, p.end.value, k);
  }

  /** Behind a replaced part the text is the same, moved; past its end there is nothing. */
  lemma AfterCut(s: string, a: nat, t: string, e: nat, k: nat)
    requires a <= e <= |s|
    ensures var x, q := s[..a] + t + s[e..], a + |t| + k;
      && |x| == |s| + a + |t| - e
      && (e + k < |s| ==> q < |x| && x[q] == s[e + k])
  {
  }

  /** An edit that keeps one delimiter but not at its end shows in a commit to the next sentence. */
  lemma OpenShows(s: string, i: int, a: seq<Write>)
    requires 0 <= i && Locate(s, i).Place? && Locate(s, i).end.Some?
    requires var t := Rewrite(Sentence(s, i), a); Count(t) == 1 && !Closed(t)
    ensures exists j, b :: i < j && Letter(b) && !Commute(s, i, a, j, b)
  {
    hide CommitText, Locate, Rewrite, Sentence, Splice, Count, Closed, AllIn;
    var s', t, j := CommitText(s, i, a), Rewrite(Sentence(s, i), a), i + 1;
    CommitCounts(s, i, a);
    SentenceExists(s, j);
    assert !AllIn(t, BLANKS) by { if AllIn(t, BLANKS) { BlankFacts(t, []); } }
    NextPlaceMoves(s, i, t);
    var p, q := Locate(s, i), Locate(s', j).start;
    assert |s'| >= p.start + |t| by { FrontOfSplice(s, i, t); }
    var b := [Write(0, Other(s', q))];
    LetterShows(s', j, b[0].content);
    var x := CommitText(s', j, b);
    var u := Rewrite(Sentence(s, j), b);
    var r := CommitText(s, j, b);
    CommitCounts(s, j, b);
    EarlierSentences(s, j, u, i);
    CommitCounts(r, i, a);
    var y := CommitText(r, i, a);
    PlacesOrdered(s, i, j);
    assert q < |y| && y[q] == s'[q] by { FrontOfSplice(s, j, u); FrontOfSplice(r, i, t); FrontOfSplice(s, i, t); }
    assert Letter(b) && !Commute(s, i, a, j, b);
  }

  /** The text in front of a replaced sentence stays, and the new text comes next. */
  lemma FrontOfSplice(s: string, n: int, t: string)
    requires Locate(s, n).Place?
    ensures var x, a := Splice(s, n, t), Locate(s, n).start;
      && |x| >= a + |t| && a <= |s| && x[..a] == s[..a] && x[a..a + |t|] == t
  {
    hide Locate;
  }

  // ---- Exactly when ----

  lemma FirstNumber(s: string, n: int, ops: seq<Write>)
    requires n <= 0
    ensures Locate(s, n) == Locate(s, 0) && Sentence(s, n) == Sentence(s, 0)
    ensures CommitText(s, n, ops) == CommitText(s, 0, ops)
  {
    FirstSentence(s, n);
    FirstSentence(s, 0);
    hide Locate, Rewrite;
  }

  /** The rebuilt text of sentence i is a sentence of the same kind. */
  ghost predicate KeepsShape(s: string, i: int, a: seq<Write>) {
    var p, t := Locate(s, i), Rewrite(Sentence(s, i), a);
    p.Place? && if p.end.Some? then OneSentence(t) else Count(t) == 0
  }

  lemma CommutesExactly(s: string, i: int, a: seq<Write>)
    requires 0 <= i && Locate(s, i).Place?
    ensures if KeepsShape(s, i, a) then forall j, b :: i < j ==> Commute(s, i, a, j, b)
      else exists j, b :: i < j && Letter(b) && !Commute(s, i, a, j, b)
  {
    hide CommitText, Locate, Rewrite, Sentence, Splice, Count, Closed, Commute, Letter;
    var t := Rewrite(Sentence(s, i), a);
    CommitCounts(s, i, a);
    if Locate(s, i).end.None? {
      if Count(t) == 0 {
        forall j, b | i < j ensures Commute(s, i, a, j, b) { OpenCommutes(s, i, j, a, b); }
      } else {
        CountShows(s, i, a);
      }
    } else if Count(t) != 1 {
      CountShows(s, i, a);
    } else if !Closed(t) {
      OpenShows(s, i, a);
    } else {
      forall j, b | i < j ensures Commute(s, i, a, j, b) { EndedCommutes(s, i, j, a, b); }
    }
  }

  /** An edit of sentence i can be exchanged with every edit of a later sentence, existing or not, exactly when the
      rebuilt text has one delimiter with only blanks behind it, or no delimiter if the sentence had none. When it
      cannot, writing one letter in a later sentence shows it. */
  lemma EditsCommute(s: string, i: int, a: seq<Write>)
    requires Locate(s, i).Place?
    ensures (forall j, b :: i < j && 0 < j ==> Commute(s, i, a, j, b)) <==> KeepsShape(s, i, a)
    ensures (forall j, b :: i < j && 0 < j && Letter(b) ==> Commute(s, i, a, j, b)) <==> KeepsShape(s, i, a)
  {
    hide Locate, Rewrite, Sentence, Count, OneSentence, CommitText, Letter;
    var n := if i < 0 then 0 else i;
    if i < 0 { FirstNumber(s, i, a); }
    CommutesExactly(s, n, a);
    forall j, b | n < j ensures Commute(s, i, a, j, b) <==> Commute(s, n, a, j, b) {
      if i < 0 { FirstNumber(s, i, a); FirstNumber(CommitText(s, j, b), i, a); }
    }
  }
}
