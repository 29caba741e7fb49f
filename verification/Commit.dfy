/** What one commit does to the text of a file. */
module Commit {
  import opened Text
  import opened Sentences
  import opened Locality
  import opened Words

  /** commit_changes on a file's text: nothing when the sentence does not exist. */
  function CommitText(s: string, n: int, ops: seq<Write>): string {
    Splice(s, n, Rewrite(Sentence(s, n), ops))
  }

  /** The text part of commit_changes: find, tokenise, apply, rejoin, splice. */
  method EditText(content: string, n: int, ops: seq<Write>) returns (found: bool, text: string)
    ensures found <==> Locate(content, n).Place?
    ensures text == CommitText(content, n, ops)
  {
    var place := GetNthSentence(content, n);
    if place == Missing { return false, content; }
    var end := if place.end.Some? then place.end.value else |content|;
    var sentence := content[place.start..end];
    var words, count := SplitWords(sentence);
    count := ApplyWrites(words, count, ops);
    var rebuilt := JoinWords(words, count);
    found, text := true, content[..place.start] + rebuilt + content[end..];
  }

  // ---- A commit over the first sentence and the rest ----

  /** A text whose only delimiter is its last character. */
  predicate Single(t: string) {
    t != [] && t[|t| - 1] in DELIMS && NoneIn(t[..|t| - 1], DELIMS)
  }

  lemma CommitAfterHead(s: string, x: string, j: int, ops: seq<Write>)
    requires Ended(s) && (j > 1 || (j == 1 && Clean(x)))
    ensures CommitText(Head(s) + x, j, ops) == Head(s) + CommitText(x, j - 1, ops)
  {
    hide Locate, Head, Ended, Rewrite, Clean, Sentence, Splice, EndOf;
    if j > 1 { PlaceAfterHead(s, x, j); } else { HeadAgainPlace(s, x, j); }
    var h := Head(s);
    assert (h + x)[|h|..] == x && (h + x)[..|h|] == h;
    if Locate(x, j - 1).Place? {
      SuffixSplice(h + x, |h|, x, j, j - 1, Rewrite(Sentence(x, j - 1), ops));
    } else {
      NoSplice(x, j - 1, Rewrite(Sentence(x, j - 1), ops));
      NoSplice(h + x, j, Rewrite(Sentence(h + x, j), ops));
    }
  }

  lemma NoSplice(s: string, n: int, t: string)
    requires Locate(s, n).Missing?
    ensures Splice(s, n, t) == s
  {
  }

  lemma CommitFirst(s: string, n: int, ops: seq<Write>)
    requires n <= 0
    ensures CommitText(s, n, ops) == Rewrite(Body(s), ops) + Tail(s)
  {
    hide Locate, Rewrite, Splice, Sentence, Tail, Body;
    FirstSentence(s, n);
    FirstSplice(s, n, Rewrite(Body(s), ops));
  }

  lemma CommitLater(s: string, n: int, ops: seq<Write>)
    requires n > 0
    ensures Ended(s) ==> CommitText(s, n, ops) == Head(s) + CommitText(Rest(s), n - 1, ops)
    ensures !Ended(s) ==> CommitText(s, n, ops) == s
  {
    hide Locate, Rewrite, Head, Ended, Rest;
    if Ended(s) {
      HeadRest(s);
      RestClean(s);
      CommitAfterHead(s, Rest(s), n, ops);
    } else {
      NoSentence(s, n);
      NoSplice(s, n, Rewrite(Sentence(s, n), ops));
    }
  }

  lemma CommitClean(s: string, n: int, ops: seq<Write>)
    requires n > 0 && Clean(s)
    ensures Clean(CommitText(s, n, ops))
  {
    hide CommitText, Head, Ended, Rest, Clean;
    CommitLater(s, n, ops);
    if Ended(s) { StartsAsHead(s, CommitText(Rest(s), n - 1, ops)); }
  }

  lemma SingleBody(t: string, y: string)
    requires Single(t)
    ensures Ended(t + y) && Body(t + y) == t && Tail(t + y) == y
    ensures Rest(t + y) == Strip(y, BLANKS) && Head(t + y) == t + y[..Span(y, BLANKS)]
  {
    var d, n := |t| - 1, |t| + Span(y, BLANKS);
    var x := t + y;
    assert forall i :: 0 <= i < d ==> x[i] == t[..d][i] && t[..d][i] in t[..d];
    assert forall i :: |t| <= i < |x| ==> x[i] == y[i - |t|];
    RestIs(x, d, n);
    assert x[..d + 1] == t && x[d + 1..] == y;
    assert x[..n] == t + y[..Span(y, BLANKS)] && x[n..] == y[Span(y, BLANKS)..];
  }

  lemma BodyTail(s: string)
    ensures s == Body(s) + Tail(s)
  {
    hide BodyLen;
  }

  /** After a commit another sentence has the same number and text, at its old offset or shifted by the length change:
      always when it comes before, and after it exactly when the rebuilt text has one delimiter and, for the very next
      sentence, nothing but blanks behind that. */
  lemma CommitLocality(s: string, n: nat, ops: seq<Write>, m: nat)
    requires Locate(s, n).Place? && Locate(s, m).Place? && m != n
    ensures var s', t := CommitText(s, n, ops), Rewrite(Sentence(s, n), ops);
      var d, keeps := |t| - |Sentence(s, n)|, m < n || (Count(t) == 1 && (m > n + 1 || Closed(t)));
      && |s'| == |s| + d
      && (Locate(s', m) == Locate(s, m).Shift(if m < n then 0 else d) <==> keeps)
      && (keeps ==> Sentence(s', m) == Sentence(s, m))
  {
    hide Locate, Rewrite, Closed, Sentence, Splice, Count, AllIn;
    var t := Rewrite(Sentence(s, n), ops);
    CountSplice(s, n, t);
    SameNumber(s, n, t, m);
    if m < n { EarlierSentences(s, n, t, m); } else { LaterSentences(s, n, t, m); }
  }

  /** Writing w as word 0 puts it at the front of the rebuilt text. */
  lemma RewriteFirst(b: string, w: string)
    ensures w <= Rewrite(b, [Write(0, w)])
  {
    hide Tokens;
    var ws, op := Split(b), Write(0, w);
    assert Apply(ws, [op]) == Apply(ApplyOne(ws, op), []) == ApplyOne(ws, op);
    assert ApplyOne(ws, op) != [] && ApplyOne(ws, op)[0] == w;
    JoinUnfold(ApplyOne(ws, op));
  }

  // ---- Rejoining words keeps every character but blanks ----

  lemma TokenSplits(s: string) returns (pre: string, sep: string)
    requires Token(s, BLANKS).Some?
    ensures s == pre + Token(s, BLANKS).value + sep + AfterToken(s, BLANKS)
    ensures AllIn(pre, BLANKS) && AllIn(sep, BLANKS)
    ensures AfterToken(s, BLANKS) != [] ==> |sep| == 1
  {
    hide Strip, Span, CSpan, Token, AfterToken, AllIn;
    var t := Strip(s, BLANKS);
    var k := CSpan(t, BLANKS);
    pre := StripFront(s);
    StripTwice(s, BLANKS);
    TokenPlain(t, BLANKS);
    sep := if k < |t| then [t[k]] else [];
    assert t == t[..k] + (sep + AfterToken(s, BLANKS));
    SpliceParts(pre, t[..k], sep, AfterToken(s, BLANKS));
    assert AllIn(sep, BLANKS) by { OneBlank(sep); }
  }

  lemma StripFront(s: string) returns (pre: string)
    ensures s == pre + Strip(s, BLANKS) && AllIn(pre, BLANKS)
  {
    pre := s[..Span(s, BLANKS)];
  }

  lemma OneBlank(sep: string)
    requires |sep| <= 1 && (sep != [] ==> sep[0] in BLANKS)
    ensures AllIn(sep, BLANKS)
  {
  }

  /** Words and the gaps around them. */
  ghost function Interleave(gaps: seq<string>, ws: seq<string>): string
    requires |gaps| == |ws| + 1
  {
    if ws == [] then gaps[0] else gaps[0] + ws[0] + Interleave(gaps[1..], ws[1..])
  }

  ghost predicate Blank(c: char) { c == ' ' || c == '\t' || c == '\n' || c == '\r' }

  /** What the tokens of a sentence are: its longest pieces without blanks, in order. */
  lemma {:induction false} TokensPieces(s: string) returns (gaps: seq<string>)
    ensures var ws := Tokens(s, BLANKS);
      && |gaps| == |ws| + 1 && s == Interleave(gaps, ws)
      && (forall i :: 0 <= i < |ws| ==> ws[i] != [] && forall c :: c in ws[i] ==> !Blank(c))
      && (forall i :: 0 <= i < |gaps| ==> forall c :: c in gaps[i] ==> Blank(c))
      && (forall i :: 0 < i < |ws| ==> gaps[i] != [])
    decreases |s|
  {
    hide Token, AfterToken;
    if Token(s, BLANKS).None? {
      gaps := [s];
    } else {
      var pre, sep := TokenSplits(s);
      var w, rest := Token(s, BLANKS).value, AfterToken(s, BLANKS);
      var later := TokensPieces(rest);
      gaps := [pre, sep + later[0]] + later[1..];
      var ws := Tokens(rest, BLANKS);
      assert gaps[1..] == [sep + later[0]] + later[1..];
      FirstGapGrows(sep, later, ws);
      assert pre + w + (sep + rest) == s;
      assert ([w] + ws)[1..] == ws;
      NoTokenOfNothing();
    }
  }

  lemma FirstGapGrows(sep: string, gaps: seq<string>, ws: seq<string>)
    requires |gaps| == |ws| + 1
    ensures Interleave([sep + gaps[0]] + gaps[1..], ws) == sep + Interleave(gaps, ws)
  {
    var grown := [sep + gaps[0]] + gaps[1..];
    if ws != [] {
      assert grown[1..] == gaps[1..];
      var later := Interleave(gaps[1..], ws[1..]);
      assert (sep + gaps[0]) + ws[0] + later == sep + (gaps[0] + ws[0] + later);
    }
  }

  lemma NoTokenOfNothing()
    ensures Tokens([], BLANKS) == []
  {
    assert AllIn([], BLANKS);
  }

  /** Appending one word to a sentence: a space in front of it, and none in front of a lone ".", "?" or "!". */
  lemma AppendedWord(s: string, n: int, w: string)
    requires Locate(s, n).Place? && 0 < |Tokens(Sentence(s, n), BLANKS)| < 512
    ensures var ws := Tokens(Sentence(s, n), BLANKS);
      CommitText(s, n, [Write(|ws|, w)])
        == Splice(s, n, Join(ws) + (if w in {".", "?", "!"} then "" else " ") + w)
  {
    hide Tokens, Join, Splice, Locate, Sentence;
    var ws := Tokens(Sentence(s, n), BLANKS);
    var op := Write(|ws|, w);
    assert Apply(ws, [op]) == Apply(ApplyOne(ws, op), []) == ws + [w];
    JoinAppended(ws, w);
  }

  lemma OneWordAppended(v: string, w: string)
    requires v != [] && NoneIn(v, BLANKS) && NoneIn(v, DELIMS)
    ensures CommitText(v, 0, [Write(1, w)]) == v + (if w in {".", "?", "!"} then "" else " ") + w
  {
    hide CommitText, Splice, Join, Locate, Sentence, Body, Tail, NoneIn, Tokens;
    WordAlone(v);
    NotEnded(v);
    FirstSentence(v, 0);
    var t := v + (if w in {".", "?", "!"} then "" else " ") + w;
    FirstSplice(v, 0, t);
    AppendedWord(v, 0, w);
    JoinSpacing(v, "", []);
    assert t + [] == t;
  }

  lemma WordAlone(v: string)
    requires v != [] && NoneIn(v, BLANKS)
    ensures Tokens(v, BLANKS) == [v]
  {
    hide Token, AfterToken;
    TokenOfWhole(v, BLANKS);
    NoTokenOfNothing();
  }

  /** "!" appended to "Hello" gives "Hello!". */
  lemma HelloAppended()
    ensures CommitText("Hello", 0, [Write(1, "!")]) == "Hello!"
  {
    hide CommitText;
    OneWordAppended("Hello", "!");
  }

  lemma {:induction false} JoinKeepsText(s: string)
    ensures forall c :: c !in BLANKS ==> multiset(Join(Tokens(s, BLANKS)))[c] == multiset(s)[c]
    ensures |Join(Tokens(s, BLANKS))| <= |s|
    ensures s != [] && s[|s| - 1] !in BLANKS ==>
      Join(Tokens(s, BLANKS)) != [] && Last(Join(Tokens(s, BLANKS))) == Last(s)
    decreases |s|
  {
    hide Token, AfterToken;
    if Token(s, BLANKS).None? {
      BlankCounts(s);
      if s != [] { assert s[|s| - 1] in s; }
    } else {
      var pre, sep := TokenSplits(s);
      var w, rest := Token(s, BLANKS).value, AfterToken(s, BLANKS);
      JoinKeepsText(rest);
      JoinStep(s, pre, w, sep, rest, Tokens(rest, BLANKS));
    }
  }

  function Last(s: string): char
    requires s != []
  {
    s[|s| - 1]
  }

  lemma BlankCounts(s: string)
    requires AllIn(s, BLANKS)
    ensures forall c :: c !in BLANKS ==> multiset(s)[c] == 0
  {
    forall c | c !in BLANKS ensures multiset(s)[c] == 0 { assert c !in s; }
  }

  lemma JoinStep(s: string, pre: string, w: string, sep: string, rest: string, ws: seq<string>)
    requires s == pre + w + sep + rest && w != [] && AllIn(pre, BLANKS) && AllIn(sep, BLANKS)
    requires rest != [] ==> |sep| == 1
    requires ws != [] ==> rest != []
    requires forall c :: c !in BLANKS ==> multiset(Join(ws))[c] == multiset(rest)[c]
    requires |Join(ws)| <= |rest|
    requires rest != [] && Last(rest) !in BLANKS ==> Join(ws) != [] && Last(Join(ws)) == Last(rest)
    ensures forall c :: c !in BLANKS ==> multiset(Join([w] + ws))[c] == multiset(s)[c]
    ensures |Join([w] + ws)| <= |s|
    ensures Last(s) !in BLANKS ==> Join([w] + ws) != [] && Last(Join([w] + ws)) == Last(s)
  {
    hide Join, LoneDelim, AllIn;
    var gap := if ws == [] || LoneDelim(ws[0]) then [] else [' '];
    assert ([w] + ws)[1..] == ws;
    JoinUnfold([w] + ws);
    BlankCounts(pre);
    BlankCounts(sep);
    BlankCounts(gap) by { GapIsBlank(gap); }
    assert multiset(w + gap + Join(ws)) == multiset(w) + multiset(gap) + multiset(Join(ws));
    assert multiset(s) == multiset(pre) + multiset(w) + multiset(sep) + multiset(rest);
    JoinLast(s, pre, w, sep, rest, gap, Join(ws));
  }

  lemma GapIsBlank(gap: string)
    requires gap == [] || gap == [' ']
    ensures AllIn(gap, BLANKS)
  {
  }

  lemma JoinLast(s: string, pre: string, w: string, sep: string, rest: string, gap: string, joined: string)
    requires s == pre + w + sep + rest && w != [] && AllIn(sep, BLANKS) && (gap != [] ==> rest != [])
    requires joined != [] ==> rest != []
    requires rest != [] && Last(rest) !in BLANKS ==> joined != [] && Last(joined) == Last(rest)
    ensures Last(s) !in BLANKS ==> Last(w + gap + joined) == Last(s)
  {
    LastOf(pre + w + sep, rest);
    LastOf(pre + w, sep);
    LastOf(pre, w);
    LastOf(w + gap, joined);
    assert sep != [] ==> Last(sep) in sep;
  }

  lemma LastOf(a: string, b: string)
    requires a != [] || b != []
    ensures b != [] ==> Last(a + b) == Last(b)
    ensures b == [] ==> a + b == a
  {
  }

  // ---- Committing nothing normalises blanks, once and for all ----

  lemma CountSingle(x: string)
    requires x != [] && Last(x) in DELIMS
    ensures Single(x) <==> Count(x) == 1
  {
    var k := |x| - 1;
    assert x == x[..k] + [x[k]];
    CountAppend(x[..k], [x[k]]);
    assert multiset([x[k]]) == multiset{x[k]};
    CountNone(x[..k]);
  }

  lemma JoinClean(ws: seq<string>)
    requires Plain(ws)
    ensures Clean(Join(ws)) && (ws != [] ==> Join(ws) != [])
  {
    if ws != [] {
      JoinUnfold(ws);
      assert ws[0][0] in ws[0];
      assert Join(ws)[0] == ws[0][0];
    }
  }

  lemma RewriteNothing(b: string)
    requires |Tokens(b, BLANKS)| <= WORD_CAP
    ensures Rewrite(b, []) == Join(Tokens(b, BLANKS))
  {
    hide Tokens, Join;
  }

  lemma NoWords(b: string)
    requires Tokens(b, BLANKS) == []
    ensures AllIn(b, BLANKS)
  {
    hide AfterToken;
  }

  /** The rebuilt text of an unedited sentence: no longer, the same delimiters, and rebuilt to itself. */
  lemma NormalForm(b: string)
    requires |Tokens(b, BLANKS)| <= WORD_CAP
    ensures var x := Rewrite(b, []);
      && Rewrite(x, []) == x && |x| <= |b| && Clean(x)
      && (Single(b) ==> Single(x))
      && (NoneIn(b, DELIMS) ==> NoneIn(x, DELIMS))
      && (x == [] ==> AllIn(b, BLANKS))
  {
    hide Tokens, Token, AfterToken, Join, Glue, Rewrite, Clean, Plain;
    var ws := Tokens(b, BLANKS);
    var x := Join(ws);
    TokensPlain(b);
    RewriteNothing(b);
    RejoinNormal(ws);
    RewriteNothing(x);
    JoinKeepsText(b);
    JoinClean(ws);
    CountNone(b);
    CountNone(x);
    assert Count(x) == Count(b);
    if Single(b) { CountSingle(b); CountSingle(x); }
    if x == [] { NoWords(b); }
  }

  /** A commit with no writes, repeated, changes nothing more. */
  lemma {:induction false} EmptyCommitIdempotent(s: string, n: int)
    requires Locate(s, n).Place? ==> |Tokens(Sentence(s, n), BLANKS)| <= WORD_CAP
    ensures CommitText(CommitText(s, n, []), n, []) == CommitText(s, n, [])
    ensures |CommitText(s, n, [])| <= |s|
    decreases if n < 0 then 0 else n
  {
    hide CommitText, Locate, Head, Rest, RestStart, Body, BodyLen, Tail, Sentence, Rewrite, Single, Ended, Clean,
      Tokens;
    if n <= 0 {
      FirstSentence(s, n);
      assert Sentence(s, n) == Body(s) by { FirstSplice(s, n, []); }
      EmptyFirst(s, n);
    } else {
      CommitLater(s, n, []);
      if Ended(s) {
        var r := Rest(s);
        StepPlace(s, n);
        assert Locate(r, n - 1).Place? ==> Sentence(s, n) == Sentence(r, n - 1) by {
          if Locate(r, n - 1).Place? { LaterSplice(s, n, []); }
        }
        EmptyCommitIdempotent(r, n - 1);
        RestClean(s);
        EmptyClean(r, n - 1);
        EmptyLater(s, n, CommitText(r, n - 1, []));
      }
    }
  }

  lemma EmptyLater(s: string, n: int, x: string)
    requires n > 0 && Ended(s) && x == CommitText(Rest(s), n - 1, []) && CommitText(x, n - 1, []) == x
    requires Clean(x) && |x| <= |Rest(s)|
    ensures CommitText(CommitText(s, n, []), n, []) == CommitText(s, n, [])
    ensures |CommitText(s, n, [])| <= |s|
  {
    hide CommitText, Head, Rest, Ended, Clean;
    CommitLater(s, n, []);
    CommitAfterHead(s, x, n, []);
    assert |Head(s)| + |Rest(s)| == |s|;
  }

  lemma EmptyFirst(s: string, n: int)
    requires n <= 0 && |Tokens(Body(s), BLANKS)| <= WORD_CAP
    ensures CommitText(CommitText(s, n, []), n, []) == CommitText(s, n, [])
    ensures |CommitText(s, n, [])| <= |s|
  {
    hide CommitText, Head, Rest, Body, Tail, Rewrite, Single, Ended, Clean;
    var b, y := Body(s), Tail(s);
    var x := Rewrite(b, []);
    BodyTail(s);
    NormalForm(b);
    CommitFirst(s, n, []);
    CommitFirst(x + y, n, []);
    if Ended(s) {
      assert Single(b) by { HeadShape(s); SingleIs(b); }
      SingleBody(x, y);
    } else {
      NotEnded(s);
      NotEnded(x);
      assert x + [] == x;
    }
  }

  lemma SingleIs(b: string)
    requires b != [] && b[|b| - 1] in DELIMS && NoneIn(b[..|b| - 1], DELIMS)
    ensures Single(b)
  {
  }

  lemma EmptyClean(r: string, n: int)
    requires Clean(r) && n >= 0
    requires Locate(r, n).Place? ==> |Tokens(Sentence(r, n), BLANKS)| <= WORD_CAP
    ensures Clean(CommitText(r, n, []))
  {
    hide CommitText, Locate, Sentence, Rewrite, Clean, Body, Tail, Ended;
    if n > 0 {
      CommitClean(r, n, []);
    } else {
      FirstSentence(r, n);
      assert Sentence(r, n) == Body(r) by { FirstSplice(r, n, []); }
      CommitFirst(r, n, []);
      NormalForm(Body(r));
      BodyTail(r);
      var x := Rewrite(Body(r), []);
      if x != [] { CleanAppend(x, Tail(r)); } else { BodyBlank(r); assert [] + Tail(r) == Tail(r); }
    }
  }

  lemma BodyBlank(r: string)
    requires Clean(r) && AllIn(Body(r), BLANKS)
    ensures r == [] && Tail(r) == [] && Clean(Tail(r))
  {
  }

  /** WORD_CAP words of one character fill the sentence buffer to its last byte. */
  lemma {:induction false} FullBuffer(ws: seq<string>)
    requires ws != [] && forall i :: 0 <= i < |ws| ==> |ws[i]| == 1 && !LoneDelim(ws[i])
    ensures |Join(ws)| == 2 * |ws| - 1
    ensures |ws| == WORD_CAP ==> |Join(ws)| + 1 == 1024
    decreases |ws|
  {
    if |ws| > 1 { assert !LoneDelim(ws[1]); FullBuffer(ws[1..]); }
  }

  // ---- Reading an edit back ----

  /** The edited words of sentence n. */
  function Edited(s: string, n: int, ops: seq<Write>): seq<string> {
    Apply(Split(Sentence(s, n)), ops)
  }

  /** Words that stay words when joined: no blanks, and no delimiter but possibly at the very end. */
  ghost predicate Readable(ws: seq<string>) {
    && ws != [] && Plain(ws) && NoLoneAfterFirst(ws)
    && (forall i :: 0 <= i < |ws| - 1 ==> NoneIn(ws[i], DELIMS))
    && NoneIn(ws[|ws| - 1][..|ws[|ws| - 1]| - 1], DELIMS)
  }

  predicate EndsInDelim(ws: seq<string>) {
    ws != [] && ws[|ws| - 1] != [] && Last(ws[|ws| - 1]) in DELIMS
  }

  lemma JoinReadable(ws: seq<string>)
    requires Readable(ws)
    ensures Join(ws) != [] && Clean(Join(ws)) && Tokens(Join(ws), BLANKS) == ws
    ensures if EndsInDelim(ws) then Single(Join(ws)) else NoneIn(Join(ws), DELIMS)
  {
    JoinThenTokens(ws);
    JoinClean(ws);
    JoinDelims(ws);
  }

  lemma {:induction false} JoinDelims(ws: seq<string>)
    requires Readable(ws)
    ensures Join(ws) != []
    ensures if EndsInDelim(ws) then Single(Join(ws)) else NoneIn(Join(ws), DELIMS)
    decreases |ws|
  {
    hide LoneDelim;
    if |ws| == 1 {
      var w := ws[0];
      assert w == w[..|w| - 1] + [Last(w)];
    } else {
      var vs := ws[1..];
      assert Readable(vs) && EndsInDelim(vs) == EndsInDelim(ws);
      JoinDelims(vs);
      JoinUnfold(ws);
      var front := ws[0] + if LoneDelim(ws[1]) then [] else [' '];
      assert NoneIn(front, DELIMS);
      var x := Join(vs);
      assert (front + x)[..|front + x| - 1] == front + x[..|x| - 1];
    }
  }

  /** What follows sentence n in the file. */
  function Remainder(s: string, n: int): string {
    s[EndOf(s, Locate(s, n))..]
  }

  lemma FirstReadBack(x: string, y: string, ws: seq<string>)
    requires Readable(ws) && x == Join(ws)
    ensures Tokens(Body(x + y), BLANKS) == ws <==> EndsInDelim(ws) || AllIn(y, BLANKS)
  {
    hide Body, Tail, Ended, Single, Join, EndsInDelim, Readable, Token, AfterToken;
    JoinReadable(ws);
    if EndsInDelim(ws) {
      SingleBody(x, y);
    } else {
      OpenBody(x, y);
      var z := Body(y);
      if AllIn(y, BLANKS) {
        BodyTail(y);
        assert AllIn(z, BLANKS) by { assert forall c :: c in z ==> c in y; }
        TokensTrailing(x, z, BLANKS);
      } else {
        var c := BodyHasText(y);
        assert multiset(x + z) == multiset(x) + multiset(z);
        JoinKeepsText(x + z);
        assert multiset(z)[c] > 0;
        assert Tokens(x + z, BLANKS) != ws;
      }
    }
  }

  lemma OpenBody(x: string, y: string)
    requires NoneIn(x, DELIMS)
    ensures Body(x + y) == x + Body(y)
  {
    assert forall i :: 0 <= i < |x| ==> x[i] in x;
    if Ended(y) {
      CSpanIs(x + y, DELIMS, |x| + CSpan(y, DELIMS));
      assert (x + y)[..|x| + CSpan(y, DELIMS) + 1] == x + y[..CSpan(y, DELIMS) + 1];
    } else {
      CSpanIs(x + y, DELIMS, |x + y|);
      assert (x + y)[..|x + y|] == x + y && y[..|y|] == y;
    }
  }

  lemma BodyHasText(y: string) returns (c: char)
    requires !AllIn(y, BLANKS)
    ensures c in Body(y) && c !in BLANKS
  {
    if Ended(y) {
      c := y[CSpan(y, DELIMS)];
      assert Body(y)[CSpan(y, DELIMS)] == c;
    } else {
      assert y[..|y|] == y;
      c :| c in y && c !in BLANKS;
    }
  }

  /** The edited sentence n of s' = CommitText(s, n, ops) reads back as ws, or what follows runs into it. */
  ghost predicate ReadsBack(s: string, n: int, s': string, ws: seq<string>) {
    && Locate(s', n).Place?
    && (Tokens(Sentence(s', n), BLANKS) == ws <==> EndsInDelim(ws) || AllIn(Remainder(s, n), BLANKS))
  }

  /** Finding and tokenising the edited sentence again yields exactly the edited words: if and only if
      they end in a delimiter or nothing but blanks follows. */
  lemma {:induction false} ReadBack(s: string, n: int, ops: seq<Write>)
    requires Locate(s, n).Place? && Readable(Edited(s, n, ops))
    ensures ReadsBack(s, n, CommitText(s, n, ops), Edited(s, n, ops))
    decreases if n < 0 then 0 else n
  {
    hide CommitText, Locate, Sentence, Rest, Body, Tail, Ended, Readable, ReadsBack, Split, Apply, Remainder;
    if n <= 0 {
      FirstReadsBack(s, n, ops);
    } else {
      LaterSplice(s, n, []);
      assert Edited(s, n, ops) == Edited(Rest(s), n - 1, ops);
      ReadBack(Rest(s), n - 1, ops);
      EditClean(s, n, ops);
      LaterReadsBack(s, n, ops, Edited(s, n, ops));
    }
  }

  lemma FirstReadsBack(s: string, n: int, ops: seq<Write>)
    requires n <= 0 && Readable(Edited(s, n, ops))
    ensures ReadsBack(s, n, CommitText(s, n, ops), Edited(s, n, ops))
  {
    hide CommitText, Locate, Body, Tail, Sentence, EndsInDelim, Readable, Split, Apply, Join, Tokens, Remainder;
    var ws := Edited(s, n, ops);
    assert Sentence(s, n) == Body(s) by { FirstSplice(s, n, []); }
    CommitFirst(s, n, ops);
    FirstRemainder(s, n);
    var s' := Join(ws) + Tail(s);
    FirstSentence(s', n);
    assert Sentence(s', n) == Body(s') by { FirstSplice(s', n, []); }
    FirstReadBack(Join(ws), Tail(s), ws);
  }

  lemma EditClean(s: string, n: int, ops: seq<Write>)
    requires n > 0 && Locate(Rest(s), n - 1).Place? && Readable(Edited(Rest(s), n - 1, ops))
    ensures Clean(CommitText(Rest(s), n - 1, ops))
  {
    hide CommitText, Locate, Rest, Body, Tail, Sentence, Clean, Readable, Split, Apply, Join;
    var r := Rest(s);
    RestClean(s);
    if n > 1 {
      CommitClean(r, n - 1, ops);
    } else {
      CommitFirst(r, n - 1, ops);
      assert Sentence(r, n - 1) == Body(r) by { FirstSplice(r, n - 1, []); }
      JoinReadable(Edited(r, n - 1, ops));
      CleanAppend(Join(Edited(r, n - 1, ops)), Tail(r));
    }
  }

  lemma LaterReadsBack(s: string, n: int, ops: seq<Write>, ws: seq<string>)
    requires n > 0 && Locate(s, n).Place? && Ended(s)
    requires Clean(CommitText(Rest(s), n - 1, ops))
    requires ReadsBack(Rest(s), n - 1, CommitText(Rest(s), n - 1, ops), ws)
    ensures ReadsBack(s, n, CommitText(s, n, ops), ws)
  {
    hide CommitText, Locate, Head, Rest, Sentence, Ended, Clean, EndsInDelim, Remainder, Tokens;
    var x := CommitText(Rest(s), n - 1, ops);
    CommitLater(s, n, ops);
    SentenceAfterHead(s, x, n);
    RemainderAfterHead(s, n);
  }

  lemma SentenceAfterHead(s: string, x: string, n: int)
    requires Ended(s) && n > 0 && Clean(x) && Locate(x, n - 1).Place?
    ensures Locate(Head(s) + x, n).Place? && Sentence(Head(s) + x, n) == Sentence(x, n - 1)
  {
    hide Locate, Head, Ended, Clean, Sentence, Splice, EndOf;
    var h := Head(s);
    HeadAgainPlace(s, x, n);
    assert (h + x)[|h|..] == x;
    SuffixSplice(h + x, |h|, x, n, n - 1, []);
  }

  lemma RemainderAfterHead(s: string, n: int)
    requires n > 0 && Locate(s, n).Place?
    ensures Remainder(s, n) == Remainder(Rest(s), n - 1)
  {
    hide Locate, Rest, EndOf;
    LaterSplice(s, n, []);
  }

  lemma FirstRemainder(s: string, n: int)
    requires n <= 0
    ensures Remainder(s, n) == Tail(s)
  {
  }
}
