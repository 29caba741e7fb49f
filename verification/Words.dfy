/** The words of one sentence: tokenising, applying a session's buffered writes, rejoining. */
module Words {
  import opened Text

  const WORD_CAP := 512

  /** One WRITE_DATA command. */
  datatype Write = Write(index: int, content: string)

  // ---- The three stages of commit_changes on a sentence ----

  /** strtok stops after WORD_CAP words. */
  function Split(sentence: string): (ws: seq<string>)
    ensures |ws| <= WORD_CAP
  {
    var ws := Tokens(sentence, BLANKS);
    if |ws| <= WORD_CAP then ws else ws[..WORD_CAP]
  }

  function ApplyOne(words: seq<string>, op: Write): seq<string> {
    if 0 <= op.index < |words| then words[op.index := op.content]
    else if op.index == |words| && |words| < WORD_CAP then words + [op.content]
    else words
  }

  /** The buffered list is newest first and is applied from its head. */
  function Apply(words: seq<string>, ops: seq<Write>): seq<string>
    decreases |ops|
  {
    if ops == [] then words else Apply(ApplyOne(words, ops[0]), ops[1..])
  }

  predicate LoneDelim(w: string) { |w| <= 1 && exists c :: c in w && c in DELIMS }

  /** A space goes before every word but the first, unless the word is a lone delimiter. */
  function Join(ws: seq<string>): string {
    if ws == [] then []
    else if |ws| == 1 then ws[0]
    else ws[0] + (if LoneDelim(ws[1]) then [] else [' ']) + Join(ws[1..])
  }

  function Rewrite(sentence: string, ops: seq<Write>): string {
    Join(Apply(Split(sentence), ops))
  }

  // ---- The loops of commit_changes ----

  method SplitWords(sentence: string) returns (words: array<string>, count: nat)
    ensures fresh(words) && words.Length == WORD_CAP && count <= WORD_CAP
    ensures words[..count] == Split(sentence)
  {
    hide Token, AfterToken, Tokens, Split;
    words := new string[WORD_CAP];
    count := 0;
    ghost var left := sentence;
    if |sentence| > 0 {
      var scan := new Strtok();
      var word := scan.Start(sentence, BLANKS);
      while word.Some? && count < WORD_CAP
        invariant count <= WORD_CAP && words.Length == WORD_CAP && fresh(words) && fresh(scan)
        invariant word == Token(left, BLANKS) && scan.rest == AfterToken(left, BLANKS)
        invariant Tokens(sentence, BLANKS) == words[..count] + Tokens(left, BLANKS)
        decreases WORD_CAP - count
      {
        ghost var before := words[..count];
        words[count] := word.value;
        NextWord(before, left);
        assert words[..count + 1] == before + [word.value];
        left := scan.rest;
        word := scan.Next(BLANKS);
        count := count + 1;
      }
    }
    SplitIs(sentence, words[..count], left);
  }

  lemma NextWord(before: seq<string>, left: string)
    requires Token(left, BLANKS).Some?
    ensures before + Tokens(left, BLANKS)
      == before + [Token(left, BLANKS).value] + Tokens(AfterToken(left, BLANKS), BLANKS)
  {
    hide Token, AfterToken;
  }

  lemma SplitIs(sentence: string, ws: seq<string>, left: string)
    requires |ws| <= WORD_CAP && Tokens(sentence, BLANKS) == ws + Tokens(left, BLANKS)
    requires |ws| == WORD_CAP || left == [] || Token(left, BLANKS).None?
    ensures ws == Split(sentence)
  {
    hide AfterToken;
    if |ws| < WORD_CAP { assert Token(left, BLANKS).None? by { assert left == [] ==> AllIn(left, BLANKS); } }
  }

  method ApplyWrites(words: array<string>, start: nat, ops: seq<Write>) returns (count: nat)
    requires words.Length == WORD_CAP && start <= WORD_CAP
    modifies words
    ensures count <= WORD_CAP && words[..count] == Apply(old(words[..start]), ops)
  {
    count := start;
    var current := 0;
    while current < |ops|
      invariant 0 <= current <= |ops| && count <= WORD_CAP
      invariant Apply(words[..count], ops[current..]) == Apply(old(words[..start]), ops)
    {
      var op := ops[current];
      ghost var before := words[..count];
      if op.index >= 0 && op.index < count {
        words[op.index] := op.content;
      } else if op.index == count && count < WORD_CAP {
        words[count] := op.content;
        count := count + 1;
      }
      assert words[..count] == ApplyOne(before, op);
      assert ops[current..][1..] == ops[current + 1..];
      current := current + 1;
    }
  }

  method JoinWords(words: array<string>, count: nat) returns (text: string)
    requires count <= words.Length
    ensures text == Join(words[..count])
  {
    hide Join, CSpan;
    text := "";
    var i := 0;
    assert words[0..count] == words[..count];
    while i < count
      invariant 0 <= i <= count
      invariant text + Join(words[i..count]) == Join(words[..count])
    {
      ghost var left := words[i..count];
      JoinUnfold(left);
      assert left[1..] == words[i + 1..count];
      text := text + words[i];
      if i < count - 1 {
        SpanMeansNone(words[i + 1]);
        if |words[i + 1]| > 1 || CSpan(words[i + 1], DELIMS) == |words[i + 1]| {
          text := text + " ";
        }
      }
      i := i + 1;
    }
    assert words[i..count] == [];
    JoinNothing();
  }

  lemma JoinNothing()
    ensures Join([]) == []
  {
  }

  lemma JoinUnfold(ws: seq<string>)
    requires ws != []
    ensures Join(ws) == ws[0] + (if |ws| == 1 || LoneDelim(ws[1]) then [] else [' ']) + Join(ws[1..])
  {
    if |ws| == 1 { assert Join(ws[1..]) == []; }
  }

  lemma LoneMeans(w: string)
    ensures LoneDelim(w) <==> w in {".", "?", "!"}
  {
    if |w| == 1 {
      assert w == [w[0]] && w[0] in w;
      assert forall c :: c in w ==> c == w[0];
    }
    assert '.' in "." && '?' in "?" && '!' in "!";
  }

  /** Between two words goes one space, and none in front of a word that is a lone ".", "?" or "!". */
  lemma JoinSpacing(a: string, b: string, rest: seq<string>)
    ensures Join([a, b] + rest) == a + (if b in {".", "?", "!"} then "" else " ") + Join([b] + rest)
    ensures Join([a]) == a && Join([]) == ""
  {
    hide LoneDelim, Join;
    LoneMeans(b);
    JoinUnfold([a, b] + rest);
    assert ([a, b] + rest)[1..] == [b] + rest;
    JoinUnfold([a]);
    JoinNothing();
    assert [a][1..] == [] && a + [] + [] == a;
  }

  /** So a lone delimiter appended to the words comes directly behind the last of them. */
  lemma {:induction false} JoinAppended(ws: seq<string>, w: string)
    requires ws != []
    ensures Join(ws + [w]) == Join(ws) + (if w in {".", "?", "!"} then "" else " ") + w
    decreases |ws|
  {
    hide Join;
    if |ws| == 1 {
      JoinSpacing(ws[0], w, []);
      assert ws == [ws[0]] && ws + [w] == [ws[0], w] + [] && [w] + [] == [w];
      JoinSpacing(w, "", []);
    } else {
      var rest := ws[2..];
      assert ws == [ws[0], ws[1]] + rest && ws[1..] == [ws[1]] + rest;
      assert ws + [w] == [ws[0], ws[1]] + (rest + [w]) && ws[1..] + [w] == [ws[1]] + (rest + [w]);
      JoinSpacing(ws[0], ws[1], rest);
      JoinSpacing(ws[0], ws[1], rest + [w]);
      JoinAppended(ws[1..], w);
    }
  }

  lemma SpanMeansNone(w: string)
    ensures CSpan(w, DELIMS) < |w| <==> exists c :: c in w && c in DELIMS
  {
    if CSpan(w, DELIMS) < |w| { assert w[CSpan(w, DELIMS)] in w; }
  }

  // ---- The word count and which write wins ----

  lemma {:induction false} ApplySnoc(words: seq<string>, ops: seq<Write>, op: Write)
    ensures Apply(words, ops + [op]) == ApplyOne(Apply(words, ops), op)
    decreases |ops|
  {
    if ops == [] {
      assert Apply(words, [op]) == Apply(ApplyOne(words, op), []);
    } else {
      assert (ops + [op])[0] == ops[0] && (ops + [op])[1..] == ops[1..] + [op];
      ApplySnoc(ApplyOne(words, ops[0]), ops[1..], op);
    }
  }

  lemma {:induction false} ApplyGrows(words: seq<string>, ops: seq<Write>)
    requires |words| <= WORD_CAP
    ensures |words| <= |Apply(words, ops)| <= WORD_CAP
    decreases |ops|
  {
    if ops != [] { ApplyGrows(ApplyOne(words, ops[0]), ops[1..]); }
  }

  /** The write to word i that the client sent first: the last one of the newest-first list. */
  function FirstSent(ops: seq<Write>, i: int): Option<string>
    decreases |ops|
  {
    if ops == [] then None
    else if ops[|ops| - 1].index == i then Some(ops[|ops| - 1].content)
    else FirstSent(ops[..|ops| - 1], i)
  }

  /** Whatever word survives at i, it is the one the client sent first for i, if it sent any. */
  lemma {:induction false} FirstWriteWins(words: seq<string>, ops: seq<Write>, i: nat)
    requires i < |Apply(words, ops)|
    ensures FirstSent(ops, i).Some? ==> Apply(words, ops)[i] == FirstSent(ops, i).value
    ensures FirstSent(ops, i).None? ==> i < |words| && Apply(words, ops)[i] == words[i]
    decreases |ops|
  {
    if ops != [] {
      var k := |ops| - 1;
      assert ops == ops[..k] + [ops[k]];
      ApplySnoc(words, ops[..k], ops[k]);
      if i < |Apply(words, ops[..k])| { FirstWriteWins(words, ops[..k], i); }
    }
  }

  /** Appends sent in ascending order arrive newest first, so only the lowest one takes effect. */
  lemma {:induction false} AscendingAppends(words: seq<string>, ops: seq<Write>)
    requires ops != [] && |words| < WORD_CAP
    requires forall j :: 0 <= j < |ops| ==> ops[j].index == |words| + |ops| - 1 - j
    ensures Apply(words, ops) == words + [ops[|ops| - 1].content]
    decreases |ops|
  {
    if |ops| > 1 {
      assert ApplyOne(words, ops[0]) == words;
      AscendingAppends(words, ops[1..]);
    } else {
      assert Apply(words, ops) == Apply(ApplyOne(words, ops[0]), []);
    }
  }

  /** Sent in descending order they all do. */
  lemma {:induction false} DescendingAppends(words: seq<string>, ops: seq<Write>)
    requires |words| + |ops| <= WORD_CAP
    requires forall j :: 0 <= j < |ops| ==> ops[j].index == |words| + j
    ensures Apply(words, ops) == words + seq(|ops|, j requires 0 <= j < |ops| => ops[j].content)
    decreases |ops|
  {
    if ops != [] {
      var next := words + [ops[0].content];
      assert ApplyOne(words, ops[0]) == next;
      DescendingAppends(next, ops[1..]);
    }
  }

  lemma {:induction false} ApplyAtMost(words: seq<string>, ops: seq<Write>)
    ensures |Apply(words, ops)| <= |words| + |ops|
    decreases |ops|
  {
    if ops != [] { ApplyAtMost(ApplyOne(words, ops[0]), ops[1..]); }
  }

  /** Every write of a session adds a word exactly when, newest first, they name the next free indices in order. */
  lemma {:induction false} AllAppend(words: seq<string>, ops: seq<Write>)
    requires |words| <= WORD_CAP
    ensures |Apply(words, ops)| == |words| + |ops|
            <==> |words| + |ops| <= WORD_CAP && forall j :: 0 <= j < |ops| ==> ops[j].index == |words| + j
    decreases |ops|
  {
    ApplyGrows(words, ops);
    if ops != [] && |words| + |ops| <= WORD_CAP {
      var next := ApplyOne(words, ops[0]);
      ApplyAtMost(next, ops[1..]);
      if ops[0].index == |words| {
        AllAppend(next, ops[1..]);
        assert forall j :: 0 < j < |ops| ==> ops[1..][j - 1] == ops[j];
        assert forall j :: 0 <= j < |ops[1..]| ==> ops[1..][j] == ops[j + 1];
      }
    }
  }

  // ---- Rejoining and tokenising again ----

  /** Words as strtok yields them. */
  ghost predicate Plain(ws: seq<string>) {
    forall i :: 0 <= i < |ws| ==> ws[i] != [] && NoneIn(ws[i], BLANKS)
  }

  ghost predicate NoLoneAfterFirst(ws: seq<string>) {
    forall i :: 0 < i < |ws| ==> !LoneDelim(ws[i])
  }

  lemma {:induction false} TokensPlain(s: string)
    ensures Plain(Tokens(s, BLANKS))
    decreases |s|
  {
    if Token(s, BLANKS).Some? { TokensPlain(AfterToken(s, BLANKS)); }
  }

  lemma {:induction false} JoinThenTokens(ws: seq<string>)
    requires Plain(ws) && NoLoneAfterFirst(ws)
    ensures Tokens(Join(ws), BLANKS) == ws
    decreases |ws|
  {
    hide Token, AfterToken, LoneDelim;
    if |ws| == 1 {
      TokenOfWhole(ws[0], BLANKS);
      assert Tokens([], BLANKS) == [] by { assert AllIn([], BLANKS); }
    } else if |ws| > 1 {
      assert !LoneDelim(ws[1]);
      JoinThenTokens(ws[1..]);
      TokenOfPrefix(ws[0], ' ', Join(ws[1..]), BLANKS);
    } else {
      assert AllIn([], BLANKS);
    }
  }

  /** Rejoining glues each lone delimiter to the word before it. */
  ghost function Glue(ws: seq<string>): seq<string>
    decreases |ws|
  {
    if |ws| < 2 then ws
    else if LoneDelim(ws[1]) then Glue([ws[0] + ws[1]] + ws[2..])
    else [ws[0]] + Glue(ws[1..])
  }

  lemma {:induction false} GlueFacts(ws: seq<string>)
    requires Plain(ws)
    ensures Plain(Glue(ws)) && NoLoneAfterFirst(Glue(ws)) && Join(Glue(ws)) == Join(ws)
    ensures |Glue(ws)| <= |ws|
    ensures ws != [] ==> Glue(ws) != [] && |Glue(ws)[0]| >= |ws[0]|
    ensures ws != [] && |Glue(ws)[0]| == |ws[0]| ==> Glue(ws)[0] == ws[0]
    decreases |ws|
  {
    if |ws| < 2 {
    } else if LoneDelim(ws[1]) {
      var glued := [ws[0] + ws[1]] + ws[2..];
      assert glued[1..] == ws[1..][1..] == ws[2..];
      GlueFacts(glued);
    } else {
      GlueFacts(ws[1..]);
      var g := Glue(ws[1..]);
      assert Glue(ws)[1..] == g;
      assert !LoneDelim(g[0]);
    }
  }

  lemma RejoinNormal(ws: seq<string>)
    requires Plain(ws)
    ensures Tokens(Join(ws), BLANKS) == Glue(ws) && Join(Tokens(Join(ws), BLANKS)) == Join(ws)
    ensures |Tokens(Join(ws), BLANKS)| <= |ws|
  {
    GlueFacts(ws);
    JoinThenTokens(Glue(ws));
  }
}
