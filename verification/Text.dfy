/** C strings are modelled as sequences of their characters before the terminator.
    This module holds the C library scans the servers are built from. */
module Text {
  datatype Option<+T> = None | Some(value: T)

  const DELIMS: set<char> := {'.', '?', '!'}
  const BLANKS: set<char> := {' ', '\n', '\t', '\r'}

  function SpanFrom(s: string, cs: set<char>, i: nat): (n: nat)
    requires i <= |s|
    ensures i <= n <= |s| && (forall j :: i <= j < n ==> s[j] in cs)
    ensures n < |s| ==> s[n] !in cs
    decreases |s| - i
  {
    if i == |s| || s[i] !in cs then i else SpanFrom(s, cs, i + 1)
  }

  /** strspn: the length of the longest prefix made of characters of cs. */
  function Span(s: string, cs: set<char>): (n: nat)
    ensures n <= |s| && (forall j :: 0 <= j < n ==> s[j] in cs)
    ensures n < |s| ==> s[n] !in cs
  {
    SpanFrom(s, cs, 0)
  }

  function CSpanFrom(s: string, cs: set<char>, i: nat): (n: nat)
    requires i <= |s|
    ensures i <= n <= |s| && (forall j :: i <= j < n ==> s[j] !in cs)
    ensures n < |s| ==> s[n] in cs
    decreases |s| - i
  {
    if i == |s| || s[i] in cs then i else CSpanFrom(s, cs, i + 1)
  }

  /** strcspn: the length of the longest prefix free of characters of cs.
      strpbrk finds a character exactly when this is less than |s|. */
  function CSpan(s: string, cs: set<char>): (n: nat)
    ensures n <= |s| && (forall j :: 0 <= j < n ==> s[j] !in cs)
    ensures n < |s| ==> s[n] in cs
  {
    CSpanFrom(s, cs, 0)
  }

  function Strip(s: string, cs: set<char>): (r: string)
    ensures |r| <= |s| && (r != [] ==> r[0] !in cs)
  {
    s[Span(s, cs)..]
  }

  predicate AllIn(s: string, cs: set<char>) { forall c :: c in s ==> c in cs }

  predicate NoneIn(s: string, cs: set<char>) { forall c :: c in s ==> c !in cs }

  /** The token strtok returns when its hidden cursor stands before s. */
  function Token(s: string, cs: set<char>): (r: Option<string>)
    ensures r.Some? ==> r.value != [] && NoneIn(r.value, cs)
    ensures r.None? <==> AllIn(s, cs)
  {
    var t := Strip(s, cs);
    if t == [] then None else Some(t[..CSpan(t, cs)])
  }

  /** What the hidden cursor stands before afterwards: strtok overwrites one separator. */
  function AfterToken(s: string, cs: set<char>): (r: string)
    ensures |r| <= |s| && (Token(s, cs).Some? ==> |r| + |Token(s, cs).value| <= |s|)
  {
    var t := Strip(s, cs);
    var k := CSpan(t, cs);
    if k < |t| then t[k + 1..] else []
  }

  /** All tokens strtok yields when called until it returns NULL. */
  function Tokens(s: string, cs: set<char>): seq<string>
    decreases |s|
  {
    match Token(s, cs)
    case None => []
    case Some(w) => [w] + Tokens(AfterToken(s, cs), cs)
  }

  /** strtok with its one hidden cursor, which every scan of the thread shares. */
  class Strtok {
    var rest: string

    constructor ()
      ensures rest == []
    {
      rest := [];
    }

    /** strtok(s, cs): restarts the cursor, forgetting any scan in progress. */
    method Start(s: string, cs: set<char>) returns (token: Option<string>)
      modifies this
      ensures token == Token(s, cs) && rest == AfterToken(s, cs)
    {
      rest := s;
      token := Next(cs);
    }

    /** strtok(NULL, cs): continues wherever the cursor was left. */
    method Next(cs: set<char>) returns (token: Option<string>)
      modifies this
      ensures token == Token(old(rest), cs) && rest == AfterToken(old(rest), cs)
    {
      var t := rest[Span(rest, cs)..];
      var k := CSpan(t, cs);
      rest := if k < |t| then t[k + 1..] else [];
      token := if t == [] then None else Some(t[..k]);
    }
  }

  lemma SpanIs(s: string, cs: set<char>, n: nat)
    requires n <= |s| && (forall i :: 0 <= i < n ==> s[i] in cs) && (n < |s| ==> s[n] !in cs)
    ensures Span(s, cs) == n
  {
  }

  lemma CSpanIs(s: string, cs: set<char>, n: nat)
    requires n <= |s| && (forall i :: 0 <= i < n ==> s[i] !in cs) && (n < |s| ==> s[n] in cs)
    ensures CSpan(s, cs) == n
  {
  }

  lemma TokenOfPrefix(w: string, sep: char, s: string, cs: set<char>)
    requires w != [] && NoneIn(w, cs) && sep in cs
    ensures Token(w + [sep] + s, cs) == Some(w) && AfterToken(w + [sep] + s, cs) == s
  {
    var x := w + [sep] + s;
    assert x[0] == w[0] && w[0] in w;
    assert Strip(x, cs) == x;
    assert forall i :: 0 <= i < |w| ==> x[i] == w[i] && w[i] in w;
    assert x[|w|] == sep;
    assert CSpan(x, cs) == |w|;
    assert x[..|w|] == w && x[|w| + 1..] == s;
  }

  lemma TokenOfWhole(w: string, cs: set<char>)
    requires w != [] && NoneIn(w, cs)
    ensures Token(w, cs) == Some(w) && AfterToken(w, cs) == []
  {
    assert w[0] in w;
    assert forall i :: 0 <= i < |w| ==> w[i] in w;
    assert CSpan(w, cs) == |w| && w[..|w|] == w;
  }

  lemma StripAppend(s: string, t: string, cs: set<char>)
    requires Strip(s, cs) != []
    ensures Strip(s + t, cs) == Strip(s, cs) + t
  {
    SpanIs(s + t, cs, Span(s, cs));
  }

  lemma TokenCut(x: string, t: string, cs: set<char>)
    requires x != [] && x[0] !in cs && AllIn(t, cs)
    ensures Token(x + t, cs) == Some(x[..CSpan(x, cs)])
    ensures AfterToken(x + t, cs)
      == if CSpan(x, cs) < |x| then x[CSpan(x, cs) + 1..] + t else if t == [] then [] else t[1..]
  {
    var k := CSpan(x, cs);
    SpanIs(x + t, cs, 0);
    assert Strip(x + t, cs) == x + t;
    assert forall i :: 0 <= i < |t| ==> t[i] in t;
    CSpanIs(x + t, cs, k);
    assert (x + t)[..k] == x[..k];
    if k < |x| { assert (x + t)[k + 1..] == x[k + 1..] + t; }
    else if t != [] { assert (x + t)[k + 1..] == t[1..]; }
  }

  lemma StripTwice(s: string, cs: set<char>)
    ensures Strip(s, cs) == [] ==> Token(s, cs).None?
    ensures Token(Strip(s, cs), cs) == Token(s, cs) && AfterToken(Strip(s, cs), cs) == AfterToken(s, cs)
  {
    SpanIs(Strip(s, cs), cs, 0);
    assert Strip(Strip(s, cs), cs) == Strip(s, cs);
  }

  /** Separators appended to the text change no token. */
  lemma TokenAppend(s: string, t: string, cs: set<char>) returns (t': string)
    requires AllIn(t, cs) && Token(s, cs).Some?
    ensures Token(s + t, cs) == Token(s, cs)
    ensures AllIn(t', cs) && AfterToken(s + t, cs) == AfterToken(s, cs) + t'
  {
    hide Strip, CSpan, Token, AfterToken, AllIn;
    var x := Strip(s, cs);
    StripTwice(s, cs);
    StripAppend(s, t, cs);
    StripTwice(s + t, cs);
    TokenCut(x, t, cs);
    TokenPlain(x, cs);
    t' := if CSpan(x, cs) < |x| || t == [] then t else t[1..];
    AllInRest(t, cs);
    EmptyFront(t, t');
  }

  lemma EmptyFront(t: string, t': string)
    ensures [] + t == t && [] + t' == t'
  {
  }

  lemma AllInRest(t: string, cs: set<char>)
    requires AllIn(t, cs)
    ensures t != [] ==> AllIn(t[1..], cs)
  {
    if t != [] { assert forall c :: c in t[1..] ==> c in t; }
  }

  lemma TokenPlain(x: string, cs: set<char>)
    requires x != [] && x[0] !in cs
    ensures Token(x, cs) == Some(x[..CSpan(x, cs)])
    ensures AfterToken(x, cs) == if CSpan(x, cs) < |x| then x[CSpan(x, cs) + 1..] else []
  {
    SpanIs(x, cs, 0);
  }

  lemma {:induction false} TokensTrailing(s: string, t: string, cs: set<char>)
    requires AllIn(t, cs)
    ensures Tokens(s + t, cs) == Tokens(s, cs)
    decreases |s|
  {
    if Token(s, cs).None? {
      assert AllIn(s + t, cs);
    } else {
      var t' := TokenAppend(s, t, cs);
      TokensTrailing(AfterToken(s, cs), t', cs);
    }
  }
}
