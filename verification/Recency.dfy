/** What an LRU cache of a given capacity holds, as a function of the lookups made. */
module Recency {
  const CACHE_SIZE := 16

  function Drop(s: seq<string>, k: string): seq<string> {
    if s == [] then [] else if s[0] == k then Drop(s[1..], k) else [s[0]] + Drop(s[1..], k)
  }

  /** One successful lookup of k: to the front if present, else inserted, evicting the last entry of a full cache. */
  function Touch(cache: seq<string>, k: string, cap: nat): seq<string>
    requires cap > 0
  {
    if k in cache then [k] + Drop(cache, k)
    else if |cache| >= cap then [k] + cache[..cap - 1]
    else [k] + cache
  }

  function TouchAll(trace: seq<string>, cap: nat): seq<string>
    requires cap > 0
  {
    if trace == [] then [] else Touch(TouchAll(trace[..|trace| - 1], cap), trace[|trace| - 1], cap)
  }

  /** The distinct names of the trace, the most recently looked up first. */
  function Mru(trace: seq<string>): seq<string> {
    if trace == [] then []
    else [trace[|trace| - 1]] + Drop(Mru(trace[..|trace| - 1]), trace[|trace| - 1])
  }

  function Take(s: seq<string>, n: nat): seq<string> { if |s| <= n then s else s[..n] }

  ghost predicate Distinct(s: seq<string>) { forall i, j :: 0 <= i < j < |s| ==> s[i] != s[j] }

  lemma {:induction false} DropFacts(s: seq<string>, k: string)
    ensures k !in Drop(s, k) && |Drop(s, k)| <= |s|
    ensures forall x :: x in Drop(s, k) <==> x in s && x != k
    ensures k !in s ==> Drop(s, k) == s
    ensures Distinct(s) ==> Distinct(Drop(s, k))
    ensures Distinct(s) && k in s ==> |Drop(s, k)| == |s| - 1
  {
    if s != [] {
      DropFacts(s[1..], k);
      assert s == [s[0]] + s[1..];
      if Distinct(s) {
        assert Distinct(s[1..]);
        assert s[0] !in s[1..];
      }
    }
  }

  lemma {:induction false} DropAppend(a: seq<string>, b: seq<string>, k: string)
    ensures Drop(a + b, k) == Drop(a, k) + Drop(b, k)
  {
    if a == [] {
      assert a + b == b;
    } else {
      DropAppend(a[1..], b, k);
      assert (a + b)[0] == a[0] && (a + b)[1..] == a[1..] + b;
      var x, y := Drop(a[1..], k), Drop(b, k);
      assert [a[0]] + (x + y) == ([a[0]] + x) + y;
    }
  }

  /** Truncating to the capacity commutes with a lookup. */
  lemma TouchTake(m: seq<string>, k: string, cap: nat)
    requires cap > 0 && Distinct(m)
    ensures Touch(Take(m, cap), k, cap) == Take([k] + Drop(m, k), cap)
  {
    hide Drop;
    var c := Take(m, cap);
    DropFacts(m, k);
    DropFacts(c, k);
    if |m| > cap {
      var rest := m[cap..];
      assert m == c + rest;
      DropAppend(c, rest, k);
      DropFacts(rest, k);
      if k in c {
        assert |Drop(c, k)| == cap - 1;
        assert ([k] + Drop(m, k))[..cap] == [k] + Drop(c, k);
      } else {
        assert Drop(m, k)[..cap - 1] == c[..cap - 1];
        assert ([k] + Drop(m, k))[..cap] == [k] + c[..cap - 1];
      }
    }
  }

  lemma {:induction false} MruFacts(trace: seq<string>)
    ensures Distinct(Mru(trace)) && forall x :: x in Mru(trace) <==> x in trace
  {
    if trace != [] {
      var r, k := trace[..|trace| - 1], trace[|trace| - 1];
      MruFacts(r);
      DropFacts(Mru(r), k);
      assert trace == r + [k];
    }
  }

  /** Over every run the cache is exactly the last `cap` distinct names looked up, most recent first. */
  lemma {:induction false} CacheIsMostRecent(trace: seq<string>, cap: nat)
    requires cap > 0
    ensures TouchAll(trace, cap) == Take(Mru(trace), cap)
  {
    if trace != [] {
      var r, k := trace[..|trace| - 1], trace[|trace| - 1];
      CacheIsMostRecent(r, cap);
      MruFacts(r);
      TouchTake(Mru(r), k, cap);
    }
  }

  function LastLookup(trace: seq<string>, k: string): (i: int)
    ensures -1 <= i < |trace| && (i >= 0 <==> k in trace)
    ensures i >= 0 ==> trace[i] == k && k !in trace[i + 1..]
  {
    if trace == [] then -1
    else if trace[|trace| - 1] == k then |trace| - 1
    else
      assert trace == trace[..|trace| - 1] + [trace[|trace| - 1]];
      var i := LastLookup(trace[..|trace| - 1], k);
      assert i >= 0 ==> trace[i + 1..] == trace[..|trace| - 1][i + 1..] + [trace[|trace| - 1]];
      i
  }

  ghost predicate Falling(s: seq<string>, trace: seq<string>) {
    forall i, j :: 0 <= i < j < |s| ==> LastLookup(trace, s[i]) > LastLookup(trace, s[j])
  }

  lemma FallingCons(x: string, s: seq<string>, trace: seq<string>)
    requires Falling(s, trace) && forall y :: y in s ==> LastLookup(trace, x) > LastLookup(trace, y)
    ensures Falling([x] + s, trace)
  {
    hide LastLookup;
  }

  lemma {:induction false} FallingDrop(s: seq<string>, k: string, trace: seq<string>)
    requires Falling(s, trace)
    ensures Falling(Drop(s, k), trace)
  {
    hide LastLookup;
    if s != [] {
      var d := Drop(s[1..], k);
      FallingDrop(s[1..], k, trace);
      DropFacts(s[1..], k);
      assert forall y :: y in s[1..] ==> LastLookup(trace, s[0]) > LastLookup(trace, y);
      FallingCons(s[0], d, trace);
    }
  }

  lemma FallingExtend(s: seq<string>, r: seq<string>, k: string)
    requires Falling(s, r) && k !in s
    ensures Falling(s, r + [k])
  {
    assert (r + [k])[..|r|] == r;
    assert forall y :: y != k ==> LastLookup(r + [k], y) == LastLookup(r, y);
    hide LastLookup;
    assert forall i :: 0 <= i < |s| ==> s[i] != k;
  }

  /** The order is that of the last lookups. */
  lemma {:induction false} MruOrder(trace: seq<string>)
    ensures Falling(Mru(trace), trace)
  {
    if trace != [] {
      var r, k := trace[..|trace| - 1], trace[|trace| - 1];
      assert trace == r + [k];
      MruOrder(r);
      var d := Drop(Mru(r), k);
      DropFacts(Mru(r), k);
      FallingDrop(Mru(r), k, r);
      FallingExtend(d, r, k);
      assert LastLookup(trace, k) == |r|;
      assert forall y :: y in d ==> LastLookup(trace, y) == LastLookup(r, y);
      hide LastLookup, Drop;
      FallingCons(k, d, trace);
    }
  }

  /** A smaller cache always holds a prefix of what a larger one holds. */
  lemma SmallerIsPrefix(trace: seq<string>, small: nat, large: nat)
    requires 0 < small <= large
    ensures TouchAll(trace, small) <= TouchAll(trace, large)
  {
    CacheIsMostRecent(trace, small);
    CacheIsMostRecent(trace, large);
  }

  ghost function Names(trace: seq<string>): set<string> { set x | x in trace }

  /** The names looked up after k, and no others, stand in front of it. */
  lemma {:induction false} MruAfter(earlier: seq<string>, k: string, later: seq<string>)
    requires k !in later
    ensures var m, n := Mru(earlier + [k] + later), |Names(later)|;
      n < |m| && m[n] == k && forall y :: y in m[..n] <==> y in later
    decreases |later|
  {
    if later == [] {
      assert earlier + [k] + later == earlier + [k] && (earlier + [k])[..|earlier|] == earlier;
      assert Names(later) == {};
    } else {
      var r, x := later[..|later| - 1], later[|later| - 1];
      assert later == r + [x];
      MruAfter(earlier, k, r);
      MruAfterOne(earlier + [k] + r, x, r, k);
      assert earlier + [k] + later == earlier + [k] + r + [x];
    }
  }

  lemma MruAfterOne(before: seq<string>, x: string, r: seq<string>, k: string)
    requires var m, n := Mru(before), |Names(r)|;
      n < |m| && m[n] == k && forall y :: y in m[..n] <==> y in r
    requires x != k
    ensures var m, n := Mru(before + [x]), |Names(r + [x])|;
      n < |m| && m[n] == k && forall y :: y in m[..n] <==> y in r + [x]
  {
    hide Mru, Drop, Names, Distinct;
    MruSnoc(before, x);
    NamesSnoc(r, x);
    MruFacts(before);
    DropAt(Mru(before), |Names(r)|, x);
  }

  lemma MruSnoc(before: seq<string>, x: string)
    ensures Mru(before + [x]) == [x] + Drop(Mru(before), x)
  {
    hide Drop;
    assert (before + [x])[..|before|] == before;
  }

  lemma NamesSnoc(r: seq<string>, x: string)
    ensures |Names(r + [x])| == if x in r then |Names(r)| else |Names(r)| + 1
  {
    assert Names(r + [x]) == Names(r) + {x};
    NamesGrow(r, x);
  }

  lemma NamesGrow(r: seq<string>, x: string)
    ensures |Names(r) + {x}| == if x in r then |Names(r)| else |Names(r)| + 1
  {
    if x in r { assert Names(r) + {x} == Names(r); }
  }

  lemma DropHead(b: seq<string>, x: string)
    requires b != [] && b[0] != x
    ensures Drop(b, x) != [] && Drop(b, x)[0] == b[0]
  {
  }

  /** Dropping x from a list whose element n is not x. */
  lemma DropAt(m: seq<string>, n: nat, x: string)
    requires n < |m| && Distinct(m) && m[n] != x
    ensures var d, n' := [x] + Drop(m, x), if x in m[..n] then n else n + 1;
      && |d| > n' && d[n'] == m[n]
      && forall y :: y in d[..n'] <==> y == x || y in m[..n]
  {
    hide Drop;
    var a, b := m[..n], m[n..];
    assert m == a + b && b[0] == m[n];
    DropAppend(a, b, x);
    DropFacts(a, x);
    DropHead(b, x);
    var front := [x] + Drop(a, x);
    assert [x] + Drop(m, x) == front + Drop(b, x);
    assert |front| == if x in a then n else n + 1;
    assert (front + Drop(b, x))[..|front|] == front;
  }

  /** An entry no longer looked up stays cached exactly until `cap` other names have been looked up. */
  lemma StaysUntilEvicted(earlier: seq<string>, k: string, later: seq<string>, cap: nat)
    requires cap > 0 && k !in later
    ensures k in TouchAll(earlier + [k] + later, cap) <==> |Names(later)| < cap
  {
    var trace := earlier + [k] + later;
    CacheIsMostRecent(trace, cap);
    MruAfter(earlier, k, later);
    MruFacts(trace);
    var m, n := Mru(trace), |Names(later)|;
    if n >= cap && |m| > cap { assert forall i :: 0 <= i < cap ==> m[i] != m[n]; }
    if n < cap { assert Take(m, cap)[n] == k; }
  }

  /** Every list of at most `cap` distinct names is what some lookups leave in the cache. */
  lemma {:induction false} TraceOf(c: seq<string>, cap: nat) returns (trace: seq<string>)
    requires cap > 0 && Distinct(c) && |c| <= cap
    ensures TouchAll(trace, cap) == c
  {
    trace := [];
    if c != [] {
      var earlier := TraceOf(c[1..], cap);
      trace := earlier + [c[0]];
      assert trace[..|earlier|] == earlier;
      assert c == [c[0]] + c[1..];
    }
  }
}
