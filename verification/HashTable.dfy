/** The chained hash table behind the file index and the cache lookup. */
module HashTable {
  import opened Text

  const HT_SIZE := 1024
  const TWO_64 := 0x1_0000_0000_0000_0000

  // ---- djb2 ----

  /** A char of the C program is signed. */
  function SignedChar(c: char): int {
    var b := c as int % 256;
    if b < 128 then b else b - 256
  }

  /** The base-33 polynomial djb2 stands for, over unbounded integers. */
  function Poly(s: string): int {
    if s == [] then 5381 else 33 * Poly(s[..|s| - 1]) + SignedChar(s[|s| - 1])
  }

  function Bucket(key: string): (b: nat)
    ensures b < HT_SIZE
  {
    Poly(key) % HT_SIZE
  }

  lemma WrapAgain(h: int, p: int, c: int)
    requires h == p % TWO_64
    ensures ((h * 32 % TWO_64 + h) % TWO_64 + c % TWO_64) % TWO_64 == (33 * p + c) % TWO_64
  {
    var q := p / TWO_64;
    assert p == q * TWO_64 + h;
    var m := 33 * h + c;
    var a := h * 32 / TWO_64;
    var b := (h * 32 % TWO_64 + h) / TWO_64;
    var e := c / TWO_64;
    var x := (h * 32 % TWO_64 + h) % TWO_64 + c % TWO_64;
    assert x == m - (a + b + e) * TWO_64;
    assert 33 * p + c == m + (33 * q) * TWO_64;
    ModShift(m, -(a + b + e));
    ModShift(m, 33 * q);
  }

  lemma ModShift(m: int, k: int)
    ensures (m + k * TWO_64) % TWO_64 == m % TWO_64
  {
    var y := m + k * TWO_64;
    assert y == (m / TWO_64 + k) * TWO_64 + m % TWO_64;
    DivUnique(y, m / TWO_64 + k, m % TWO_64);
  }

  lemma DivUnique(y: int, q: int, r: int)
    requires y == q * TWO_64 + r && 0 <= r < TWO_64
    ensures y % TWO_64 == r
  {
    assert y == (y / TWO_64) * TWO_64 + y % TWO_64;
  }

  lemma BucketOfWrapped(p: int)
    ensures p % TWO_64 % HT_SIZE == p % HT_SIZE
  {
    var r := p % TWO_64;
    assert p == (p / TWO_64) * TWO_64 + r;
    assert p == ((p / TWO_64) * (TWO_64 / HT_SIZE)) * HT_SIZE + r;
  }

  /** hash_function: the 64-bit wrapping loop picks the bucket of the unbounded polynomial. */
  method HashFunction(key: string) returns (index: nat)
    ensures index == Bucket(key)
  {
    var hash, i := 5381, 0;
    while i < |key|
      invariant 0 <= i <= |key|
      invariant hash == Poly(key[..i]) % TWO_64
    {
      assert key[..i + 1][..i] == key[..i];
      WrapAgain(hash, Poly(key[..i]), SignedChar(key[i]));
      hash := ((hash * 32 % TWO_64 + hash) % TWO_64 + SignedChar(key[i]) % TWO_64) % TWO_64;
      i := i + 1;
    }
    assert key[..|key|] == key;
    BucketOfWrapped(Poly(key));
    index := hash % HT_SIZE;
  }

  lemma ModTimes(p: int, c: int)
    ensures (33 * p + c) % 1024 == (33 * (p % 1024) + c) % 1024
  {
    var q, r := p / 1024, p % 1024;
    var y, z := 33 * p + c, 33 * r + c;
    assert p == q * 1024 + r;
    assert y == z + (33 * q) * 1024;
    assert y == (z / 1024 + 33 * q) * 1024 + z % 1024;
  }

  /** The buckets of all keys, from the empty key on: 5381, then 33 times the last plus the signed character. */
  lemma BucketStep(key: string, c: char)
    ensures Bucket("") == 5381 % 1024
    ensures var b := c as int % 256;
      Bucket(key + [c]) == (33 * Bucket(key) + if b < 128 then b else b - 256) % 1024
  {
    assert (key + [c])[..|key|] == key;
    ModTimes(Poly(key), SignedChar(c));
  }

  // ---- Chains ----

  class Item<V> {
    const key: string
    const value: V
    var next: Item?<V>

    constructor (key: string, value: V, next: Item?<V>)
      ensures this.key == key && this.value == value && this.next == next
    {
      this.key, this.value, this.next := key, value, next;
    }
  }

  /** The values stored under key, newest first. Keys and values of items never change. */
  ghost function ValuesOf<V>(chain: seq<Item<V>>, key: string): seq<V> {
    if chain == [] then []
    else (if chain[0].key == key then [chain[0].value] else []) + ValuesOf(chain[1..], key)
  }

  ghost function Successor<V>(chain: seq<Item<V>>, i: int): Item?<V> {
    if 0 <= i + 1 < |chain| then chain[i + 1] else null
  }

  ghost function Pop<V>(s: seq<V>): seq<V> { if s == [] then [] else s[1..] }

  lemma {:induction false} ValuesSkip<V>(chain: seq<Item<V>>, key: string, i: nat)
    requires i <= |chain| && forall j :: 0 <= j < i ==> chain[j].key != key
    ensures ValuesOf(chain, key) == ValuesOf(chain[i..], key)
    decreases i
  {
    if i == 0 {
      assert chain[0..] == chain;
    } else {
      ValuesSkip(chain[1..], key, i - 1);
      assert chain[1..][i - 1..] == chain[i..];
    }
  }

  /** Unlinking the first item of a key pops that key's values and no other's. */
  lemma {:induction false} ValuesUnlink<V>(chain: seq<Item<V>>, i: nat, k: string)
    requires i < |chain| && forall j :: 0 <= j < i ==> chain[j].key != chain[i].key
    ensures ValuesOf(chain[..i] + chain[i + 1..], k)
      == if k == chain[i].key then Pop(ValuesOf(chain, k)) else ValuesOf(chain, k)
    decreases i
  {
    var cut := chain[..i] + chain[i + 1..];
    if i == 0 {
      assert cut == chain[1..];
    } else {
      ValuesUnlink(chain[1..], i - 1, k);
      assert cut[0] == chain[0] && cut[1..] == chain[1..][..i - 1] + chain[1..][i..];
    }
  }

  class Table<V> {
    const buckets: array<Item?<V>>
    ghost var chains: seq<seq<Item<V>>>
    ghost var Repr: set<object>

    ghost predicate Members(b: nat)
      requires b < |chains|
      reads this
    {
      && (forall i :: 0 <= i < |chains[b]| ==> chains[b][i] in Repr && Bucket(chains[b][i].key) == b)
      && (forall i, j :: 0 <= i < j < |chains[b]| ==> chains[b][i] != chains[b][j])
    }

    ghost predicate Links(b: nat)
      requires b < |chains| && b < buckets.Length && Members(b)
      reads this, Repr, buckets
    {
      && buckets[b] == Successor(chains[b], -1)
      && (forall i :: 0 <= i < |chains[b]| ==> chains[b][i].next == Successor(chains[b], i))
    }

    ghost predicate Valid()
      reads this, Repr
      ensures Valid() ==> this in Repr && buckets in Repr
    {
      && this in Repr && buckets in Repr
      && |chains| == HT_SIZE == buckets.Length
      && (forall b :: 0 <= b < HT_SIZE ==> Members(b))
      && (forall b :: 0 <= b < HT_SIZE ==> Links(b))
    }

    /** The abstract value: a stack of values for every key. */
    ghost function Stack(key: string): seq<V>
      requires Valid()
      reads this, Repr
    {
      ValuesOf(chains[Bucket(key)], key)
    }

    constructor ()
      ensures Valid() && fresh(Repr)
      ensures forall k :: Stack(k) == []
    {
      buckets := new Item?<V>[HT_SIZE](_ => null);
      chains := seq(HT_SIZE, _ => []);
      new;
      Repr := {this, buckets};
    }

    method Insert(key: string, value: V)
      requires Valid()
      modifies this, buckets
      ensures Valid() && fresh(Repr - old(Repr)) && old(Repr) <= Repr
      ensures forall k :: Stack(k) == if k == key then [value] + old(Stack(k)) else old(Stack(k))
    {
      var index := HashFunction(key);
      assert Members(index) && Links(index);
      var item := new Item(key, value, buckets[index]);
      ghost var chain := chains[index];
      Prepend(index, item);
      assert ([item] + chain)[1..] == chain;
    }

    method Prepend(index: nat, item: Item<V>)
      requires Valid() && index < HT_SIZE && item !in Repr && Bucket(item.key) == index
      requires item.next == buckets[index]
      modifies buckets, this`chains, this`Repr
      ensures Valid() && Repr == old(Repr) + {item}
      ensures chains == old(chains)[index := [item] + old(chains)[index]]
    {
      hide Bucket;
      ghost var chain := chains[index];
      ghost var grown := [item] + chain;
      assert Members(index) && Links(index);
      buckets[index] := item;
      Repr := Repr + {item};
      chains := chains[index := grown];
      forall b | 0 <= b < HT_SIZE ensures Members(b) { assert old(Members(b)); }
      forall b | 0 <= b < HT_SIZE ensures Links(b) {
        assert old(Links(b));
        if b == index { SuccessorPrepend(item, chain); }
      }
    }

    method Search(key: string) returns (value: Option<V>)
      requires Valid()
      ensures value == if Stack(key) == [] then None else Some(Stack(key)[0])
    {
      var index := HashFunction(key);
      assert Members(index) && Links(index);
      var current := buckets[index];
      ghost var chain, i := chains[index], 0;
      while current != null
        invariant 0 <= i <= |chain|
        invariant current == if i < |chain| then chain[i] else null
        invariant forall j :: 0 <= j < i ==> chain[j].key != key
        decreases |chain| - i
      {
        if current.key == key {
          ValuesSkip(chain, key, i);
          return Some(current.value);
        }
        NextInChain(index, i);
        current := current.next;
        i := i + 1;
      }
      ValuesSkip(chain, key, i);
      value := None;
    }

    method Delete(key: string)
      requires Valid()
      modifies Repr
      ensures Valid() && Repr == old(Repr)
      ensures forall k :: Stack(k) == if k == key then Pop(old(Stack(k))) else old(Stack(k))
    {
      var index := HashFunction(key);
      assert Members(index) && Links(index);
      var current := buckets[index];
      var prev: Item?<V> := null;
      ghost var chain, i := chains[index], 0;
      while current != null
        invariant 0 <= i <= |chain|
        invariant current == if i < |chain| then chain[i] else null
        invariant prev == if i == 0 then null else chain[i - 1]
        invariant Valid() && Repr == old(Repr) && chain == chains[index]
        invariant forall k :: Stack(k) == old(Stack(k))
        invariant forall j :: 0 <= j < i ==> chain[j].key != key
        decreases |chain| - i
      {
        if current.key == key {
          Unlink(index, i, prev, current);
          return;
        }
        NextInChain(index, i);
        prev := current;
        current := current.next;
        i := i + 1;
      }
      ValuesSkip(chain, key, i);
    }

    lemma NextInChain(b: nat, i: nat)
      requires Valid() && b < HT_SIZE && i < |chains[b]|
      ensures chains[b][i].next == Successor(chains[b], i)
      ensures chains[b][i] in Repr && Bucket(chains[b][i].key) == b
    {
      assert Members(b) && Links(b);
    }

    method Unlink(index: nat, ghost i: nat, prev: Item?<V>, current: Item<V>)
      requires Valid() && index < HT_SIZE && i < |chains[index]| && current == chains[index][i]
      requires prev == if i == 0 then null else chains[index][i - 1]
      requires forall j :: 0 <= j < i ==> chains[index][j].key != current.key
      modifies Repr
      ensures Valid() && Repr == old(Repr)
      ensures forall k :: Stack(k) == if k == current.key then Pop(old(Stack(k))) else old(Stack(k))
    {
      ghost var chain := chains[index];
      ghost var cut := chain[..i] + chain[i + 1..];
      CutLinks(chain, i);
      assert Members(index) && Links(index);
      if prev != null {
        RelinkAfter(index, i, prev, current, cut);
      } else {
        RelinkHead(index, current, cut);
      }
      forall k ensures Stack(k) == if k == current.key then Pop(old(Stack(k))) else old(Stack(k)) {
        ValuesUnlink(chain, i, k);
        assert old(Members(index));
      }
    }

    /** The pointer update for an item behind another. */
    method RelinkAfter(index: nat, ghost i: nat, prev: Item<V>, current: Item<V>, ghost cut: seq<Item<V>>)
      requires Valid() && index < HT_SIZE && 0 < i < |chains[index]|
      requires current == chains[index][i] && prev == chains[index][i - 1]
      requires Without(chains[index], i, cut)
      modifies prev, this`chains
      ensures Valid() && chains == old(chains)[index := cut]
    {
      hide Bucket, Successor;
      ghost var chain := chains[index];
      assert Members(index) && Links(index);
      prev.next := current.next;
      chains := chains[index := cut];
      forall b | 0 <= b < HT_SIZE ensures Members(b) { assert old(Members(b)); }
      forall b | 0 <= b < HT_SIZE ensures Links(b) {
        assert old(Members(b)) && old(Links(b));
        if b == index {
          SuccessorWithout(chain, i, cut);
        } else {
          assert Bucket(prev.key) == index;
        }
      }
    }

    /** The bucket update for the first item of a chain. */
    method RelinkHead(index: nat, current: Item<V>, ghost cut: seq<Item<V>>)
      requires Valid() && index < HT_SIZE && chains[index] != [] && current == chains[index][0]
      requires Without(chains[index], 0, cut)
      modifies buckets, this`chains
      ensures Valid() && chains == old(chains)[index := cut]
    {
      hide Bucket, Successor;
      ghost var chain := chains[index];
      assert Members(index) && Links(index);
      buckets[index] := current.next;
      chains := chains[index := cut];
      forall b | 0 <= b < HT_SIZE ensures Members(b) { assert old(Members(b)); }
      forall b | 0 <= b < HT_SIZE ensures Links(b) {
        assert old(Links(b));
        if b == index { SuccessorWithout(chain, 0, cut); }
      }
    }
  }

  /** cut is chain without element i. */
  ghost predicate Without<V>(chain: seq<V>, i: nat, cut: seq<V>)
    requires i < |chain|
  {
    |cut| == |chain| - 1 && forall j :: 0 <= j < |cut| ==> cut[j] == chain[if j < i then j else j + 1]
  }

  lemma SuccessorWithout<V>(chain: seq<Item<V>>, i: nat, cut: seq<Item<V>>)
    requires i < |chain| && Without(chain, i, cut)
    ensures forall j :: -1 <= j < |cut| ==>
      Successor(cut, j) == if j + 1 == i then Successor(chain, i) else Successor(chain, if j < i then j else j + 1)
  {
  }

  lemma SuccessorPrepend<V>(item: Item<V>, chain: seq<Item<V>>)
    ensures forall j :: -1 <= j <= |chain| ==>
      Successor([item] + chain, j) == if j == -1 then item else Successor(chain, j - 1)
  {
  }

  lemma CutLinks<V>(chain: seq<V>, i: nat)
    requires i < |chain|
    ensures Without(chain, i, chain[..i] + chain[i + 1..])
  {
  }
}
