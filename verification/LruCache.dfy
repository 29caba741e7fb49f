/** The cache in front of the file index: a doubly linked list, most recently used first, with its own lookup table. */
module LruCache {
  import opened Text
  import opened Recency
  import H = HashTable

  class Node<V> {
    const key: string
    const value: V
    var prev: Node?<V>
    var next: Node?<V>

    constructor (key: string, value: V)
      ensures this.key == key && this.value == value
    {
      this.key, this.value := key, value;
      prev, next := null, null;
    }
  }

  ghost function At<V>(nodes: seq<Node<V>>, i: int): Node?<V> { if 0 <= i < |nodes| then nodes[i] else null }

  /** The names cached, most recently used first. Keys of nodes never change. */
  ghost function Keys<V>(nodes: seq<Node<V>>): (ks: seq<string>)
    ensures |ks| == |nodes| && forall i :: 0 <= i < |ks| ==> ks[i] == nodes[i].key
  {
    seq(|nodes|, i requires 0 <= i < |nodes| => nodes[i].key)
  }

  ghost function Remove<T>(s: seq<T>, i: nat): seq<T>
    requires i < |s|
  {
    s[..i] + s[i + 1..]
  }

  lemma AtIs<V>(s: seq<Node<V>>, i: int)
    ensures At(s, i) == null <==> !(0 <= i < |s|)
    ensures 0 <= i < |s| ==> At(s, i) == s[i]
  {
  }

  lemma AtRemove<V>(s: seq<Node<V>>, i: nat)
    requires i < |s|
    ensures |Remove(s, i)| == |s| - 1
    ensures forall j :: 0 <= j < |s| - 1 ==> Remove(s, i)[j] == s[if j < i then j else j + 1]
    ensures forall j {:trigger At(Remove(s, i), j)} :: At(Remove(s, i), j) == if j < i then At(s, j) else At(s, j + 1)
    ensures forall x :: x in Remove(s, i) ==> x in s
  {
  }

  lemma AtPrepend<V>(x: Node<V>, s: seq<Node<V>>)
    ensures forall j {:trigger At([x] + s, j)} :: At([x] + s, j) == if j == 0 then x else At(s, j - 1)
  {
  }

  ghost predicate Different<T>(s: seq<T>) { forall i, j :: 0 <= i < j < |s| ==> s[i] != s[j] }

  lemma OnlyAt<T>(s: seq<T>, i: int)
    requires Different(s)
    ensures 0 <= i < |s| ==> forall j :: 0 <= j < |s| && j != i ==> s[j] != s[i]
  {
  }

  lemma KeysPrepend<V>(node: Node<V>, s: seq<Node<V>>)
    ensures Keys([node] + s) == [node.key] + Keys(s) && ([node] + s)[1..] == s
  {
  }

  class Cache<V> {
    var size: int
    var head: Node?<V>
    var tail: Node?<V>
    const lookup: H.Table<Node<V>>
    ghost var nodes: seq<Node<V>>

    ghost predicate Forward(s: seq<Node<V>>)
      reads `head, s
    {
      head == At(s, 0) && forall i :: 0 <= i < |s| ==> s[i].next == At(s, i + 1)
    }

    ghost predicate Backward(s: seq<Node<V>>)
      reads `tail, s
    {
      tail == At(s, |s| - 1) && forall i :: 0 <= i < |s| ==> s[i].prev == At(s, i - 1)
    }

    /** The doubly linked list is nodes, forwards and backwards. */
    ghost predicate Linked()
      reads `head, `tail, `nodes, nodes
    {
      Forward(nodes) && Backward(nodes) && Different(nodes)
    }

    /** The lookup table holds exactly the nodes of s, each under its key. */
    ghost predicate Indexed(s: seq<Node<V>>)
      reads lookup, lookup.Repr
    {
      && lookup.Valid()
      && (forall i :: 0 <= i < |s| ==> lookup.Stack(s[i].key) == [s[i]])
      && (forall k :: lookup.Stack(k) != [] ==> lookup.Stack(k)[0] in s && lookup.Stack(k)[0].key == k)
    }

    /** The list and the lookup table share no object. */
    ghost predicate Apart()
      reads `nodes, lookup
    {
      this !in lookup.Repr && forall i :: 0 <= i < |nodes| ==> nodes[i] !in lookup.Repr
    }

    ghost predicate Valid()
      reads this, lookup, lookup.Repr, nodes
    {
      && Linked() && Indexed(nodes)
      && size == |nodes| <= CACHE_SIZE
      && Apart()
    }

    /** lru_init. */
    constructor ()
      ensures Valid() && nodes == [] && fresh(lookup) && fresh(lookup.Repr)
    {
      size, head, tail := 0, null, null;
      lookup := new H.Table();
      nodes := [];
    }

    method DetachNode(node: Node<V>, ghost i: nat)
      requires Linked() && i < |nodes| && nodes[i] == node
      modifies this, nodes
      ensures Linked() && nodes == Remove(old(nodes), i) && size == old(size)
    {
      hide At, Remove;
      ghost var cut := Remove(nodes, i);
      AtRemove(nodes, i);
      assert node.prev == At(nodes, i - 1) && node.next == At(nodes, i + 1);
      hide Backward;
      SkipForward(node, i);
      SkipBackward(node, i);
      assert Forward(cut);
      nodes := cut;
    }

    /** The neighbour before the node, or the head, comes to point past it. */
    method SkipForward(node: Node<V>, ghost i: nat)
      requires i < |nodes| && nodes[i] == node && Linked()
      requires node.prev == At(nodes, i - 1) && node.next == At(nodes, i + 1)
      modifies this`head, nodes
      ensures Forward(Remove(nodes, i)) && Backward(nodes)
      ensures node.prev == old(node.prev) && node.next == old(node.next)
    {
      hide At, Remove, Different;
      OnlyAt(nodes, i - 1);
      AtIs(nodes, i - 1);
      AtRemove(nodes, i);
      if node.prev != null {
        node.prev.next := node.next;
      } else {
        head := node.next;
      }
    }

    /** The neighbour after the node, or the tail, comes to point back past it. */
    method SkipBackward(node: Node<V>, ghost i: nat)
      requires i < |nodes| && nodes[i] == node && Different(nodes)
      requires Backward(nodes)
      requires node.prev == At(nodes, i - 1) && node.next == At(nodes, i + 1)
      modifies this`tail, nodes
      ensures Backward(Remove(nodes, i)) && forall n :: n in nodes ==> n.next == old(n.next)
    {
      hide At, Remove, Different;
      OnlyAt(nodes, i + 1);
      AtIs(nodes, i + 1);
      AtRemove(nodes, i);
      if node.next != null {
        node.next.prev := node.prev;
      } else {
        tail := node.prev;
      }
    }

    method AttachNode(node: Node<V>)
      requires Linked() && node !in nodes
      modifies this, node, nodes
      ensures Linked() && nodes == [node] + old(nodes) && size == old(size)
    {
      hide At;
      AtIs(nodes, 0);
      AtIs(nodes, |nodes| - 1);
      AtIs(nodes, -2);
      AtPrepend(node, nodes);
      node.next := head;
      node.prev := null;
      if head != null {
        head.prev := node;
      }
      head := node;
      if tail == null {
        tail := node;
      }
      nodes := [node] + nodes;
    }

    /** Nodes with the same key are the same node. */
    lemma KeysDistinct()
      requires Valid()
      ensures Distinct(Keys(nodes))
    {
      hide lookup.Valid, lookup.Stack, Forward, Backward, Keys;
      forall i, j | 0 <= i < j < |nodes| ensures Keys(nodes)[i] != Keys(nodes)[j] {
        assert lookup.Stack(nodes[i].key) == [nodes[i]];
        assert lookup.Stack(nodes[j].key) == [nodes[j]];
      }
    }

    /** The lookup table answers for the list. */
    method FindNode(key: string) returns (node: Option<Node<V>>, ghost i: nat)
      requires Valid()
      ensures match node
        case None => key !in Keys(nodes)
        case Some(n) => i < |nodes| && nodes[i] == n && n.key == key
    {
      hide lookup.Valid, lookup.Stack, Linked;
      i := 0;
      node := lookup.Search(key);
      if node.Some? {
        i :| 0 <= i < |nodes| && nodes[i] == node.value;
      }
    }

    lemma NotAfterRemoval(before: seq<Node<V>>, i: nat)
      requires i < |before| && Different(before)
      ensures before[i] !in Remove(before, i)
    {
      hide lookup.Valid, lookup.Stack;
      AtRemove(before, i);
    }

    method MoveToFront(node: Node<V>, ghost i: nat)
      requires Valid() && i < |nodes| && nodes[i] == node
      modifies this, nodes
      ensures Valid() && nodes == [node] + Remove(old(nodes), i)
      ensures Keys(nodes) == Touch(old(Keys(nodes)), node.key, CACHE_SIZE)
    {
      hide lookup.Valid, lookup.Stack, Linked, At, Keys, Remove, Touch, Drop, Different, Distinct;
      KeysDistinct();
      ghost var before := nodes;
      AtRemove(before, i);
      SameNodes(before, i);
      FrontKeys(before, i);
      AllDifferent();
      NotAfterRemoval(before, i);
      DetachNode(node, i);
      AttachNode(node);
    }

    lemma AllDifferent()
      requires Linked()
      ensures Different(nodes)
      ensures nodes != [] ==> tail == nodes[|nodes| - 1] && Remove(nodes, |nodes| - 1) == nodes[..|nodes| - 1]
    {
    }

    /** lru_get. */
    method Get(key: string) returns (value: Option<V>)
      requires Valid()
      modifies this, nodes
      ensures Valid()
      ensures forall n :: n in nodes <==> n in old(nodes)
      ensures match value
        case None => key !in old(Keys(nodes)) && nodes == old(nodes)
        case Some(v) => key in old(Keys(nodes)) && Keys(nodes) == Touch(old(Keys(nodes)), key, CACHE_SIZE)
                        && exists n :: n in nodes && n.key == key && n.value == v
    {
      hide lookup.Valid, lookup.Stack, Linked, Indexed, Remove, Touch;
      var node, i := FindNode(key);
      if node.None? { return None; }
      assert Keys(nodes)[i] == key;
      ghost var before := nodes;
      MoveToFront(node.value, i);
      SameNodes(before, i);
      value := Some(node.value.value);
    }

    /** The lookup side of dropping a node. */
    method Unindex(key: string, ghost s: seq<Node<V>>, ghost i: nat)
      requires Linked() && Apart() && Indexed(s) && Distinct(Keys(s)) && i < |s| && s[i].key == key
      modifies lookup.Repr
      ensures Linked() && Apart() && Indexed(Remove(s, i)) && lookup.Repr == old(lookup.Repr)
    {
      hide lookup.Valid, lookup.Stack, Linked, Remove, Keys, Distinct;
      AtRemove(s, i);
      RemoveKeeps(s, i);
      OtherKeys(s, i);
      assert lookup.Stack(key) == [s[i]] && H.Pop([s[i]]) == [];
      lookup.Delete(key);
    }

    /** The lookup side of adding a node. */
    method Index(key: string, node: Node<V>, ghost s: seq<Node<V>>)
      requires Linked() && Apart() && Indexed(s) && node.key == key && key !in Keys(s)
      modifies lookup.Repr
      ensures Linked() && Apart() && Indexed([node] + s) && fresh(lookup.Repr - old(lookup.Repr))
    {
      hide lookup.Valid, lookup.Stack, Linked, Keys;
      assert forall i :: 0 <= i < |s| ==> Keys(s)[i] == s[i].key != key;
      assert lookup.Stack(key) == [];
      lookup.Insert(key, node);
    }

    /** The eviction branch of lru_put. */
    method EvictLast()
      requires Valid() && nodes != []
      modifies this, nodes, lookup.Repr
      ensures Valid() && nodes == old(nodes)[..|old(nodes)| - 1] && lookup.Repr == old(lookup.Repr)
    {
      hide lookup.Valid, lookup.Stack, Linked, At, Keys, Remove, Touch, Drop, Different, Distinct, Indexed;
      KeysDistinct();
      AllDifferent();
      ghost var before, k := nodes, |nodes| - 1;
      AtRemove(before, k);
      var last := tail;
      DetachNode(last, k);
      Unindex(last.key, before, k);
      size := size - 1;
    }

    /** lru_put. A name already cached keeps the value it was cached with. */
    method Put(key: string, value: V)
      requires Valid()
      modifies this, nodes, lookup.Repr
      ensures Valid() && fresh(lookup.Repr - old(lookup.Repr))
      ensures Keys(nodes) == Touch(old(Keys(nodes)), key, CACHE_SIZE)
      ensures forall n :: n in nodes && n !in old(nodes) ==> fresh(n) && n.key == key && n.value == value
    {
      hide lookup.Valid, lookup.Stack, Linked, Indexed, Remove;
      var node, i := FindNode(key);
      ghost var before := nodes;
      if node.Some? {
        MoveToFront(node.value, i);
        SameNodes(before, i);
      } else {
        if size == CACHE_SIZE {
          EvictLast();
          assert Keys(nodes) == Keys(before)[..CACHE_SIZE - 1];
        }
        assert key !in Keys(nodes);
        AddFirst(key, value);
      }
    }

    method AddFirst(key: string, value: V)
      requires Valid() && key !in Keys(nodes) && size < CACHE_SIZE
      modifies this, nodes, lookup.Repr
      ensures Valid() && fresh(lookup.Repr - old(lookup.Repr))
      ensures |nodes| > 0 && nodes[1..] == old(nodes) && fresh(nodes[0])
      ensures nodes[0].key == key && nodes[0].value == value
      ensures Keys(nodes) == [key] + old(Keys(nodes))
    {
      hide lookup.Valid, lookup.Stack, Linked, At, Keys, Remove, Touch, Drop, Different, Distinct, Indexed;
      ghost var before := nodes;
      var node := new Node(key, value);
      KeysPrepend(node, before);
      AttachNode(node);
      Index(key, node, before);
      size := size + 1;
    }

    /** What handle_delete leaves out: dropping the entry of a deleted file. */
    method Forget(key: string)
      requires Valid()
      modifies this, nodes, lookup.Repr
      ensures Valid() && lookup.Repr == old(lookup.Repr)
      ensures Keys(nodes) == Drop(old(Keys(nodes)), key)
      ensures forall n :: n in nodes ==> n in old(nodes)
    {
      hide lookup.Valid, lookup.Stack, Linked, At, Keys, Remove, Touch, Drop, Different, Distinct, Indexed;
      KeysDistinct();
      DropFacts(Keys(nodes), key);
      var node, i := FindNode(key);
      if node.Some? {
        ghost var before := nodes;
        AtRemove(before, i);
        DetachNode(node.value, i);
        Unindex(key, before, i);
        size := size - 1;
        DropIsRemove(Keys(before), i);
        KeysRemove(before, i);
      }
    }
  }

  lemma OtherKeys<V>(s: seq<Node<V>>, i: nat)
    requires Distinct(Keys(s)) && i < |s|
    ensures forall a :: 0 <= a < |s| && a != i ==> s[a].key != s[i].key
  {
    assert forall a :: 0 <= a < |s| ==> Keys(s)[a] == s[a].key;
  }

  lemma RemoveKeeps<T>(s: seq<T>, i: nat)
    requires i < |s|
    ensures forall x :: x in s && x != s[i] ==> x in Remove(s, i)
  {
    forall x | x in s && x != s[i] ensures x in Remove(s, i) {
      var j :| 0 <= j < |s| && s[j] == x;
      assert Remove(s, i)[if j < i then j else j - 1] == x;
    }
  }

  lemma KeysRemove<V>(nodes: seq<Node<V>>, i: nat)
    requires i < |nodes|
    ensures Keys(Remove(nodes, i)) == Remove(Keys(nodes), i)
  {
  }

  lemma {:induction false} DropIsRemove(s: seq<string>, i: nat)
    requires i < |s| && Distinct(s)
    ensures Drop(s, s[i]) == Remove(s, i)
  {
    if i == 0 {
      DropFacts(s[1..], s[0]);
      assert Remove(s, 0) == s[1..];
    } else {
      DropIsRemove(s[1..], i - 1);
      assert Remove(s, i) == [s[0]] + Remove(s[1..], i - 1);
    }
  }

  lemma FrontKeys<V>(nodes: seq<Node<V>>, i: nat)
    requires i < |nodes| && Distinct(Keys(nodes))
    ensures Keys([nodes[i]] + Remove(nodes, i)) == Touch(Keys(nodes), nodes[i].key, CACHE_SIZE)
  {
    DropIsRemove(Keys(nodes), i);
    KeysRemove(nodes, i);
    assert Keys(nodes)[i] == nodes[i].key;
    hide Remove, Drop;
    assert Keys([nodes[i]] + Remove(nodes, i)) == [nodes[i].key] + Keys(Remove(nodes, i));
  }

  lemma SameNodes<V>(nodes: seq<Node<V>>, i: nat)
    requires i < |nodes|
    ensures forall n :: n in [nodes[i]] + Remove(nodes, i) <==> n in nodes
  {
    RemoveKeeps(nodes, i);
    assert forall n :: n in Remove(nodes, i) ==> n in nodes;
  }
}
