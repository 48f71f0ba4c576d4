/** The cache class: nodes in order of use and an index from keys to nodes. */
module LruCaches {
  import opened Text
  import opened Recency
  import opened Sequences

  class Node<K(==), V> {
    const key: K
    var value: V

    constructor (key: K, value: V)
      ensures this.key == key && this.value == value
    {
      this.key := key;
      this.value := value;
    }
  }

  /** The nodes have distinct keys and the index leads from each key to its node. */
  ghost predicate Agree<K, V>(items: seq<Node<K, V>>, index: map<K, Node<K, V>>) {
    && (forall i, j :: 0 <= i < j < |items| ==> items[i].key != items[j].key)
    && (forall i :: 0 <= i < |items| ==> items[i].key in index && index[items[i].key] == items[i])
    && (forall k :: k in index ==> index[k] in items && index[k].key == k)
  }

  lemma AgreeMoved<K, V>(items: seq<Node<K, V>>, index: map<K, Node<K, V>>, i: nat)
    requires Agree(items, index) && i < |items|
    ensures var now := [items[i]] + items[..i] + items[i + 1..];
            Agree(now, index) && forall n :: n in now ==> n in items
  {
    var now := [items[i]] + items[..i] + items[i + 1..];
    forall p | 0 <= p < |items|
      ensures items[p] == now[if p < i then p + 1 else if p == i then 0 else p]
    {
    }
  }

  lemma AgreeAdded<K, V>(items: seq<Node<K, V>>, index: map<K, Node<K, V>>, node: Node<K, V>)
    requires Agree(items, index) && node.key !in index
    ensures Agree([node] + items, index[node.key := node])
  {
    var now := [node] + items;
    forall p | 0 <= p < |items|
      ensures now[p + 1] == items[p]
    {
    }
  }

  lemma AgreeRemoved<K, V>(items: seq<Node<K, V>>, index: map<K, Node<K, V>>, i: nat)
    requires Agree(items, index) && i < |items|
    ensures var now := items[..i] + items[i + 1..];
            Agree(now, index - {items[i].key}) && forall n :: n in now ==> n in items
  {
    var now := items[..i] + items[i + 1..];
    forall p | 0 <= p < |items| && p != i
      ensures items[p] == now[if p < i then p else p - 1]
    {
    }
  }

  /** A new cache, or none where the source throws on capacity zero. */
  method NewCache<K(==), V>(capacity: nat) returns (r: Option<LruCache<K, V>>)
    ensures r.None? <==> capacity == 0
    ensures r.Some? ==> fresh(r.value) && r.value.Valid() && r.value.capacity == capacity
    ensures r.Some? ==> r.value.View() == Cache([], 0, 0, [])
  {
    if capacity == 0 {
      return None;
    }
    var cache := new LruCache<K, V>(capacity);
    r := Some(cache);
  }

  class LruCache<K(==), V> {
    const capacity: nat
    /** The most recently used entry first. */
    var items: seq<Node<K, V>>
    var index: map<K, Node<K, V>>
    var hits: nat
    var misses: nat
    /** What the eviction callback was given, in order. */
    var evicted: seq<(K, V)>

    constructor (capacity: nat)
      requires capacity > 0
      ensures Valid() && this.capacity == capacity && items == [] && View() == Cache([], 0, 0, [])
    {
      this.capacity := capacity;
      items := [];
      index := map[];
      hits, misses := 0, 0;
      evicted := [];
    }

    ghost predicate Valid()
      reads this
    {
      0 < capacity && |items| <= capacity && Agree(items, index)
    }

    ghost function Contents(): Entries<K, V>
      reads this, items
    {
      seq(|items|, i requires 0 <= i < |items| reads this, items => (items[i].key, items[i].value))
    }

    ghost function View(): Cache<K, V>
      reads this, items
    {
      Cache(Contents(), hits, misses, evicted)
    }

    lemma ContentsDistinct()
      requires Valid()
      ensures Distinct(Contents())
    {
    }

    /** After a step of the recency list the law of its operation holds. */
    lemma LawNow(before: Cache<K, V>, op: Op<K, V>)
      requires capacity > 0 && Distinct(before.items) && |before.items| <= capacity && View() == Step(capacity, before, op)
      ensures forall j :: Law(capacity, before, op, View(), j)
    {
      hide Law, Step;
      StepLaws(capacity, before, op);
    }

    lemma OnlyHere(i: nat)
      requires Valid() && i < |items|
      ensures forall j :: 0 <= j < |items| && j != i ==> items[j] != items[i]
    {
    }

    lemma IndexNode(k: K)
      requires Valid() && k in index
      ensures index[k] in items && index[k].key == k
    {
    }

    lemma IndexAgrees(k: K)
      requires Valid()
      ensures Lookup(Contents(), k) == if k in index then Some(index[k].value) else None
    {
      ContentsDistinct();
      if k in index {
        var i :| 0 <= i < |items| && items[i] == index[k];
        LookupAt(Contents(), i);
      } else {
        LookupIff(Contents(), k);
      }
    }

    method Position(node: Node<K, V>) returns (i: nat)
      requires node in items
      ensures i < |items| && items[i] == node
    {
      i := 0;
      while items[i] != node
        invariant 0 <= i < |items| && node in items[i..]
        decreases |items| - i
      {
        assert items[i..] == [items[i]] + items[i + 1..];
        i := i + 1;
      }
    }

    /** Moves a node to the front. */
    method Touch(node: Node<K, V>)
      requires Valid() && node in items
      modifies this`items
      ensures Valid() && forall n :: n in items ==> n in old(items)
      ensures Contents() == [(node.key, node.value)] + Without(old(Contents()), node.key) && items != [] && items[0] == node
    {
      hide Without, Agree;
      var i := Position(node);
      ghost var before, were := Contents(), items;
      ContentsDistinct();
      WithoutAt(before, i);
      items := [node] + items[..i] + items[i + 1..];
      AgreeMoved(were, index, i);
      assert Contents() == [before[i]] + before[..i] + before[i + 1..];
      Regroup([before[i]], before[..i], before[i + 1..]);
    }

    method ContainsKey(k: K) returns (r: bool)
      requires Valid()
      ensures r <==> Lookup(Contents(), k).Some?
    {
      IndexAgrees(k);
      r := k in index;
    }

    /** The node itself, now in front: a caller may read or change its value in place. */
    method Get(k: K) returns (r: Option<Node<K, V>>)
      requires Valid()
      modifies this
      ensures Valid() && forall n :: n in items ==> n in old(items)
      ensures View() == Step(capacity, old(View()), Op.Get(k))
      ensures forall j :: Law(capacity, old(View()), Op.Get(k), View(), j)
      ensures r.Some? <==> Lookup(old(Contents()), k).Some?
      ensures r.Some? ==> items != [] && r.value == items[0] && r.value.key == k && Some(r.value.value) == Lookup(old(Contents()), k)
    {
      hide Agree, Without, Lookup, Law;
      ghost var was := View();
      ContentsDistinct();
      IndexAgrees(k);
      if k !in index {
        misses := misses + 1;
        LawNow(was, Op.Get(k));
        return None;
      }
      IndexNode(k);
      var node := index[k];
      Touch(node);
      hits := hits + 1;
      LawNow(was, Op.Get(k));
      r := Some(node);
    }

    method Put(k: K, v: V)
      requires Valid()
      modifies this, items
      ensures Valid() && forall n :: n in items ==> n in old(items) || fresh(n)
      ensures View() == Step(capacity, old(View()), Op.Put(k, v))
      ensures forall j :: Law(capacity, old(View()), Op.Put(k, v), View(), j)
    {
      hide Valid, Without, Contents, Law;
      ghost var was := View();
      ContentsDistinct();
      IndexAgrees(k);
      ContentsLength();
      if k in index {
        Overwrite(k, v);
      } else {
        if |items| >= capacity {
          EvictLru();
        }
        AddFront(k, v);
      }
      LawNow(was, Op.Put(k, v));
    }

    lemma ContentsLength()
      requires Valid()
      ensures |Contents()| == |items| <= capacity && capacity > 0
    {
    }

    /** A present key takes the new value and moves to the front. */
    method Overwrite(k: K, v: V)
      requires Valid() && k in index
      modifies this`items, items
      ensures Valid() && forall n :: n in items ==> n in old(items)
      ensures Contents() == [(k, v)] + Without(old(Contents()), k)
    {
      hide Agree, Without;
      ghost var before := Contents();
      ContentsDistinct();
      IndexNode(k);
      var node := index[k];
      var i := Position(node);
      OnlyHere(i);
      WithoutAt(before, i);
      node.value := v;
      assert Contents() == before[i := (k, v)];
      ContentsDistinct();
      WithoutAt(Contents(), i);
      Touch(node);
    }

    method AddFront(k: K, v: V)
      requires Valid() && k !in index && |items| < capacity
      modifies this`items, this`index
      ensures Valid() && forall n :: n in items ==> n in old(items) || fresh(n)
      ensures Contents() == [(k, v)] + old(Contents())
    {
      hide Agree;
      ghost var before := Contents();
      var node := new Node(k, v);
      AgreeAdded(items, index, node);
      items := [node] + items;
      index := index[k := node];
      assert Contents() == [(k, v)] + before;
    }

    method EvictLru()
      requires Valid() && items != []
      modifies this`items, this`index, this`evicted
      ensures Valid() && items == old(items)[..|old(items)| - 1] && |items| < capacity
      ensures Contents() == old(Contents())[..|old(items)| - 1]
      ensures forall k :: k in index ==> k in old(index)
      ensures evicted == old(evicted) + [old(Contents())[|old(items)| - 1]]
    {
      hide Agree;
      var last := items[|items| - 1];
      AgreeRemoved(items, index, |items| - 1);
      assert items[..|items| - 1] + items[|items|..] == items[..|items| - 1];
      evicted := evicted + [(last.key, last.value)];
      index := index - {last.key};
      items := items[..|items| - 1];
    }

    method Remove(k: K) returns (r: Option<V>)
      requires Valid()
      modifies this
      ensures Valid() && forall n :: n in items ==> n in old(items)
      ensures View() == Step(capacity, old(View()), Op.Remove(k))
      ensures forall j :: Law(capacity, old(View()), Op.Remove(k), View(), j)
      ensures r == Lookup(old(Contents()), k)
    {
      hide Agree, Without, Lookup, Law;
      ghost var was := View();
      ContentsDistinct();
      IndexAgrees(k);
      ghost var before := Contents();
      if k !in index {
        LookupIff(before, k);
        WithoutNone(before, k);
        LawNow(was, Op.Remove(k));
        return None;
      }
      IndexNode(k);
      var node := index[k];
      var i := Position(node);
      WithoutAt(before, i);
      AgreeRemoved(items, index, i);
      r := Some(node.value);
      items := items[..i] + items[i + 1..];
      index := index - {k};
      assert Contents() == before[..i] + before[i + 1..];
      LawNow(was, Op.Remove(k));
    }

    method Clear()
      requires Valid()
      modifies this
      ensures Valid() && items == []
      ensures View() == Step(capacity, old(View()), Op.Clear)
      ensures forall j :: Law(capacity, old(View()), Op.Clear, View(), j)
    {
      hide Law;
      ghost var was := View();
      ContentsDistinct();
      items := [];
      index := map[];
      LawNow(was, Op.Clear);
    }
  }

  /** Any run of the class is the run of the recency list. */
  method Perform<K(==), V>(capacity: nat, trace: seq<Op<K, V>>) returns (cache: LruCache<K, V>)
    requires capacity > 0
    ensures cache.Valid() && cache.capacity == capacity && cache.View() == Run(capacity, trace)
  {
    hide Step;
    cache := new LruCache<K, V>(capacity);
    var i := 0;
    while i < |trace|
      invariant 0 <= i <= |trace|
      invariant fresh(cache) && (forall n :: n in cache.items ==> fresh(n)) && cache.Valid() && cache.capacity == capacity
      invariant cache.View() == Run(capacity, trace[..i])
    {
      assert trace[..i + 1][..i] == trace[..i];
      match trace[i] {
        case Get(k) => var _ := cache.Get(k);
        case Put(k, v) => cache.Put(k, v);
        case Remove(k) => var _ := cache.Remove(k);
        case Clear => cache.Clear();
      }
      i := i + 1;
    }
    assert trace[..i] == trace;
  }
}
