/**
  The least-recently-used cache as a list of entries, the most recently used first, and
  the inclusion of smaller caches in larger ones.
 */
module Recency {
  import opened Text

  type Entries<K(==), V> = seq<(K, V)>

  ghost function Keys<K, V>(l: Entries<K, V>): set<K> {
    set i | 0 <= i < |l| :: l[i].0
  }

  ghost predicate Distinct<K, V>(l: Entries<K, V>) {
    forall i, j :: 0 <= i < j < |l| ==> l[i].0 != l[j].0
  }

  function Lookup<K(==), V>(l: Entries<K, V>, k: K): Option<V> {
    if l == [] then None else if l[0].0 == k then Some(l[0].1) else Lookup(l[1..], k)
  }

  function Without<K(==), V>(l: Entries<K, V>, k: K): Entries<K, V> {
    if l == [] then [] else (if l[0].0 == k then [] else [l[0]]) + Without(l[1..], k)
  }

  datatype Cache<K(==), V> = Cache(items: Entries<K, V>, hits: nat, misses: nat, evicted: Entries<K, V>)

  datatype Op<K, V> = Get(k: K) | Put(k: K, v: V) | Remove(k: K) | Clear

  function Step<K(==), V>(capacity: nat, c: Cache<K, V>, op: Op<K, V>): Cache<K, V>
    requires capacity > 0
  {
    match op
    case Get(k) =>
      var found := Lookup(c.items, k);
      if found.None? then c.(misses := c.misses + 1)
      else c.(items := [(k, found.value)] + Without(c.items, k), hits := c.hits + 1)
    case Put(k, v) =>
      if Lookup(c.items, k).Some? then c.(items := [(k, v)] + Without(c.items, k))
      else if |c.items| >= capacity && c.items != [] then
        var last := |c.items| - 1;
        c.(items := [(k, v)] + c.items[..last], evicted := c.evicted + [c.items[last]])
      else c.(items := [(k, v)] + c.items)
    case Remove(k) => c.(items := Without(c.items, k))
    case Clear => c.(items := [])
  }

  function Run<K(==), V>(capacity: nat, trace: seq<Op<K, V>>): Cache<K, V>
    requires capacity > 0
  {
    if trace == [] then Cache([], 0, 0, [])
    else Step(capacity, Run(capacity, trace[..|trace| - 1]), trace[|trace| - 1])
  }

  // --------------------------------------------------------------------- laws of lists

  lemma {:induction false} LookupIff<K, V>(l: Entries<K, V>, k: K)
    ensures Lookup(l, k).Some? <==> k in Keys(l)
    ensures Lookup(l, k).Some? ==> exists i :: 0 <= i < |l| && l[i] == (k, Lookup(l, k).value)
  {
    if l != [] {
      LookupIff(l[1..], k);
      if l[0].0 == k {
        assert l[0] == (k, l[0].1);
      } else {
        if i :| 0 <= i < |l[1..]| && l[1..][i].0 == k {
          assert l[i + 1].0 == k;
        }
        if Lookup(l, k).Some? {
          var i :| 0 <= i < |l[1..]| && l[1..][i] == (k, Lookup(l[1..], k).value);
          assert l[i + 1] == (k, Lookup(l, k).value);
        }
        if i :| 0 <= i < |l| && l[i].0 == k {
          assert l[1..][i - 1].0 == k;
        }
      }
    }
  }

  lemma {:induction false} LookupAt<K, V>(l: Entries<K, V>, i: nat)
    requires Distinct(l) && i < |l|
    ensures Lookup(l, l[i].0) == Some(l[i].1)
  {
    if i > 0 {
      DistinctTail(l);
      LookupAt(l[1..], i - 1);
    }
  }

  lemma DistinctTail<K, V>(l: Entries<K, V>)
    requires Distinct(l) && l != []
    ensures Distinct(l[1..])
  {
  }

  lemma {:induction false} WithoutAbsent<K, V>(l: Entries<K, V>, k: K)
    requires forall i :: 0 <= i < |l| ==> l[i].0 != k
    ensures Without(l, k) == l
  {
    if l != [] {
      WithoutAbsent(l[1..], k);
      assert l == [l[0]] + l[1..];
    }
  }

  lemma {:induction false} WithoutAt<K, V>(l: Entries<K, V>, i: nat)
    requires Distinct(l) && i < |l|
    ensures Without(l, l[i].0) == l[..i] + l[i + 1..]
  {
    DistinctTail(l);
    if i == 0 {
      WithoutAbsent(l[1..], l[0].0);
    } else {
      WithoutAt(l[1..], i - 1);
      assert l[1..][..i - 1] == l[1..i] && l[1..][i..] == l[i + 1..];
      assert l[..i] == [l[0]] + l[1..i];
    }
  }

  // --------------------------------------------------------------------- the inclusion

  /** The entries whose keys are in `s`, in order. */
  ghost function Restrict<K, V>(l: Entries<K, V>, s: set<K>): Entries<K, V> {
    if l == [] then [] else (if l[0].0 in s then [l[0]] else []) + Restrict(l[1..], s)
  }

  lemma {:induction false} RestrictAppend<K, V>(l: Entries<K, V>, m: Entries<K, V>, s: set<K>)
    ensures Restrict(l + m, s) == Restrict(l, s) + Restrict(m, s)
  {
    if l == [] {
      assert l + m == m;
    } else {
      assert (l + m)[1..] == l[1..] + m;
      RestrictAppend(l[1..], m, s);
      var first := if l[0].0 in s then [l[0]] else [];
      assert Restrict(l + m, s) == first + Restrict(l[1..] + m, s);
      assert first + (Restrict(l[1..], s) + Restrict(m, s)) == first + Restrict(l[1..], s) + Restrict(m, s);
    }
  }

  lemma {:induction false} RestrictTwice<K, V>(l: Entries<K, V>, s: set<K>, t: set<K>)
    ensures Restrict(Restrict(l, s), t) == Restrict(l, s * t)
  {
    if l != [] {
      RestrictTwice(l[1..], s, t);
      RestrictAppend(if l[0].0 in s then [l[0]] else [], Restrict(l[1..], s), t);
    }
  }

  /** Only the keys that occur matter. */
  lemma {:induction false} RestrictSame<K, V>(l: Entries<K, V>, s: set<K>, t: set<K>)
    requires forall i :: 0 <= i < |l| ==> (l[i].0 in s <==> l[i].0 in t)
    ensures Restrict(l, s) == Restrict(l, t)
  {
    if l != [] {
      forall i | 0 <= i < |l[1..]|
        ensures l[1..][i].0 in s <==> l[1..][i].0 in t
      {
        assert l[1..][i] == l[i + 1];
      }
      RestrictSame(l[1..], s, t);
    }
  }

  lemma {:induction false} RestrictAll<K, V>(l: Entries<K, V>, s: set<K>)
    requires forall i :: 0 <= i < |l| ==> l[i].0 in s
    ensures Restrict(l, s) == l
  {
    if l != [] {
      RestrictAll(l[1..], s);
      assert l == [l[0]] + l[1..];
    }
  }

  lemma {:induction false} RestrictMember<K, V>(l: Entries<K, V>, s: set<K>, e: (K, V))
    ensures e in Restrict(l, s) <==> e in l && e.0 in s
  {
    if l != [] {
      RestrictMember(l[1..], s, e);
    }
  }

  lemma {:induction false} RestrictWithout<K, V>(l: Entries<K, V>, s: set<K>, k: K)
    ensures Without(Restrict(l, s), k) == Restrict(Without(l, k), s)
    ensures Without(Restrict(l, s), k) == Restrict(l, s - {k})
  {
    if l != [] {
      RestrictWithout(l[1..], s, k);
      var rest, tail := Restrict(l[1..], s), Without(l[1..], k);
      if l[0].0 in s {
        assert Restrict(l, s) == [l[0]] + rest && ([l[0]] + rest)[1..] == rest;
      } else {
        assert Restrict(l, s) == rest;
      }
      if l[0].0 != k {
        assert Without(l, k) == [l[0]] + tail && ([l[0]] + tail)[1..] == tail;
      } else {
        assert Without(l, k) == tail;
      }
    }
  }

  /** The small cache's entries are entries of the large one, in the same order. */
  ghost predicate Included<K, V>(small: Entries<K, V>, large: Entries<K, V>) {
    Distinct(small) && Distinct(large) && small == Restrict(large, Keys(small))
  }

  lemma IncludedEntries<K, V>(small: Entries<K, V>, large: Entries<K, V>)
    requires Included(small, large)
    ensures Keys(small) <= Keys(large)
    ensures forall k :: k in Keys(small) ==> Lookup(small, k) == Lookup(large, k)
  {
    forall k | k in Keys(small)
      ensures k in Keys(large) && Lookup(small, k) == Lookup(large, k)
    {
      var i :| 0 <= i < |small| && small[i].0 == k;
      RestrictMember(large, Keys(small), small[i]);
      var j :| 0 <= j < |large| && large[j] == small[i];
      LookupAt(small, i);
      LookupAt(large, j);
    }
  }

  lemma {:induction false} WithoutDistinct<K, V>(l: Entries<K, V>, k: K)
    requires Distinct(l)
    ensures Distinct(Without(l, k))
    ensures forall i :: 0 <= i < |Without(l, k)| ==> Without(l, k)[i].0 != k && Without(l, k)[i] in l
    ensures |Without(l, k)| == |l| - if k in Keys(l) then 1 else 0
    ensures Keys(Without(l, k)) == Keys(l) - {k}
  {
    if i :| 0 <= i < |l| && l[i].0 == k {
      WithoutAt(l, i);
      var w := l[..i] + l[i + 1..];
      forall j | 0 <= j < |l| && j != i
        ensures l[j].0 in Keys(w)
      {
        assert l[j] == w[if j < i then j else j - 1];
      }
    } else {
      WithoutAbsent(l, k);
    }
  }

  lemma ConsDistinct<K, V>(l: Entries<K, V>, e: (K, V))
    requires Distinct(l) && e.0 !in Keys(l)
    ensures Distinct([e] + l) && Keys([e] + l) == {e.0} + Keys(l)
  {
    var m := [e] + l;
    assert m[0] == e;
    forall i | 0 <= i < |l|
      ensures m[i + 1] == l[i]
    {
    }
  }

  /** Removing a key from both, or from the large one alone when the small lacks it. */
  lemma IncludedWithout<K, V>(small: Entries<K, V>, large: Entries<K, V>, k: K)
    requires Included(small, large)
    ensures Included(Without(small, k), Without(large, k))
  {
    WithoutDistinct(small, k);
    WithoutDistinct(large, k);
    RestrictWithout(large, Keys(small), k);
    RestrictWithout(large, Keys(small) - {k}, k);
    assert Keys(small) - {k} - {k} == Keys(small) - {k};
  }

  lemma IncludedCons<K, V>(small: Entries<K, V>, large: Entries<K, V>, e: (K, V))
    requires Included(small, large) && e.0 !in Keys(large)
    ensures Included([e] + small, [e] + large)
  {
    IncludedEntries(small, large);
    ConsDistinct(small, e);
    ConsDistinct(large, e);
    var l := [e] + large;
    assert l[1..] == large && l[0] == e;
    RestrictSame(large, Keys(small), {e.0} + Keys(small));
  }

  lemma DropLast<K, V>(l: Entries<K, V>)
    requires Distinct(l) && l != []
    ensures var init := l[..|l| - 1]; Distinct(init) && Keys(init) == Keys(l) - {l[|l| - 1].0}
  {
    var init, last := l[..|l| - 1], l[|l| - 1];
    forall i | 0 <= i < |init|
      ensures init[i] == l[i] && init[i].0 != last.0
    {
    }
    forall k | k in Keys(l) && k != last.0
      ensures k in Keys(init)
    {
      var i :| 0 <= i < |l| && l[i].0 == k;
      assert init[i].0 == k;
    }
  }

  /** Evicting from the small cache alone. */
  lemma IncludedDropSmall<K, V>(small: Entries<K, V>, large: Entries<K, V>)
    requires Included(small, large) && small != []
    ensures Included(small[..|small| - 1], large)
  {
    var init := small[..|small| - 1];
    DropLast(small);
    RestrictTwice(large, Keys(small), Keys(init));
    assert Keys(small) * Keys(init) == Keys(init);
    assert small == init + [small[|small| - 1]];
    RestrictAppend(init, [small[|small| - 1]], Keys(init));
    RestrictAll(init, Keys(init));
  }

  /** Evicting from both: the large cache's oldest entry is the small one's, or absent there. */
  lemma IncludedDropBoth<K, V>(small: Entries<K, V>, large: Entries<K, V>)
    requires Included(small, large) && small != [] && large != []
    ensures Included(small[..|small| - 1], large[..|large| - 1])
  {
    var init, rest := small[..|small| - 1], large[..|large| - 1];
    var last := large[|large| - 1];
    IncludedDropSmall(small, large);
    DropLast(small);
    DropLast(large);
    assert large == rest + [last];
    RestrictAppend(rest, [last], Keys(init));
    if last.0 in Keys(small) {
      RestrictAppend(rest, [last], Keys(small));
      assert small == Restrict(rest, Keys(small)) + [last];
      assert small[|small| - 1] == last;
      assert last.0 !in Keys(init);
    }
  }

  ghost predicate Smaller<K, V>(c1: nat, a: Cache<K, V>, c2: nat, b: Cache<K, V>) {
    && Included(a.items, b.items)
    && |a.items| <= c1 && |b.items| <= c2 && |b.items| - |a.items| <= c2 - c1
    && a.hits <= b.hits && a.misses >= b.misses && a.hits + a.misses == b.hits + b.misses
    && |a.evicted| >= |b.evicted|
  }

  lemma StepGet<K, V>(c1: nat, a: Cache<K, V>, c2: nat, b: Cache<K, V>, k: K)
    requires 0 < c1 <= c2 && Smaller(c1, a, c2, b)
    ensures Smaller(c1, Step(c1, a, Get(k)), c2, Step(c2, b, Get(k)))
  {
    hide Restrict, Keys, Lookup, Without, Included, Distinct;
    LookupIff(a.items, k);
    LookupIff(b.items, k);
    IncludedIs(a.items, b.items);
    IncludedEntries(a.items, b.items);
    if k in Keys(b.items) {
      WithoutDistinct(a.items, k);
      WithoutDistinct(b.items, k);
      IncludedWithout(a.items, b.items, k);
      var e := (k, Lookup(b.items, k).value);
      if k in Keys(a.items) {
        IncludedCons(Without(a.items, k), Without(b.items, k), e);
      } else {
        WithoutNone(a.items, k);
        IncludedFront(a.items, Without(b.items, k), e);
      }
    }
  }

  lemma IncludedIs<K, V>(small: Entries<K, V>, large: Entries<K, V>)
    requires Included(small, large)
    ensures Distinct(small) && Distinct(large)
  {
  }

  lemma WithoutNone<K, V>(l: Entries<K, V>, k: K)
    requires k !in Keys(l)
    ensures Without(l, k) == l
  {
    WithoutAbsent(l, k);
  }

  /** An entry in front of the large list alone. */
  lemma IncludedFront<K, V>(small: Entries<K, V>, large: Entries<K, V>, e: (K, V))
    requires Included(small, large) && e.0 !in Keys(large)
    ensures Included(small, [e] + large)
  {
    IncludedEntries(small, large);
    ConsDistinct(large, e);
    var l := [e] + large;
    assert l[1..] == large && l[0] == e;
  }

  lemma StepPut<K, V>(c1: nat, a: Cache<K, V>, c2: nat, b: Cache<K, V>, k: K, v: V)
    requires 0 < c1 <= c2 && Smaller(c1, a, c2, b)
    ensures Smaller(c1, Step(c1, a, Put(k, v)), c2, Step(c2, b, Put(k, v)))
  {
    hide Restrict, Keys, Lookup, Without, Included, Distinct;
    var e := (k, v);
    LookupIff(a.items, k);
    LookupIff(b.items, k);
    IncludedIs(a.items, b.items);
    IncludedEntries(a.items, b.items);
    if k in Keys(a.items) {
      WithoutDistinct(a.items, k);
      WithoutDistinct(b.items, k);
      IncludedWithout(a.items, b.items, k);
      IncludedCons(Without(a.items, k), Without(b.items, k), e);
    } else {
      var small := if |a.items| >= c1 then a.items[..|a.items| - 1] else a.items;
      if |a.items| >= c1 {
        IncludedDropSmall(a.items, b.items);
      }
      if k in Keys(b.items) {
        DropKeeps(a.items, k);
        WithoutNone(small, k);
        WithoutDistinct(b.items, k);
        IncludedWithout(small, b.items, k);
        IncludedCons(small, Without(b.items, k), e);
      } else if |b.items| >= c2 {
        IncludedDropBoth(a.items, b.items);
        DropKeeps(b.items, k);
        IncludedCons(small, b.items[..|b.items| - 1], e);
      } else {
        IncludedCons(small, b.items, e);
      }
    }
  }

  lemma DropKeeps<K, V>(l: Entries<K, V>, k: K)
    requires k !in Keys(l)
    ensures l != [] ==> k !in Keys(l[..|l| - 1])
  {
  }

  lemma StepRemove<K, V>(c1: nat, a: Cache<K, V>, c2: nat, b: Cache<K, V>, k: K)
    requires 0 < c1 <= c2 && Smaller(c1, a, c2, b)
    ensures Smaller(c1, Step(c1, a, Remove(k)), c2, Step(c2, b, Remove(k)))
  {
    hide Restrict, Keys, Without, Included, Distinct;
    IncludedIs(a.items, b.items);
    IncludedEntries(a.items, b.items);
    WithoutDistinct(a.items, k);
    WithoutDistinct(b.items, k);
    IncludedWithout(a.items, b.items, k);
  }

  /**
    The same trace on a larger capacity: every entry of the small cache is in the large
    one with the same value and in the same order, hits never decrease, and misses and
    evictions never increase.
   */
  lemma {:induction false} LargerIncludesSmaller<K, V>(c1: nat, c2: nat, trace: seq<Op<K, V>>)
    requires 0 < c1 <= c2
    ensures Smaller(c1, Run(c1, trace), c2, Run(c2, trace))
  {
    hide Smaller, Step;
    if trace == [] {
      SmallerEmpty<K, V>(c1, Cache([], 0, 0, []), c2, Cache([], 0, 0, []));
    } else {
      var before, op := trace[..|trace| - 1], trace[|trace| - 1];
      LargerIncludesSmaller(c1, c2, before);
      var a, b := Run(c1, before), Run(c2, before);
      match op
      case Get(k) => StepGet(c1, a, c2, b, k);
      case Put(k, v) => StepPut(c1, a, c2, b, k, v);
      case Remove(k) => StepRemove(c1, a, c2, b, k);
      case Clear => StepClear(c1, a, c2, b);
    }
  }

  lemma SmallerEmpty<K, V>(c1: nat, a: Cache<K, V>, c2: nat, b: Cache<K, V>)
    requires c1 <= c2 && a == b == Cache([], 0, 0, [])
    ensures Smaller(c1, a, c2, b)
  {
  }

  lemma StepClear<K, V>(c1: nat, a: Cache<K, V>, c2: nat, b: Cache<K, V>)
    requires 0 < c1 <= c2 && Smaller(c1, a, c2, b)
    ensures Smaller(c1, Step(c1, a, Clear), c2, Step(c2, b, Clear))
  {
  }

  // ------------------------------------------------------ what each operation does

  /** The entries of all keys but `k`, in order. */
  ghost function Others<K, V>(l: Entries<K, V>, k: K): Entries<K, V> {
    Restrict(l, Keys(l) - {k})
  }

  /**
    `b` follows `a` by `op`: the order of the entries, the statistics, and the lookup of
    an arbitrary key `j`.
   */
  ghost predicate Law<K, V>(capacity: nat, a: Cache<K, V>, op: Op<K, V>, b: Cache<K, V>, j: K) {
    match op
    case Get(k) =>
      && Lookup(b.items, j) == Lookup(a.items, j) && b.evicted == a.evicted
      && if Lookup(a.items, k).Some? then
           && b.items != [] && b.items[0] == (k, Lookup(a.items, k).value) && b.items[1..] == Others(a.items, k)
           && b.hits == a.hits + 1 && b.misses == a.misses
         else b.items == a.items && b.hits == a.hits && b.misses == a.misses + 1
    case Put(k, v) =>
      && Lookup(b.items, k) == Some(v) && b.items != [] && b.items[0] == (k, v) && b.hits == a.hits && b.misses == a.misses
      && if Lookup(a.items, k).Some? || |a.items| < capacity then
           && (j != k ==> Lookup(b.items, j) == Lookup(a.items, j)) && b.evicted == a.evicted
           && b.items[1..] == Others(a.items, k)
         else
           && a.items != []
           && var last := a.items[|a.items| - 1];
              && last.0 != k && Lookup(b.items, last.0).None? && b.evicted == a.evicted + [last]
              && (j != k && j != last.0 ==> Lookup(b.items, j) == Lookup(a.items, j))
              && b.items[1..] == a.items[..|a.items| - 1]
    case Remove(k) =>
      && Lookup(b.items, k).None? && (j != k ==> Lookup(b.items, j) == Lookup(a.items, j)) && b.items == Others(a.items, k)
      && b.hits == a.hits && b.misses == a.misses && b.evicted == a.evicted
    case Clear =>
      && b.items == [] && Lookup(b.items, j).None?
      && b.hits == a.hits && b.misses == a.misses && b.evicted == a.evicted
  }

  lemma WithoutIsOthers<K, V>(l: Entries<K, V>, k: K)
    ensures Without(l, k) == Others(l, k)
  {
    RestrictWithout(l, Keys(l), k);
    RestrictAll(l, Keys(l));
  }

  lemma {:induction false} LookupWithout<K, V>(l: Entries<K, V>, k: K, j: K)
    ensures Lookup(Without(l, k), j) == if j == k then None else Lookup(l, j)
  {
    if l != [] {
      LookupWithout(l[1..], k, j);
      var tail := Without(l[1..], k);
      if l[0].0 == k {
        assert Without(l, k) == tail;
      } else {
        assert ([l[0]] + tail)[1..] == tail;
      }
    }
  }

  lemma LookupCons<K, V>(e: (K, V), l: Entries<K, V>, j: K)
    ensures Lookup([e] + l, j) == if e.0 == j then Some(e.1) else Lookup(l, j)
  {
    assert ([e] + l)[1..] == l;
  }

  lemma {:induction false} LookupFront<K, V>(l: Entries<K, V>, j: K)
    requires Distinct(l) && l != []
    ensures Lookup(l[..|l| - 1], j) == if j == l[|l| - 1].0 then None else Lookup(l, j)
  {
    if |l| > 1 {
      DistinctTail(l);
      LookupFront(l[1..], j);
      assert l[..|l| - 1][1..] == l[1..][..|l| - 2];
    }
  }

  /** One step of the recency list obeys the law of its operation. */
  lemma StepLaw<K, V>(capacity: nat, a: Cache<K, V>, op: Op<K, V>, j: K)
    requires capacity > 0 && Distinct(a.items) && |a.items| <= capacity
    ensures Law(capacity, a, op, Step(capacity, a, op), j)
  {
    hide Lookup, Without, Others, Distinct;
    match op
    case Get(k) =>
      WithoutIsOthers(a.items, k);
      LookupWithout(a.items, k, j);
      if Lookup(a.items, k).Some? {
        LookupCons((k, Lookup(a.items, k).value), Without(a.items, k), j);
      }
    case Put(k, v) => StepPutLaw(capacity, a, k, v, j);
    case Remove(k) =>
      WithoutIsOthers(a.items, k);
      LookupWithout(a.items, k, j);
      LookupWithout(a.items, k, k);
    case Clear => LookupNothing<K, V>(j);
  }

  lemma StepLaws<K, V>(capacity: nat, a: Cache<K, V>, op: Op<K, V>)
    requires capacity > 0 && Distinct(a.items) && |a.items| <= capacity
    ensures forall j :: Law(capacity, a, op, Step(capacity, a, op), j)
  {
    hide Law, Step;
    forall j
      ensures Law(capacity, a, op, Step(capacity, a, op), j)
    {
      StepLaw(capacity, a, op, j);
    }
  }

  lemma LookupNothing<K, V>(j: K)
    ensures Lookup<K, V>([], j).None?
  {
  }

  lemma StepPutLaw<K, V>(capacity: nat, a: Cache<K, V>, k: K, v: V, j: K)
    requires capacity > 0 && Distinct(a.items) && |a.items| <= capacity
    ensures Law(capacity, a, Put(k, v), Step(capacity, a, Put(k, v)), j)
  {
    hide Lookup, Without, Others, Distinct;
    WithoutIsOthers(a.items, k);
    LookupIff(a.items, k);
    var present, full := Lookup(a.items, k).Some?, |a.items| >= capacity;
    var rest := if present then Without(a.items, k) else if full then a.items[..|a.items| - 1] else a.items;
    var b := Step(capacity, a, Put(k, v));
    assert b.items == [(k, v)] + rest && b.items[1..] == rest;
    LookupCons((k, v), rest, j);
    LookupCons((k, v), rest, k);
    LookupWithout(a.items, k, j);
    if !present && full {
      var last := a.items[|a.items| - 1];
      LastIsThere(a.items);
      LookupFront(a.items, j);
      LookupFront(a.items, last.0);
      LookupCons((k, v), rest, last.0);
    } else if !present {
      WithoutNone(a.items, k);
    }
  }

  lemma LastIsThere<K, V>(l: Entries<K, V>)
    requires l != []
    ensures Lookup(l, l[|l| - 1].0).Some?
  {
    LookupIff(l, l[|l| - 1].0);
  }

  /** Whatever was done before, an operation obeys its law. */
  lemma OperationLaw<K, V>(capacity: nat, trace: seq<Op<K, V>>, op: Op<K, V>, j: K)
    requires capacity > 0
    ensures Law(capacity, Run(capacity, trace), op, Run(capacity, trace + [op]), j)
  {
    hide Law, Step;
    LargerIncludesSmaller(capacity, capacity, trace);
    assert (trace + [op])[..|trace|] == trace;
    StepLaw(capacity, Run(capacity, trace), op, j);
  }
}
