/** The state `RUCacheStrategy` and `RandomCacheStrategy` share, and the two
    steps they share: removing one cached index, and admitting a new value. */
module CacheStore {
  import opened Results

  /** `values` is `@value_list` (a missing key is a nil slot), `order` is
      `@cached_list`, `maxSize` is `@max_cache_size` and `current` is
      `@current_cache_size`. Sizes count characters, one per byte. */
  datatype Store = Store(values: map<nat, string>, order: seq<nat>, maxSize: int, current: int)

  /** `[](index)`: the cached line, or None for nil. A read changes nothing.
      On a well formed store a read hits exactly the indices in the order. */
  function Lookup(s: Store, index: nat): (r: Option<string>)
    ensures Wellformed(s) ==> (r.Some? <==> index in s.order)
  {
    if index in s.values then Some(s.values[index]) else None
  }

  /** The size `evict_next` reports for an index: the value's length, or 0
      when its slot is nil. */
  function SizeOf(values: map<nat, string>, i: nat): nat
  {
    if i in values then |values[i]| else 0
  }

  /** The summed size of the values cached under the indices of `order`. */
  function Total(values: map<nat, string>, order: seq<nat>): nat
  {
    if |order| == 0 then 0 else SizeOf(values, order[0]) + Total(values, order[1..])
  }

  ghost predicate Distinct(order: seq<nat>)
  {
    forall j, k :: 0 <= j < k < |order| ==> order[j] != order[k]
  }

  /** The indices an order holds. */
  ghost function Elems(order: seq<nat>): set<nat>
  {
    set i | i in order
  }

  /** Every cached index appears in the order exactly once, and nothing else does. */
  ghost predicate Wellformed(s: Store)
  {
    && Distinct(s.order)
    && s.values.Keys == Elems(s.order)
  }

  /** The accounting invariant: the running count is the size of what is
      cached, and it is within the budget. */
  ghost predicate Consistent(s: Store)
  {
    && Wellformed(s)
    && s.current == Total(s.values, s.order)
    && s.current <= s.maxSize
  }

  /** The state `initialize` creates: nothing cached, a zero count. */
  function Empty(maxSize: int): (s: Store)
    ensures forall i :: Lookup(s, i) == None
    ensures Consistent(s) <==> 0 <= maxSize
  {
    Store(map[], [], maxSize, 0)
  }

  /** `listing`: the cached indices in the store's order. */
  function Listing(s: Store): (r: seq<nat>)
    ensures Wellformed(s) ==> forall i :: i in r <==> Lookup(s, i).Some?
  {
    s.order
  }

  lemma {:induction false} TotalConcat(values: map<nat, string>, a: seq<nat>, b: seq<nat>)
    ensures Total(values, a + b) == Total(values, a) + Total(values, b)
  {
    if |a| == 0 {
      assert a + b == b;
    } else {
      assert (a + b)[1..] == a[1..] + b;
      TotalConcat(values, a[1..], b);
    }
  }

  /** The total only depends on the sizes under the indices it sums. */
  lemma {:induction false} TotalAgree(v1: map<nat, string>, v2: map<nat, string>, order: seq<nat>)
    requires forall i :: i in order ==> SizeOf(v1, i) == SizeOf(v2, i)
    ensures Total(v1, order) == Total(v2, order)
  {
    if |order| > 0 {
      assert forall i :: i in order[1..] ==> i in order;
      TotalAgree(v1, v2, order[1..]);
    }
  }

  /** Deleting position `p` keeps an order free of repeats and removes
      exactly the index that stood there. */
  lemma RemoveAtMembers(order: seq<nat>, p: nat)
    requires p < |order| && Distinct(order)
    ensures Distinct(order[..p] + order[p + 1..])
    ensures forall i :: i in order[..p] + order[p + 1..] <==> i in order && i != order[p]
  {
    var rest := order[..p] + order[p + 1..];
    forall j | 0 <= j < |rest|
      ensures rest[j] == order[if j < p then j else j + 1]
    {
    }
    forall i
      ensures i in rest <==> i in order && i != order[p]
    {
      if i in rest {
        var j :| 0 <= j < |rest| && rest[j] == i;
        assert order[if j < p then j else j + 1] == i;
      }
      if i in order && i != order[p] {
        var q :| 0 <= q < |order| && order[q] == i;
        assert rest[if q < p then q else q - 1] == i;
      }
    }
  }

  lemma RemoveAtTotal(values: map<nat, string>, order: seq<nat>, p: nat)
    requires p < |order|
    ensures SizeOf(values, order[p]) + Total(values, order[..p] + order[p + 1..]) == Total(values, order)
  {
    assert order == order[..p] + [order[p]] + order[p + 1..];
    TotalConcat(values, order[..p] + [order[p]], order[p + 1..]);
    TotalConcat(values, order[..p], [order[p]]);
    TotalConcat(values, order[..p], order[p + 1..]);
  }

  lemma RemoveAtAccounting(s: Store, p: nat)
    requires p < |s.order| && Distinct(s.order)
    ensures SizeOf(s.values, s.order[p]) + Total(s.values - {s.order[p]}, s.order[..p] + s.order[p + 1..])
         == Total(s.values, s.order)
  {
    RemoveAtMembers(s.order, p);
    RemoveAtTotal(s.values, s.order, p);
    TotalAgree(s.values - {s.order[p]}, s.values, s.order[..p] + s.order[p + 1..]);
  }

  /** Removes the index at position `p` of the order and its cached value,
      answering the size the value had (0 for a nil slot). */
  function Evict(s: Store, p: nat): (r: (Store, nat))
    requires p < |s.order|
    ensures |r.0.order| == |s.order| - 1
    ensures r.0.maxSize == s.maxSize && r.0.current == s.current
  {
    (Store(s.values - {s.order[p]}, s.order[..p] + s.order[p + 1..], s.maxSize, s.current),
     SizeOf(s.values, s.order[p]))
  }

  /** Evicting from a well formed store nils exactly the victim's slot, keeps
      the store well formed, and answers exactly the size that leaves the
      total. */
  lemma EvictAccounting(s: Store, p: nat)
    requires p < |s.order| && Wellformed(s)
    ensures Wellformed(Evict(s, p).0)
    ensures Lookup(Evict(s, p).0, s.order[p]) == None
    ensures forall i :: i != s.order[p] ==> Lookup(Evict(s, p).0, i) == Lookup(s, i)
    ensures Evict(s, p).1 == SizeOf(s.values, s.order[p])
    ensures Evict(s, p).1 + Total(Evict(s, p).0.values, Evict(s, p).0.order) == Total(s.values, s.order)
  {
    RemoveAtMembers(s.order, p);
    RemoveAtAccounting(s, p);
  }

  lemma AdmitAccounting(s: Store, index: nat, value: string)
    ensures Wellformed(s) && index !in s.values ==>
      && Wellformed(Store(s.values[index := value], s.order + [index], s.maxSize, s.current))
      && Total(s.values[index := value], s.order + [index]) == Total(s.values, s.order) + |value|
  {
    if Wellformed(s) && index !in s.values {
      var values := s.values[index := value];
      TotalConcat(values, s.order, [index]);
      TotalAgree(values, s.values, s.order);
    }
  }

  /** The last step of `[]=`: store the value, set the count to
      `current + size - evicted` and append the index to the order. When the
      index was not cached before, the result is well formed and its total
      grows by exactly the value's size. */
  function Admit(s: Store, index: nat, value: string, evicted: nat): (r: Store)
    ensures Lookup(r, index) == Some(value)
    ensures |r.order| > 0 && r.order[|r.order| - 1] == index
    ensures r.current == s.current + |value| - evicted
    ensures forall i :: i != index ==> Lookup(r, i) == Lookup(s, i)
    ensures Wellformed(s) && index !in s.values ==>
      Wellformed(r) && Total(r.values, r.order) == Total(s.values, s.order) + |value|
  {
    AdmitAccounting(s, index, value);
    Store(s.values[index := value], s.order + [index], s.maxSize, s.current + |value| - evicted)
  }

  /** Admitting a new value into what is left of a consistent store after
      evictions that freed more than the value's size keeps the accounting:
      the count equals the cached total and stays within the budget. */
  lemma AdmitAfterEvicting(s: Store, rest: Store, index: nat, value: string, evicted: nat)
    requires Consistent(s) && Wellformed(rest) && index !in rest.values
    requires rest.maxSize == s.maxSize && rest.current == s.current
    requires evicted + Total(rest.values, rest.order) == Total(s.values, s.order) && evicted > |value|
    ensures Consistent(Admit(rest, index, value, evicted))
  {
  }
}
