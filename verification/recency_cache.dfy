/** `RUCacheStrategy`: eviction by insertion order alone. With `most` set it
    pops the newest index off the tail of the order (the source labels this
    MRU); otherwise it shifts the oldest index off the head (labelled LRU).
    A read never moves an index. */
module RecencyCache {
  import opened Results
  import opened CacheStore

  datatype RUCache = RUCache(store: Store, most: bool)

  /** The position `evict_next` takes from: the tail for `most`, else the head. */
  function EndPosition(order: seq<nat>, most: bool): nat
    requires |order| > 0
  {
    if most then |order| - 1 else 0
  }

  /** The indices the first `k` evictions remove, as a segment of the order. */
  function Victims(order: seq<nat>, most: bool, k: nat): seq<nat>
    requires k <= |order|
  {
    if most then order[|order| - k..] else order[..k]
  }

  /** The order left after the first `k` evictions. */
  function Survivors(order: seq<nat>, most: bool, k: nat): seq<nat>
    requires k <= |order|
  {
    if most then order[..|order| - k] else order[k..]
  }

  /** `evict_next`: remove one end of the order and nil its slot, answering
      the removed value's size (0 for a nil slot). None is the TypeError
      `@value_list[nil]` raises once the order is empty; nothing has changed
      at that point. */
  function EvictNext(c: RUCache): (r: Option<(RUCache, nat)>)
    ensures r.None? <==> c.store.order == []
    ensures r.Some? ==> r.value.0.most == c.most && r.value.0.store.maxSize == c.store.maxSize
    ensures r.Some? ==> r.value.0.store.current == c.store.current
    ensures r.Some? ==>
      && r.value.0.store.order == Survivors(c.store.order, c.most, 1)
      && r.value.0.store.values == c.store.values - {c.store.order[EndPosition(c.store.order, c.most)]}
      && r.value.1 == SizeOf(c.store.values, c.store.order[EndPosition(c.store.order, c.most)])
  {
    if c.store.order == [] then None
    else
      var e := Evict(c.store, EndPosition(c.store.order, c.most));
      assert c.most ==> c.store.order[|c.store.order|..] == [];
      Some((RUCache(e.0, c.most), e.1))
  }

  /** The eviction loop of `[]=` stops after `k` evictions: `k` takes the
      evicted total past `size`, and `k - 1` did not. */
  ghost predicate FirstSufficient(values: map<nat, string>, order: seq<nat>, most: bool, size: nat, evicted: nat, k: nat)
    requires k <= |order|
  {
    && evicted + Total(values, Victims(order, most, k)) > size
    && (k > 0 ==> evicted + Total(values, Victims(order, most, k - 1)) <= size)
  }

  /** Where the eviction loop ends: it evicted enough (`Drained`), or it emptied
      the order and the next `evict_next` raises (`RanDry`). */
  datatype Drain = Drained(cache: RUCache, evicted: nat) | RanDry(cache: RUCache)

  /** `while evicted_size <= value.bytesize: evicted_size += evict_next()`. */
  function EvictUntil(c: RUCache, size: nat, evicted: nat): (r: Drain)
    ensures r.cache.most == c.most && r.cache.store.maxSize == c.store.maxSize
    ensures r.cache.store.current == c.store.current
    ensures r.Drained? ==> r.evicted > size
    ensures r.RanDry? ==> r.cache.store.order == [] && evicted <= size
    decreases |c.store.order|
  {
    if evicted > size then Drained(c, evicted)
    else
      match EvictNext(c)
      case None => RanDry(c)
      case Some((c', freed)) => EvictUntil(c', size, evicted + freed)
  }

  /** `[]=`: a value longer than the budget is ignored. Otherwise, when it
      does not fit, evict until more than its size is freed; then store it,
      set the count to `current + size - evicted` and append its index. If the
      order runs dry first, the TypeError leaves the evictions done and the
      count untouched. */
  function Put(c: RUCache, index: nat, value: string): (r: Outcome<RUCache>)
    ensures !r.Exited?
    ensures |value| > c.store.maxSize ==> r == Ok(c)
    ensures r.Ok? && |value| <= c.store.maxSize ==>
      && Lookup(r.state.store, index) == Some(value)
      && |r.state.store.order| > 0 && r.state.store.order[|r.state.store.order| - 1] == index
    ensures r.Raised? ==>
      && r.error == NilEvictionIndex
      && r.state.store.order == []
      && r.state.store.current == c.store.current
      && c.store.current + |value| > c.store.maxSize
    ensures !r.Exited? ==> r.state.most == c.most && r.state.store.maxSize == c.store.maxSize
  {
    var size := |value|;
    if size <= c.store.maxSize then
      var drain := if c.store.current + size > c.store.maxSize then EvictUntil(c, size, 0) else Drained(c, 0);
      match drain
      case Drained(c', evicted) => Ok(RUCache(Admit(c'.store, index, value, evicted), c.most))
      case RanDry(c') => Raised(NilEvictionIndex, c')
    else Ok(c)
  }

  /** On a well formed cache `evict_next` takes the newest index (`most`) or
      the oldest, nils exactly its slot, and answers exactly the size that
      leaves the cached total. */
  lemma EvictNextTakesAnEnd(c: RUCache)
    requires Wellformed(c.store) && c.store.order != []
    ensures EvictNext(c).Some?
    ensures c.most ==> c.store.order[EndPosition(c.store.order, c.most)] == c.store.order[|c.store.order| - 1]
    ensures !c.most ==> c.store.order[EndPosition(c.store.order, c.most)] == c.store.order[0]
    ensures Wellformed(EvictNext(c).value.0.store)
    ensures Lookup(EvictNext(c).value.0.store, c.store.order[EndPosition(c.store.order, c.most)]) == None
    ensures forall i :: i != c.store.order[EndPosition(c.store.order, c.most)] ==>
      Lookup(EvictNext(c).value.0.store, i) == Lookup(c.store, i)
    ensures EvictNext(c).value.1 + Total(EvictNext(c).value.0.store.values, EvictNext(c).value.0.store.order)
         == Total(c.store.values, c.store.order)
  {
    EvictAccounting(c.store, EndPosition(c.store.order, c.most));
    assert EvictNext(c).value.0.store == Evict(c.store, EndPosition(c.store.order, c.most)).0;
  }

  /** The store left after the first `k` evictions: the victims' slots are
      nil and the order keeps the survivors. */
  ghost function AfterEvictions(s: Store, most: bool, k: nat): Store
    requires k <= |s.order|
  {
    Store(s.values - Elems(Victims(s.order, most, k)), Survivors(s.order, most, k), s.maxSize, s.current)
  }

  /** In an order without repeats, the index at `p` occurs nowhere else. */
  lemma NotElsewhere(order: seq<nat>, p: nat, lo: nat, hi: nat)
    requires Distinct(order) && p < |order| && lo <= hi <= |order| && (p < lo || hi <= p)
    ensures order[p] !in order[lo..hi]
  {
    assert forall j :: 0 <= j < hi - lo ==> order[lo..hi][j] == order[lo + j];
  }

  /** Removing a key that is not among the summed indices leaves the total alone. */
  lemma TotalWithout(values: map<nat, string>, order: seq<nat>, gone: set<nat>)
    requires forall i :: i in order ==> i !in gone
    ensures Total(values - gone, order) == Total(values, order)
  {
    TotalAgree(values - gone, values, order);
  }

  /** `j + 1` evictions are one eviction followed by `j` more on what it leaves. */
  lemma VictimsStep(order: seq<nat>, most: bool, j: nat)
    requires j < |order|
    ensures Survivors(Survivors(order, most, 1), most, j) == Survivors(order, most, j + 1)
    ensures Victims(order, most, j + 1)
         == if most then Victims(Survivors(order, most, 1), most, j) + [order[EndPosition(order, most)]]
            else [order[EndPosition(order, most)]] + Victims(Survivors(order, most, 1), most, j)
  {
    var n := |order|;
    if most {
      assert Victims(order, most, j + 1) == order[n - 1 - j..n - 1] + [order[n - 1]];
    } else {
      assert Victims(order, most, j + 1) == [order[0]] + order[1..j + 1];
    }
  }

  /** What `j + 1` evictions free: the first victim's size, then what `j` more
      free once that victim's slot is nil. */
  lemma VictimsTotalStep(values: map<nat, string>, order: seq<nat>, most: bool, j: nat)
    requires Distinct(order) && j < |order|
    ensures Total(values, Victims(order, most, j + 1))
         == SizeOf(values, order[EndPosition(order, most)])
            + Total(values - {order[EndPosition(order, most)]}, Victims(Survivors(order, most, 1), most, j))
  {
    var n := |order|;
    var x := order[EndPosition(order, most)];
    var vs := Victims(Survivors(order, most, 1), most, j);
    VictimsStep(order, most, j);
    if most {
      assert vs == order[n - 1 - j..n - 1];
      TotalConcat(values, vs, [x]);
      NotElsewhere(order, n - 1, n - 1 - j, n - 1);
    } else {
      assert vs == order[1..j + 1];
      TotalConcat(values, [x], vs);
      NotElsewhere(order, 0, 1, j + 1);
    }
    TotalWithout(values, vs, {x});
  }

  /** The store after one eviction, then `j` more, is the store after `j + 1`. */
  lemma AfterEvictionsStep(s: Store, most: bool, j: nat)
    requires j < |s.order|
    ensures AfterEvictions(Store(s.values - {s.order[EndPosition(s.order, most)]}, Survivors(s.order, most, 1), s.maxSize, s.current), most, j)
         == AfterEvictions(s, most, j + 1)
  {
    VictimsStep(s.order, most, j);
    NilledStep(s.values, s.order, most, j);
  }

  /** The slots nil after one eviction and then `j` more are those nil after `j + 1`. */
  lemma NilledStep(values: map<nat, string>, order: seq<nat>, most: bool, j: nat)
    requires j < |order|
    ensures (values - {order[EndPosition(order, most)]}) - Elems(Victims(Survivors(order, most, 1), most, j))
         == values - Elems(Victims(order, most, j + 1))
  {
    VictimsStep(order, most, j);
    var x := order[EndPosition(order, most)];
    var vs := Victims(Survivors(order, most, 1), most, j);
    if most {
      ElemsConcat(vs, [x]);
    } else {
      ElemsConcat([x], vs);
    }
    assert Elems([x]) == {x};
  }

  lemma ElemsConcat(a: seq<nat>, b: seq<nat>)
    ensures Elems(a + b) == Elems(a) + Elems(b)
  {
  }

  /** Zero evictions leave the store as it is. */
  lemma AfterNoEvictions(s: Store, most: bool)
    ensures AfterEvictions(s, most, 0) == s
  {
    assert Victims(s.order, most, 0) == [];
    assert Elems([]) == {};
    assert Survivors(s.order, most, 0) == s.order;
  }

  /** The eviction loop, started on `c` with `e0` already evicted, ended in
      `d` after `k` evictions from the order's end. If it freed enough, `k` is
      the first count that frees more than `size`; if it ran dry, everything
      cached was not more than `size`. */
  ghost predicate EndsAfter(c: RUCache, size: nat, e0: nat, d: Drain, k: nat)
  {
    && k <= |c.store.order|
    && d.cache.store == AfterEvictions(c.store, c.most, k)
    && (d.Drained? ==>
          && d.evicted == e0 + Total(c.store.values, Victims(c.store.order, c.most, k))
          && FirstSufficient(c.store.values, c.store.order, c.most, size, e0, k))
    && (d.RanDry? ==> k == |c.store.order| && e0 + Total(c.store.values, c.store.order) <= size)
  }

  /** The freed total and the stopping rule carry over one eviction: counted
      from after the first victim they hold for `k`, counted from before they
      hold for `k + 1`. */
  lemma FreedStep(values: map<nat, string>, order: seq<nat>, most: bool, size: nat, e0: nat, evicted: nat, k: nat)
    requires Distinct(order) && e0 <= size && k < |order|
    requires evicted == e0 + SizeOf(values, order[EndPosition(order, most)])
      + Total(values - {order[EndPosition(order, most)]}, Victims(Survivors(order, most, 1), most, k))
    requires FirstSufficient(values - {order[EndPosition(order, most)]}, Survivors(order, most, 1), most, size,
      e0 + SizeOf(values, order[EndPosition(order, most)]), k)
    ensures evicted == e0 + Total(values, Victims(order, most, k + 1))
    ensures FirstSufficient(values, order, most, size, e0, k + 1)
  {
    VictimsTotalStep(values, order, most, k);
    if k > 0 {
      VictimsTotalStep(values, order, most, k - 1);
    } else {
      assert Victims(order, most, 0) == [];
    }
  }

  /** A loop that runs dry after the first victim ran dry from before it. */
  lemma DryStep(values: map<nat, string>, order: seq<nat>, most: bool, size: nat, e0: nat)
    requires Distinct(order) && order != []
    requires e0 + SizeOf(values, order[EndPosition(order, most)])
      + Total(values - {order[EndPosition(order, most)]}, Survivors(order, most, 1)) <= size
    ensures e0 + Total(values, order) <= size
  {
    var rest := Survivors(order, most, 1);
    VictimsTotalStep(values, order, most, |rest|);
    assert Victims(rest, most, |rest|) == rest;
    assert Victims(order, most, |order|) == order;
  }

  /** If the loop ends after `k` evictions once the first victim is gone, it
      ends after `k + 1` counted from before. */
  lemma EndsAfterStep(c: RUCache, size: nat, e0: nat, k: nat)
    requires Distinct(c.store.order) && e0 <= size && c.store.order != []
    requires EndsAfter(EvictNext(c).value.0, size, e0 + EvictNext(c).value.1, EvictUntil(EvictNext(c).value.0, size, e0 + EvictNext(c).value.1), k)
    ensures EndsAfter(c, size, e0, EvictUntil(c, size, e0), k + 1)
  {
    EvictUntilStep(c, size, e0);
    AfterEvictionsStep(c.store, c.most, k);
    if EvictUntil(c, size, e0).Drained? {
      FreedStep(c.store.values, c.store.order, c.most, size, e0, EvictUntil(c, size, e0).evicted, k);
    } else {
      DryStep(c.store.values, c.store.order, c.most, size, e0);
    }
  }

  /** A loop that has already evicted enough, or has nothing to evict, ends
      after no eviction. */
  lemma EndsAfterNone(c: RUCache, size: nat, e0: nat)
    requires e0 > size || c.store.order == []
    ensures EndsAfter(c, size, e0, EvictUntil(c, size, e0), 0)
  {
    AfterNoEvictions(c.store, c.most);
    assert Victims(c.store.order, c.most, 0) == [];
  }

  /** Where the eviction loop of `[]=` ends: after some `k` evictions. */
  lemma {:induction false} EvictUntilShape(c: RUCache, size: nat, e0: nat) returns (k: nat)
    requires Distinct(c.store.order)
    ensures EndsAfter(c, size, e0, EvictUntil(c, size, e0), k)
    decreases |c.store.order|
  {
    if e0 > size || c.store.order == [] {
      k := 0;
      EndsAfterNone(c, size, e0);
    } else {
      SurvivorsDistinct(c.store.order, c.most, 1);
      var k1 := EvictUntilShape(EvictNext(c).value.0, size, e0 + EvictNext(c).value.1);
      EndsAfterStep(c, size, e0, k1);
      k := k1 + 1;
    }
  }

  /** One turn of the eviction loop. */
  lemma EvictUntilStep(c: RUCache, size: nat, e0: nat)
    requires e0 <= size && c.store.order != []
    ensures EvictUntil(c, size, e0) == EvictUntil(EvictNext(c).value.0, size, e0 + EvictNext(c).value.1)
  {
  }

  /** The victims and the survivors of `k` evictions share no index. */
  lemma SurvivorsAreNotVictims(order: seq<nat>, most: bool, k: nat)
    requires Distinct(order) && k <= |order|
    ensures forall i :: i in Survivors(order, most, k) ==> i !in Elems(Victims(order, most, k))
  {
    var n := |order|;
    forall i | i in Survivors(order, most, k)
      ensures i !in Elems(Victims(order, most, k))
    {
      if most {
        var p :| 0 <= p < n - k && order[p] == i;
        NotElsewhere(order, p, n - k, n);
      } else {
        var p :| 0 <= p < n - k && Survivors(order, most, k)[p] == i;
        NotElsewhere(order, k + p, 0, k);
      }
    }
  }

  /** The total splits into what the first `k` evictions remove and what they leave. */
  lemma SplitTotal(values: map<nat, string>, order: seq<nat>, most: bool, k: nat)
    requires k <= |order|
    ensures Total(values, order) == Total(values, Victims(order, most, k)) + Total(values, Survivors(order, most, k))
  {
    if most {
      assert order == Survivors(order, most, k) + Victims(order, most, k);
      TotalConcat(values, Survivors(order, most, k), Victims(order, most, k));
    } else {
      assert order == Victims(order, most, k) + Survivors(order, most, k);
      TotalConcat(values, Victims(order, most, k), Survivors(order, most, k));
    }
  }

  /** The survivors of `k` evictions are a slice of the order, so they hold
      no repeats either. */
  lemma SurvivorsDistinct(order: seq<nat>, most: bool, k: nat)
    requires Distinct(order) && k <= |order|
    ensures Distinct(Survivors(order, most, k))
  {
    var rest := Survivors(order, most, k);
    var lo := if most then 0 else k;
    assert forall j :: 0 <= j < |rest| ==> rest[j] == order[lo + j];
  }

  /** Every index of the order is a victim or a survivor. */
  lemma VictimsAndSurvivors(order: seq<nat>, most: bool, k: nat)
    requires k <= |order|
    ensures forall i :: i in order <==> i in Victims(order, most, k) || i in Survivors(order, most, k)
  {
    if most {
      assert order == Survivors(order, most, k) + Victims(order, most, k);
    } else {
      assert order == Victims(order, most, k) + Survivors(order, most, k);
    }
  }

  /** After `k` evictions the cached indices are exactly the survivors. */
  lemma SurvivorsAreCached(s: Store, most: bool, k: nat)
    requires Wellformed(s) && k <= |s.order|
    ensures (s.values - Elems(Victims(s.order, most, k))).Keys == Elems(Survivors(s.order, most, k))
  {
    SurvivorsAreNotVictims(s.order, most, k);
    VictimsAndSurvivors(s.order, most, k);
  }

  /** Evicting from a well formed store leaves it well formed, and what is
      left sums to the old total less the victims' sizes. */
  lemma AfterEvictionsAccounting(s: Store, most: bool, k: nat)
    requires Wellformed(s) && k <= |s.order|
    ensures Wellformed(AfterEvictions(s, most, k))
    ensures Total(AfterEvictions(s, most, k).values, AfterEvictions(s, most, k).order) + Total(s.values, Victims(s.order, most, k))
         == Total(s.values, s.order)
  {
    SurvivorsDistinct(s.order, most, k);
    SurvivorsAreCached(s, most, k);
    SurvivorsAreNotVictims(s.order, most, k);
    SplitTotal(s.values, s.order, most, k);
    TotalWithout(s.values, Survivors(s.order, most, k), Elems(Victims(s.order, most, k)));
  }

  /** The accounting of `[]=` on a consistent cache, for an index not yet
      cached and a value within the budget: the put raises exactly when the
      value does not fit and everything cached is not more than its size;
      otherwise the value is cached at the end of the order, the count still
      equals the cached total within the budget, nothing was evicted when the
      value fit, and when it did not, the order lost exactly its first `k`
      eviction candidates for the first `k` that freed more than the size. */
  lemma PutKeepsAccounting(c: RUCache, index: nat, value: string)
    requires Consistent(c.store) && index !in c.store.values && |value| <= c.store.maxSize
    ensures Put(c, index, value).Raised?
      <==> c.store.current + |value| > c.store.maxSize && c.store.current <= |value|
    ensures Put(c, index, value).Ok? ==>
      && Consistent(Put(c, index, value).state.store)
      && Lookup(Put(c, index, value).state.store, index) == Some(value)
      && Put(c, index, value).state.store.order[|Put(c, index, value).state.store.order| - 1] == index
    ensures Put(c, index, value).Ok? && c.store.current + |value| <= c.store.maxSize ==>
      && Put(c, index, value).state.store.order == c.store.order + [index]
      && Put(c, index, value).state.store.values == c.store.values[index := value]
    ensures Put(c, index, value).Ok? && c.store.current + |value| > c.store.maxSize ==>
      exists k :: 0 < k <= |c.store.order|
        && Put(c, index, value).state.store.order == Survivors(c.store.order, c.most, k) + [index]
        && FirstSufficient(c.store.values, c.store.order, c.most, |value|, 0, k)
  {
    if c.store.current + |value| > c.store.maxSize {
      var k := EvictUntilShape(c, |value|, 0);
      PutAfterEvicting(c, index, value, k);
    } else {
      assert Put(c, index, value).state.store == Admit(c.store, index, value, 0);
    }
  }

  /** Admitting a value into a consistent store, after evictions that freed
      more than its size, keeps the store consistent. */
  lemma AdmitAfterEvictions(s: Store, most: bool, k: nat, index: nat, value: string, evicted: nat)
    requires Consistent(s) && index !in s.values && k <= |s.order|
    requires evicted == Total(s.values, Victims(s.order, most, k)) && evicted > |value|
    ensures Consistent(Admit(AfterEvictions(s, most, k), index, value, evicted))
  {
    AfterEvictionsAccounting(s, most, k);
    AdmitAfterEvicting(s, AfterEvictions(s, most, k), index, value, evicted);
  }

  /** `[]=` once the eviction loop is known to end after `k` evictions. */
  lemma PutAfterEvicting(c: RUCache, index: nat, value: string, k: nat)
    requires Consistent(c.store) && index !in c.store.values && |value| <= c.store.maxSize
    requires c.store.current + |value| > c.store.maxSize
    requires EndsAfter(c, |value|, 0, EvictUntil(c, |value|, 0), k)
    ensures Put(c, index, value).Raised? <==> c.store.current <= |value|
    ensures Put(c, index, value).Ok? ==>
      && 0 < k <= |c.store.order|
      && Consistent(Put(c, index, value).state.store)
      && Put(c, index, value).state.store.order == Survivors(c.store.order, c.most, k) + [index]
      && FirstSufficient(c.store.values, c.store.order, c.most, |value|, 0, k)
  {
    if EvictUntil(c, |value|, 0).Drained? {
      PutDrained(c, index, value, k);
    } else {
      assert Put(c, index, value).Raised?;
    }
  }

  /** Evictions that stopped at the first sufficient count freed more than
      the value's size, so the cache held more than that, and admitting the
      value into what is left keeps the accounting. */
  lemma DrainedAccounting(s: Store, most: bool, k: nat, index: nat, value: string, evicted: nat)
    requires Consistent(s) && index !in s.values && k <= |s.order|
    requires evicted == Total(s.values, Victims(s.order, most, k))
    requires FirstSufficient(s.values, s.order, most, |value|, 0, k)
    ensures s.current > |value| && 0 < k
    ensures Consistent(Admit(AfterEvictions(s, most, k), index, value, evicted))
  {
    SplitTotal(s.values, s.order, most, k);
    AdmitAfterEvictions(s, most, k, index, value, evicted);
    assert k != 0 by {
      assert Victims(s.order, most, 0) == [];
    }
  }

  lemma PutDrained(c: RUCache, index: nat, value: string, k: nat)
    requires Consistent(c.store) && index !in c.store.values && |value| <= c.store.maxSize
    requires c.store.current + |value| > c.store.maxSize
    requires EndsAfter(c, |value|, 0, EvictUntil(c, |value|, 0), k)
    requires EvictUntil(c, |value|, 0).Drained?
    ensures c.store.current > |value|
    ensures Put(c, index, value)
         == Ok(RUCache(Admit(AfterEvictions(c.store, c.most, k), index, value, EvictUntil(c, |value|, 0).evicted), c.most))
    ensures 0 < k <= |c.store.order|
    ensures Consistent(Admit(AfterEvictions(c.store, c.most, k), index, value, EvictUntil(c, |value|, 0).evicted))
  {
    PutThroughDrain(c, index, value, EvictUntil(c, |value|, 0).cache, EvictUntil(c, |value|, 0).evicted);
    DrainedAccounting(c.store, c.most, k, index, value, EvictUntil(c, |value|, 0).evicted);
  }

  /** A raising put leaves the cache empty while the count keeps its old,
      positive value: the accounting invariant is broken from then on. */
  lemma RaiseLeavesStaleCount(c: RUCache, index: nat, value: string)
    requires Consistent(c.store) && index !in c.store.values && |value| <= c.store.maxSize
    requires Put(c, index, value).Raised?
    ensures forall i :: Lookup(Put(c, index, value).state.store, i) == None
    ensures Put(c, index, value).state.store.current == c.store.current > 0
    ensures !Consistent(Put(c, index, value).state.store)
  {
    var k := EvictUntilShape(c, |value|, 0);
    AfterEvictionsAccounting(c.store, c.most, k);
    PutKeepsAccounting(c, index, value);
  }

  /** Three one-character lines `a`, `b`, `c`, cached in that order,
      filling a budget of 3. */
  function Full(a: string, b: string, c: string): Store
  {
    Store(map[0 := a, 1 := b, 2 := c], [0, 1, 2], 3, 3)
  }

  /** The full cache keeps the accounting: its count is the total of its
      three lines and equals the budget. */
  lemma FullConsistent(a: string, b: string, c: string)
    requires |a| == 1 && |b| == 1 && |c| == 1
    ensures Consistent(Full(a, b, c))
  {
    var s := Full(a, b, c);
    assert s.order[1..] == [1, 2] && [1, 2][1..] == [2] && [2][1..] == [];
    assert Total(s.values, [2]) == 1;
    assert Total(s.values, [1, 2]) == 2;
    assert Total(s.values, s.order) == 3;
    assert Elems(s.order) == {0, 1, 2};
  }

  /** Shifting twice off the head of the full cache frees 2. */
  lemma LeastRecentEvictions(a: string, b: string, c: string)
    requires |a| == 1 && |b| == 1 && |c| == 1
    ensures EvictUntil(RUCache(Full(a, b, c), false), 1, 0)
         == Drained(RUCache(Store(map[2 := c], [2], 3, 3), false), 2)
  {
    var s0 := Full(a, b, c);
    var s1 := Store(map[1 := b, 2 := c], [1, 2], 3, 3);
    var s2 := Store(map[2 := c], [2], 3, 3);
    assert s0.values - {0} == s1.values;
    assert s0.order[..0] + s0.order[1..] == s1.order;
    assert EvictNext(RUCache(s0, false)) == Some((RUCache(s1, false), 1));
    assert s1.values - {1} == s2.values;
    assert s1.order[..0] + s1.order[1..] == s2.order;
    assert EvictNext(RUCache(s1, false)) == Some((RUCache(s2, false), 1));
    assert EvictUntil(RUCache(s1, false), 1, 1) == EvictUntil(RUCache(s2, false), 1, 2);
    assert EvictUntil(RUCache(s0, false), 1, 0) == EvictUntil(RUCache(s1, false), 1, 1);
  }

  /** Popping twice off the tail of the full cache frees 2. */
  lemma MostRecentEvictions(a: string, b: string, c: string)
    requires |a| == 1 && |b| == 1 && |c| == 1
    ensures EvictUntil(RUCache(Full(a, b, c), true), 1, 0)
         == Drained(RUCache(Store(map[0 := a], [0], 3, 3), true), 2)
  {
    var s0 := Full(a, b, c);
    var s1 := Store(map[0 := a, 1 := b], [0, 1], 3, 3);
    var s2 := Store(map[0 := a], [0], 3, 3);
    assert s0.values - {2} == s1.values;
    assert s0.order[..2] + s0.order[3..] == s1.order;
    assert EvictNext(RUCache(s0, true)) == Some((RUCache(s1, true), 1));
    assert s1.values - {1} == s2.values;
    assert s1.order[..1] + s1.order[2..] == s2.order;
    assert EvictNext(RUCache(s1, true)) == Some((RUCache(s2, true), 1));
    assert EvictUntil(RUCache(s1, true), 1, 1) == EvictUntil(RUCache(s2, true), 1, 2);
    assert EvictUntil(RUCache(s0, true), 1, 0) == EvictUntil(RUCache(s1, true), 1, 1);
  }

  /** A put whose eviction loop drains to `d` stores the value into what
      the loop left. */
  lemma PutThroughDrain(c: RUCache, index: nat, value: string, d: RUCache, evicted: nat)
    requires c.store.current + |value| > c.store.maxSize && |value| <= c.store.maxSize
    requires EvictUntil(c, |value|, 0) == Drained(d, evicted)
    ensures Put(c, index, value) == Ok(RUCache(Admit(d.store, index, value, evicted), c.most))
  {
  }

  /** The "LRU" strategy makes room for a fourth one-character line by
      shifting the two oldest indices off the head: the first eviction frees
      1, which is not more than the new line's size, so a second one runs. */
  lemma LeastRecentShiftsOldest(a: string, b: string, c: string, d: string)
    requires |a| == 1 && |b| == 1 && |c| == 1 && |d| == 1
    ensures Put(RUCache(Full(a, b, c), false), 3, d)
         == Ok(RUCache(Store(map[2 := c, 3 := d], [2, 3], 3, 2), false))
  {
    var s2 := Store(map[2 := c], [2], 3, 3);
    LeastRecentEvictions(a, b, c);
    PutThroughDrain(RUCache(Full(a, b, c), false), 3, d, RUCache(s2, false), 2);
    assert s2.order + [3] == [2, 3];
  }

  /** The "MRU" strategy pops the two newest indices off the tail instead,
      keeping the oldest line. */
  lemma MostRecentPopsNewest(a: string, b: string, c: string, d: string)
    requires |a| == 1 && |b| == 1 && |c| == 1 && |d| == 1
    ensures Put(RUCache(Full(a, b, c), true), 3, d)
         == Ok(RUCache(Store(map[0 := a, 3 := d], [0, 3], 3, 2), true))
  {
    var s2 := Store(map[0 := a], [0], 3, 3);
    MostRecentEvictions(a, b, c);
    PutThroughDrain(RUCache(Full(a, b, c), true), 3, d, RUCache(s2, true), 2);
    assert s2.order + [3] == [0, 3];
  }
}
