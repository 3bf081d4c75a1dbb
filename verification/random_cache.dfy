/** `RandomCacheStrategy`: eviction at random positions of the insertion
    order. The random source is a parameter: the `k`-th eviction of one `[]=`
    takes position `rng(k) % length` of the order, as `rand(length)` would. */
module RandomCache {
  import opened Results
  import opened CacheStore

  /** The position the `draw`-th eviction takes from (0 for an empty order,
      where nothing is taken). */
  function Position(s: Store, rng: nat -> nat, draw: nat): (p: nat)
    ensures s.order != [] ==> p < |s.order|
  {
    if s.order == [] then 0 else rng(draw) % |s.order|
  }

  /** `evict_next` with the drawn position `p`: on an empty order it answers
      -1 and changes nothing; otherwise it deletes position `p` from the
      order, nils that index's slot, and answers the value's size (0 for a nil
      slot). */
  function EvictNext(s: Store, p: nat): (r: (Store, int))
    requires s.order != [] ==> p < |s.order|
    ensures r.1 == -1 <==> s.order == []
    ensures s.order == [] ==> r.0 == s
    ensures s.order != [] ==> |r.0.order| == |s.order| - 1 && r.1 >= 0
    ensures s.order != [] ==> r.0.values == s.values - {s.order[p]}
    ensures r.0.maxSize == s.maxSize && r.0.current == s.current
  {
    if s.order == [] then (s, -1 as int)
    else
      var e := Evict(s, p);
      (e.0, e.1)
  }

  /** On a well formed store `evict_next` removes the drawn position: that
      index leaves the order and its slot is nil, nothing else changes, and the
      answer is exactly the size that leaves the cached total. */
  lemma EvictNextRemovesDrawn(s: Store, p: nat)
    requires Wellformed(s) && p < |s.order|
    ensures EvictNext(s, p).0.order == s.order[..p] + s.order[p + 1..]
    ensures EvictNext(s, p).0.values == s.values - {s.order[p]}
    ensures Wellformed(EvictNext(s, p).0)
    ensures Lookup(EvictNext(s, p).0, s.order[p]) == None
    ensures forall i :: i != s.order[p] ==> Lookup(EvictNext(s, p).0, i) == Lookup(s, i)
    ensures EvictNext(s, p).1 == SizeOf(s.values, s.order[p])
    ensures EvictNext(s, p).1 + Total(EvictNext(s, p).0.values, EvictNext(s, p).0.order) == Total(s.values, s.order)
  {
    EvictAccounting(s, p);
  }

  /** What one `evict_next` does to a well formed store, as an implication
      so that a function body can use it. */
  lemma EvictNextFacts(s: Store, p: nat)
    requires s.order != [] ==> p < |s.order|
    ensures Wellformed(s) && s.order != [] ==>
      && Wellformed(EvictNext(s, p).0)
      && EvictNext(s, p).0.values == s.values - {s.order[p]}
      && s.order[p] in s.values
      && EvictNext(s, p).1 == |s.values[s.order[p]]|
      && EvictNext(s, p).1 + Total(EvictNext(s, p).0.values, EvictNext(s, p).0.order) == Total(s.values, s.order)
  {
    if Wellformed(s) && s.order != [] {
      EvictNextRemovesDrawn(s, p);
    }
  }

  /** The eviction loop of `[]=`, `draw` evictions in: stop once more than
      `size` is evicted; an `evict_next` answering 0 or less calls `exit`
      (None). On a well formed store a finished loop leaves a well formed
      store whose total went down by exactly what it evicted; the loop exits
      when everything cached cannot free more than `size`, and, when no
      cached value is empty, only then. */
  function EvictUntil(s: Store, size: nat, evicted: nat, rng: nat -> nat, draw: nat): (r: Option<(Store, nat)>)
    ensures r.Some? ==> r.value.1 > size
    ensures r.Some? ==> r.value.0.maxSize == s.maxSize && r.value.0.current == s.current
    ensures Wellformed(s) && r.Some? ==>
      && Wellformed(r.value.0)
      && r.value.0.values.Keys <= s.values.Keys
      && r.value.1 + Total(r.value.0.values, r.value.0.order) == evicted + Total(s.values, s.order)
    ensures Wellformed(s) && evicted + Total(s.values, s.order) <= size ==> r.None?
    ensures Wellformed(s) && NoEmptyValues(s) && r.None? ==> evicted + Total(s.values, s.order) <= size
    decreases |s.order|
  {
    if evicted > size then Some((s, evicted))
    else
      var e := EvictNext(s, Position(s, rng, draw));
      EvictNextFacts(s, Position(s, rng, draw));
      if e.1 > 0 then EvictUntil(e.0, size, evicted + e.1, rng, draw + 1) else None
  }

  /** `[]=`: when the value does not fit and is smaller than the budget,
      evict at random until more than its size is freed, calling `exit`
      (which raises SystemExit; no state is modelled after it) if an
      eviction frees nothing. Then, whatever the guard said, store the value,
      set the count to `current + size - evicted` and append the index. A value as large as the budget is stored without eviction.
      After evictions the count drops by what was evicted, more than the
      value's size, and every other line still cached is the line cached
      before. On a well formed store and a new index, the count stays off
      the cached total by exactly what it was off before. */
  function Put(s: Store, index: nat, value: string, rng: nat -> nat): (r: Outcome<Store>)
    ensures !r.Raised?
    ensures r.Ok? ==>
      && Lookup(r.state, index) == Some(value)
      && |r.state.order| > 0 && r.state.order[|r.state.order| - 1] == index
      && r.state.maxSize == s.maxSize
    ensures !(s.current + |value| > s.maxSize && |value| < s.maxSize) ==>
      && r.Ok?
      && r.state.order == s.order + [index]
      && r.state.current == s.current + |value|
      && forall i :: i != index ==> Lookup(r.state, i) == Lookup(s, i)
    ensures r.Ok? && s.current + |value| > s.maxSize && |value| < s.maxSize ==>
      && s.current + |value| - r.state.current > |value|
      && forall i :: i != index && Lookup(r.state, i).Some? ==> Lookup(r.state, i) == Lookup(s, i)
    ensures r.Ok? && Wellformed(s) && index !in s.values ==>
      && Wellformed(r.state)
      && (s.current + |value| - r.state.current) + Total(r.state.values, r.state.order)
         == Total(s.values, s.order) + |value|
  {
    if s.current + |value| > s.maxSize && |value| < s.maxSize then
      EvictUntilKeeps(s, |value|, 0, rng, 0);
      match EvictUntil(s, |value|, 0, rng, 0)
      case None => Exited
      case Some((s', evicted)) => Ok(Admit(s', index, value, evicted))
    else Ok(Admit(s, index, value, 0))
  }

  /** The eviction loop calls `exit` as soon as one draw frees nothing: the
      order is empty, or the drawn index holds an empty line or a nil slot.
      This holds however much the rest of the cache could free. */
  lemma EmptyVictimExits(s: Store, size: nat, evicted: nat, rng: nat -> nat, draw: nat)
    requires evicted <= size
    requires s.order != [] ==> SizeOf(s.values, s.order[Position(s, rng, draw)]) == 0
    ensures EvictUntil(s, size, evicted, rng, draw).None?
  {
  }

  /** A put that must evict exits when its first draw frees nothing. */
  lemma PutExitsOnEmptyVictim(s: Store, index: nat, value: string, rng: nat -> nat)
    requires s.current + |value| > s.maxSize && |value| < s.maxSize
    requires s.order != [] ==> SizeOf(s.values, s.order[Position(s, rng, 0)]) == 0
    ensures Put(s, index, value, rng).Exited?
  {
    EmptyVictimExits(s, |value|, 0, rng, 0);
  }

  /** The store after `k` turns from the `draw`-th on, whatever they
      answered. Each turn deletes one position, so the indices left keep
      their relative order. */
  ghost function Drawn(s: Store, rng: nat -> nat, draw: nat, k: nat): Store
    decreases k
  {
    if k == 0 then s else Drawn(EvictNext(s, Position(s, rng, draw)).0, rng, draw + 1, k - 1)
  }

  /** The sum of the answers of those `k` turns. */
  ghost function Freed(s: Store, rng: nat -> nat, draw: nat, k: nat): int
    decreases k
  {
    if k == 0 then 0 else EvictNext(s, Position(s, rng, draw)).1 + Freed(EvictNext(s, Position(s, rng, draw)).0, rng, draw + 1, k - 1)
  }

  /** The answer of the turn that follows those `k`. */
  ghost function Answer(s: Store, rng: nat -> nat, draw: nat, k: nat): int
  {
    EvictNext(Drawn(s, rng, draw, k), Position(Drawn(s, rng, draw, k), rng, draw + k)).1
  }

  /** The loop, entered with `e0` evicted at the `draw`-th turn, ends with
      `r` after exactly `k` turns: each of them found not more than `size`
      evicted and answered more than 0; then either more than `size` is
      evicted and the loop returns the store those turns left with the total
      evicted, or the next answer is 0 or less and the loop exits. */
  ghost predicate EndsAfter(s: Store, size: nat, e0: nat, rng: nat -> nat, draw: nat, r: Option<(Store, nat)>, k: nat)
  {
    && (forall j :: 0 <= j < k ==> e0 + Freed(s, rng, draw, j) <= size && Answer(s, rng, draw, j) > 0)
    && (r.Some? <==> e0 + Freed(s, rng, draw, k) > size)
    && (r.Some? ==> r.value.0 == Drawn(s, rng, draw, k) && r.value.1 == e0 + Freed(s, rng, draw, k))
    && (r.None? ==> Answer(s, rng, draw, k) <= 0)
  }

  /** Unfolding the first of `j + 1` turns. */
  lemma DrawnStep(s: Store, rng: nat -> nat, draw: nat, j: nat)
    ensures Drawn(s, rng, draw, j + 1) == Drawn(EvictNext(s, Position(s, rng, draw)).0, rng, draw + 1, j)
    ensures Freed(s, rng, draw, j + 1) == EvictNext(s, Position(s, rng, draw)).1 + Freed(EvictNext(s, Position(s, rng, draw)).0, rng, draw + 1, j)
    ensures Answer(s, rng, draw, j + 1) == Answer(EvictNext(s, Position(s, rng, draw)).0, rng, draw + 1, j)
  {
    assert draw + (j + 1) == (draw + 1) + j;
  }

  /** A turn that answered more than 0 with not more than `size` evicted
      puts one more turn in front of where the rest of the loop ends. */
  lemma EndsAfterStep(s: Store, size: nat, e0: nat, rng: nat -> nat, draw: nat, r: Option<(Store, nat)>, k: nat)
    requires e0 <= size && EvictNext(s, Position(s, rng, draw)).1 > 0
    requires EndsAfter(EvictNext(s, Position(s, rng, draw)).0, size, e0 + EvictNext(s, Position(s, rng, draw)).1, rng, draw + 1, r, k)
    ensures EndsAfter(s, size, e0, rng, draw, r, k + 1)
  {
    DrawnStep(s, rng, draw, k);
    forall j | 0 <= j < k + 1
      ensures e0 + Freed(s, rng, draw, j) <= size && Answer(s, rng, draw, j) > 0
    {
      if j > 0 {
        DrawnStep(s, rng, draw, j - 1);
      }
    }
  }

  /** The loop stops at once when more than `size` is already evicted or
      the next draw evicts nothing. */
  lemma EndsAfterNone(s: Store, size: nat, e0: nat, rng: nat -> nat, draw: nat)
    requires e0 > size || EvictNext(s, Position(s, rng, draw)).1 <= 0
    ensures EndsAfter(s, size, e0, rng, draw, EvictUntil(s, size, e0, rng, draw), 0)
  {
    assert draw + 0 == draw;
  }

  /** Draws only remove slots: every line still cached after `k` turns is
      the line cached before them. */
  lemma {:induction false} DrawnKeeps(s: Store, rng: nat -> nat, draw: nat, k: nat)
    ensures forall i :: i in Drawn(s, rng, draw, k).values ==>
      i in s.values && Drawn(s, rng, draw, k).values[i] == s.values[i]
    decreases k
  {
    if k > 0 {
      DrawnKeeps(EvictNext(s, Position(s, rng, draw)).0, rng, draw + 1, k - 1);
    }
  }

  /** Where the random eviction loop ends: after the least number `k` of
      turns that evict more than `size`, every earlier turn having evicted
      something, or at the first turn that evicts nothing. A finished loop
      returns exactly the store its `k` draws left. */
  lemma {:induction false} EvictUntilShape(s: Store, size: nat, e0: nat, rng: nat -> nat, draw: nat) returns (k: nat)
    ensures EndsAfter(s, size, e0, rng, draw, EvictUntil(s, size, e0, rng, draw), k)
    decreases |s.order|
  {
    if e0 > size || EvictNext(s, Position(s, rng, draw)).1 <= 0 {
      EndsAfterNone(s, size, e0, rng, draw);
      k := 0;
    } else {
      var t := EvictNext(s, Position(s, rng, draw));
      var k1 := EvictUntilShape(t.0, size, e0 + t.1, rng, draw + 1);
      EndsAfterStep(s, size, e0, rng, draw, EvictUntil(s, size, e0, rng, draw), k1);
      k := k1 + 1;
    }
  }

  /** A finished loop has only removed slots: every line still cached is
      the line cached before. */
  lemma EvictUntilKeeps(s: Store, size: nat, e0: nat, rng: nat -> nat, draw: nat)
    ensures EvictUntil(s, size, e0, rng, draw).Some? ==>
      forall i :: i in EvictUntil(s, size, e0, rng, draw).value.0.values ==>
        i in s.values && EvictUntil(s, size, e0, rng, draw).value.0.values[i] == s.values[i]
  {
    var k := EvictUntilShape(s, size, e0, rng, draw);
    DrawnKeeps(s, rng, draw, k);
  }

  /** The eviction path of `[]=`: the put draws in turn and stops at the
      first draw that takes what it evicted past the value's size, each
      earlier draw having evicted something. A put that returns stores the
      value into exactly the store those `k` draws left, taking what they
      evicted off the count; one that exits met a draw that evicted
      nothing. */
  lemma PutEvictsUntilEnough(s: Store, index: nat, value: string, rng: nat -> nat) returns (k: nat)
    requires s.current + |value| > s.maxSize && |value| < s.maxSize
    ensures forall j :: 0 <= j < k ==> Freed(s, rng, 0, j) <= |value| && Answer(s, rng, 0, j) > 0
    ensures Put(s, index, value, rng).Ok? <==> Freed(s, rng, 0, k) > |value|
    ensures Put(s, index, value, rng).Ok? ==>
      Freed(s, rng, 0, k) > |value| &&
      Put(s, index, value, rng).state == Admit(Drawn(s, rng, 0, k), index, value, Freed(s, rng, 0, k) as nat)
    ensures Put(s, index, value, rng).Exited? ==> Answer(s, rng, 0, k) <= 0
  {
    k := EvictUntilShape(s, |value|, 0, rng, 0);
  }

  /** Every cached value is at least one character long. */
  ghost predicate NoEmptyValues(s: Store)
  {
    forall i :: i in s.values ==> |s.values[i]| > 0
  }

  /** The accounting of `[]=` on a consistent cache, for an index not yet
      cached and a value that either fits or is smaller than the budget: a
      put that returns leaves the cache consistent with the value cached at
      the end of the order; a value that fits is added without eviction. A
      put exits whenever everything cached is not more than the value's size
      and the value does not fit, and, when no cached value is empty, only
      then. */
  lemma PutKeepsAccounting(s: Store, index: nat, value: string, rng: nat -> nat)
    requires Consistent(s) && index !in s.values
    requires |value| < s.maxSize || s.current + |value| <= s.maxSize
    ensures Put(s, index, value, rng).Ok? ==> Consistent(Put(s, index, value, rng).state)
    ensures s.current + |value| <= s.maxSize ==>
      && Put(s, index, value, rng).Ok?
      && Put(s, index, value, rng).state.values == s.values[index := value]
    ensures s.current + |value| > s.maxSize && s.current <= |value| ==> Put(s, index, value, rng).Exited?
    ensures NoEmptyValues(s) ==>
      (Put(s, index, value, rng).Exited? <==> s.current + |value| > s.maxSize && s.current <= |value|)
  {
  }

  /** The guard lets a value as large as the budget through without eviction:
      it is cached and counted in full, and the count ends above the budget
      whenever the value did not fit. */
  lemma OversizedIsStored(s: Store, index: nat, value: string, rng: nat -> nat)
    requires Consistent(s) && index !in s.values
    requires |value| >= s.maxSize
    ensures Put(s, index, value, rng).Ok?
    ensures Lookup(Put(s, index, value, rng).state, index) == Some(value)
    ensures Put(s, index, value, rng).state.current == s.current + |value|
    ensures Wellformed(Put(s, index, value, rng).state)
    ensures Total(Put(s, index, value, rng).state.values, Put(s, index, value, rng).state.order)
         == Put(s, index, value, rng).state.current
    ensures Consistent(Put(s, index, value, rng).state) <==> s.current + |value| <= s.maxSize
  {
  }

  /** A random source whose every draw is 0. */
  function DrawZero(k: nat): nat { 0 }

  /** A random source whose every draw is 1. */
  function DrawOne(k: nat): nat { 1 }

  /** The example cache: `""` at index 0 and `"abcdefgh"` at index 1, in a
      budget of 10. */
  function Example(): Store
  {
    Store(map[0 := "", 1 := "abcdefgh"], [0, 1], 10, 8)
  }

  /** The example cache keeps the accounting, and one of its lines is empty. */
  lemma ExampleConsistent()
    ensures Consistent(Example())
    ensures !NoEmptyValues(Example())
  {
    assert Elems(Example().order) == {0, 1};
    assert Total(Example().values, Example().order) == 8;
  }

  /** An empty cached value freed by the first eviction calls `exit` (which
      raises SystemExit; no state is modelled after it) even though the cache holds enough to make room: putting `"hello"` into the
      example cache exits when the draw picks position 0. */
  lemma ZeroByteVictimExits()
    ensures Consistent(Example())
    ensures Example().current + |"hello"| > Example().maxSize && Example().current > |"hello"|
    ensures Put(Example(), 2, "hello", DrawZero).Exited?
  {
    ExampleConsistent();
    assert Position(Example(), DrawZero, 0) == 0;
    assert EvictNext(Example(), 0).1 == 0;
  }

  /** The same put stores the line when the draw picks position 1: evicting
      `"abcdefgh"` frees enough. */
  lemma NonEmptyVictimMakesRoom()
    ensures Put(Example(), 2, "hello", DrawOne) == Ok(Store(map[0 := "", 2 := "hello"], [0, 2], 10, 5))
  {
    var s1 := Store(map[0 := ""], [0], 10, 8);
    assert Position(Example(), DrawOne, 0) == 1;
    assert Example().values - {1} == map[0 := ""];
    assert Example().order[..1] + Example().order[2..] == [0];
    assert EvictNext(Example(), 1) == (s1, 8);
    assert EvictUntil(Example(), 5, 0, DrawOne, 0) == Some((s1, 8));
    assert Put(Example(), 2, "hello", DrawOne) == Ok(Admit(s1, 2, "hello", 8));
    assert s1.values[2 := "hello"] == map[0 := "", 2 := "hello"];
    assert s1.order + [2] == [0, 2];
  }
}
