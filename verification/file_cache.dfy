/** `LineFileCache`: a file, the offset index built over its lines, and the
    cache strategy that fronts the reads. The strategy is one of the three the
    server can be started with. */
module LineFileCache {
  import opened Results
  import opened CacheStore
  import opened LineIndex
  import RecencyCache
  import RandomCache

  /** The strategy object behind `[]` and `[]=`: `NoCacheStrategy`,
      `RUCacheStrategy` (MRU or LRU) or `RandomCacheStrategy`. */
  datatype Strategy =
    | NoCache
    | RecentlyUsed(ru: RecencyCache.RUCache)
    | RandomReplacement(store: Store)

  /** `strategy[index]`: the cached line, or None for nil. */
  function Cached(st: Strategy, index: nat): (r: Option<string>)
    ensures st.NoCache? ==> r == None
  {
    match st
    case NoCache => None
    case RecentlyUsed(c) => Lookup(c.store, index)
    case RandomReplacement(s) => Lookup(s, index)
  }

  /** `strategy[index] = value`, with the random source the random strategy
      draws its eviction positions from. The strategy keeps its kind; a
      `NoCacheStrategy` ignores the offer, and the recency strategy ignores a
      value larger than its budget. Every other offer that returns leaves the
      value cached. */
  function Offer(st: Strategy, index: nat, value: string, rng: nat -> nat): (r: Outcome<Strategy>)
    ensures st.NoCache? ==> r == Ok(NoCache)
    ensures st.RecentlyUsed? && |value| > st.ru.store.maxSize ==> r == Ok(st)
    ensures r.Ok? && !st.NoCache? && !(st.RecentlyUsed? && |value| > st.ru.store.maxSize) ==>
      Cached(r.state, index) == Some(value)
    ensures r.Raised? ==> st.RecentlyUsed? && r.state.RecentlyUsed? && r.error == NilEvictionIndex
    ensures r.Exited? ==> st.RandomReplacement?
    ensures r.Ok? ==>
      && (st.RecentlyUsed? <==> r.state.RecentlyUsed?)
      && (st.RandomReplacement? <==> r.state.RandomReplacement?)
  {
    match st
    case NoCache => Ok(NoCache)
    case RecentlyUsed(c) =>
      (match RecencyCache.Put(c, index, value)
       case Ok(c') => Ok(RecentlyUsed(c'))
       case Raised(e, c') => Raised(e, RecentlyUsed(c'))
       case Exited => Exited)
    case RandomReplacement(s) =>
      (match RandomCache.Put(s, index, value, rng)
       case Ok(s') => Ok(RandomReplacement(s'))
       case Raised(e, s') => Raised(e, RandomReplacement(s'))
       case Exited => Exited)
  }

  /** Every index a strategy caches appears once in its order, and nothing
      else does. */
  ghost predicate StrategyWellformed(st: Strategy)
  {
    match st
    case NoCache => true
    case RecentlyUsed(c) => Wellformed(c.store)
    case RandomReplacement(s) => Wellformed(s)
  }

  /** `listing`: the cached indices in the strategy's order; always empty
      for `NoCacheStrategy`. On a well formed strategy it names exactly the
      indices a read would hit. */
  function StrategyListing(st: Strategy): (r: seq<nat>)
    ensures st.NoCache? ==> r == []
    ensures StrategyWellformed(st) ==> forall i :: i in r <==> Cached(st, i).Some?
  {
    match st
    case NoCache => []
    case RecentlyUsed(c) => Listing(c.store)
    case RandomReplacement(s) => Listing(s)
  }

  /** `@the_file`, `@list_index` and `@strategy`. */
  datatype Cache = Cache(file: string, offsets: seq<nat>, strategy: Strategy)

  /** The index is the one `initialize` builds over the file. */
  ghost predicate Indexed(c: Cache)
  {
    c.offsets == Offsets(Lines(c.file))
  }

  /** `initialize`: index the file's lines and keep the strategy. */
  method Open(file: string, strategy: Strategy) returns (c: Cache)
    ensures c.file == file && c.strategy == strategy
    ensures Indexed(c)
    ensures Length(c) == |Lines(file)|
    ensures |Lines(file)| > 0 ==> c.offsets[0] == 0
    ensures forall i :: 0 <= i < Length(c) - 1 ==> c.offsets[i + 1] == c.offsets[i] + |Lines(file)[i]|
  {
    var offsets := BuildIndex(Lines(file));
    OffsetsArePrefixSums(Lines(file));
    c := Cache(file, offsets, strategy);
  }

  /** `length`: the number of indexed lines. */
  function Length(c: Cache): (n: nat)
    ensures Indexed(c) ==> n == |Lines(c.file)|
  {
    |c.offsets|
  }

  /** How one `[]` ends: the line it returned and the cache after it; an
      exception (a raising read or a raising offer) with the cache it left;
      or a call of `exit` inside the offer (it raises SystemExit; no state
      is modelled after it). */
  datatype Reply =
    | Served(line: string, cache: Cache)
    | Failed(error: Error, cache: Cache)
    | Terminated

  /** `[](index)`: a line the strategy holds is answered from it; otherwise
      the line is read through the index and offered to the strategy, and the
      line read is the answer. */
  function Get(c: Cache, index: nat, rng: nat -> nat): (r: Reply)
    requires Indexed(c) && index < Length(c)
    ensures !r.Terminated? ==> r.cache.file == c.file && r.cache.offsets == c.offsets
    ensures Cached(c.strategy, index).Some? ==> r == Served(Cached(c.strategy, index).value, c)
    ensures Cached(c.strategy, index).None? && r.Served? ==>
      && (index < |Lines(c.file)| - 1 ==> |Lines(c.file)[index]| >= TerminatorWidth)
      && r.line == Content(Lines(c.file), index)
  {
    match Cached(c.strategy, index)
    case Some(line) => Served(line, c)
    case None =>
      ReadLineRoundTrip(c.file, index);
      match ReadLine(c.file, c.offsets, index)
      case Failure(e) => Failed(e, c)
      case Success(line) =>
        match Offer(c.strategy, index, line, rng)
        case Ok(st) => Served(line, c.(strategy := st))
        case Raised(e, st) => Failed(e, c.(strategy := st))
        case Exited => Terminated
  }

  /** A miss reads the file: the read raises exactly when a line before the
      last is shorter than its terminator, and otherwise the line read, without
      its terminator, is what the strategy is offered; the reply follows the
      offer. */
  lemma GetMiss(c: Cache, index: nat, rng: nat -> nat)
    requires Indexed(c) && index < Length(c)
    requires Cached(c.strategy, index).None?
    ensures index < |Lines(c.file)| - 1 && |Lines(c.file)[index]| < TerminatorWidth ==>
      Get(c, index, rng) == Failed(NegativeReadLength, c)
    ensures !(index < |Lines(c.file)| - 1 && |Lines(c.file)[index]| < TerminatorWidth) ==>
      var line := Content(Lines(c.file), index);
      && (Offer(c.strategy, index, line, rng).Ok? ==>
            Get(c, index, rng) == Served(line, c.(strategy := Offer(c.strategy, index, line, rng).state)))
      && (Offer(c.strategy, index, line, rng).Raised? ==>
            Get(c, index, rng) == Failed(NilEvictionIndex, c.(strategy := Offer(c.strategy, index, line, rng).state)))
      && (Offer(c.strategy, index, line, rng).Exited? ==> Get(c, index, rng) == Terminated)
  {
    ReadLineRoundTrip(c.file, index);
  }

  /** Asking for the same line twice: once a line has been served, the next
      request for it answers the same line and changes nothing, whatever the
      random source. The strategy either holds the line now, or it ignored
      the offer and the same read and the same ignored offer happen again. */
  lemma SecondGetRepeats(c: Cache, index: nat, rng: nat -> nat, rng2: nat -> nat)
    requires Indexed(c) && index < Length(c)
    requires Get(c, index, rng).Served?
    ensures Indexed(Get(c, index, rng).cache)
    ensures Get(Get(c, index, rng).cache, index, rng2) == Get(c, index, rng)
  {
  }

  /** Under `NoCacheStrategy` every request misses and reads the file, and the
      cache comes back exactly as it was: no sequence of requests ever caches
      a line, and the listing stays empty. */
  lemma NoCacheNeverRetains(c: Cache, index: nat, rng: nat -> nat)
    requires Indexed(c) && index < Length(c) && c.strategy.NoCache?
    ensures !Get(c, index, rng).Terminated?
    ensures Get(c, index, rng).cache == c
    ensures forall i :: Cached(Get(c, index, rng).cache.strategy, i) == None
    ensures StrategyListing(Get(c, index, rng).cache.strategy) == []
    ensures Get(c, index, rng).Served? ==>
      && (index < |Lines(c.file)| - 1 ==> |Lines(c.file)[index]| >= TerminatorWidth)
      && Get(c, index, rng).line == Content(Lines(c.file), index)
  {
  }

  /** A request that the random strategy serves from the file leaves the
      line cached, even a line as large as the whole budget. */
  lemma RandomMissCaches(c: Cache, index: nat, rng: nat -> nat)
    requires Indexed(c) && index < Length(c) && c.strategy.RandomReplacement?
    requires Get(c, index, rng).Served?
    ensures Cached(Get(c, index, rng).cache.strategy, index) == Some(Get(c, index, rng).line)
  {
  }

  /** An empty random cache with a budget of 10 takes a two-character line
      without evicting. */
  lemma ExampleOffer(rng: nat -> nat)
    ensures Offer(RandomReplacement(Empty(10)), 1, "de", rng)
         == Ok(RandomReplacement(Store(map[1 := "de"], [1], 10, 2)))
  {
    assert Admit(Empty(10), 1, "de", 0) == Store(map[1 := "de"], [1], 10, 2);
  }

  /** Line 1 of the example file, asked of an empty random cache with a
      budget of 10: it misses, reads `de` through the index and caches it at
      the end of the order, counting its two characters. */
  lemma ExampleMissCaches(rng: nat -> nat)
    ensures Indexed(Cache(ExampleFile, [0, 5, 9], RandomReplacement(Empty(10))))
    ensures Get(Cache(ExampleFile, [0, 5, 9], RandomReplacement(Empty(10))), 1, rng)
         == Served("de", Cache(ExampleFile, [0, 5, 9], RandomReplacement(Store(map[1 := "de"], [1], 10, 2))))
  {
    ExampleFileOffsets();
    ExampleFileReads();
    ExampleOffer(rng);
    assert Cached(RandomReplacement(Empty(10)), 1) == None;
  }
}
