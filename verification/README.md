# line_server line cache, modelled in Dafny

`line_server.rb` serves line `i` of a text file over HTTP. Behind the route sits a
`LineFileCache`. It is built in two steps:

- It walks the file once to record the byte offset at which every line starts.
- It answers a request from a pluggable cache strategy.

On a miss it seeks to the line's offset and reads up to the next offset less the
two-byte CR LF terminator, or to the end of the file for the last line. The line
it read is offered to the strategy. There are three strategies:

- `RUCacheStrategy` evicts by insertion order alone. With `most` set it pops the
  newest index off the tail of its order; the source calls this MRU. Otherwise it
  shifts the oldest index off the head; the source calls this LRU. A read never
  reorders anything.
- `RandomCacheStrategy` evicts entries at random positions of its order.
- `NoCacheStrategy` keeps nothing.

The two caching strategies keep the same state. This is a map from line index to
cached line (`@value_list`, where a missing key is a nil slot), the insertion
order (`@cached_list`), a budget (`@max_cache_size`) and a running count
(`@current_cache_size`). Their accounting invariant is that the count equals the
total size of what is cached and stays within the budget.

The model reproduces the code's edge cases as written:

- The random strategy's `[]=` has no rejection of oversized values. A value at
  least as large as the budget is stored and counted in full, and the count can
  end above the budget.
- The random strategy calls `exit` as soon as one eviction frees 0 bytes or
  less. This includes an empty order (`evict_next` answers -1) and a cached
  empty line. The model shows the cached-empty-line case exiting even though the
  cache held enough to make room.
- The recency strategy's eviction loop can empty its order. The next `pop` or
  `shift` then yields nil, and `@value_list[nil]` raises a TypeError. At that
  point every line has been evicted, yet the count keeps its old value, so the
  accounting invariant is broken from then on.
- `IO#read` with a negative length raises. This happens on a line before the
  last that is shorter than the two-character terminator, that is, a bare LF
  line.
- On a file with LF-only line ends, the read drops the last character of every
  line before the last. The reader assumes CR LF.

Files:

- `results.dfy`: `Option`, the two exceptions, a read `Result`, and the
  `Outcome` of a cache update. An update can return (`Ok`), raise with the state
  it left (`Raised`), or call `exit`, which raises SystemExit, with no state
  modelled after it (`Exited`).
- `line_index.dfy`: the line split `IO.foreach` performs, the offset index
  (a reference prefix-sum definition plus the source's accumulation loop as a
  method), the seek-and-read of a miss, and the round trip between them.
- `cache_store.dfy`: the state the two caching strategies share, its total and
  invariants, and the two steps they share. These are removing one cached index
  and the final store-count-append of `[]=`.
- `recency_cache.dfy`: `RUCacheStrategy`.
- `random_cache.dfy`: `RandomCacheStrategy`. The random source is a function
  `rng`; the `k`-th eviction of one `[]=` takes position `rng(k) % length`.
- `file_cache.dfy`: the strategy interface over the three strategies, and
  `LineFileCache` (`initialize`, `[]`, `length`).

## Model

| member | source | states |
|---|---|---|
| LineIndex.LinesConcat | line_server.rb:258-263 | the lines the file is walked in put back together give the file: splitting at each LF loses and adds nothing |
| LineIndex.LinesShape | line_server.rb:258-263 | no yielded line is empty, an LF only ends a line, and every line but the last ends in LF |
| LineIndex.Lines | line_server.rb:258-264 | the lines `IO.foreach` yields: none exactly for an empty file, and never more lines than characters |
| LineIndex.BuildIndex | line_server.rb:255-264 | the accumulation loop of `initialize` records, for every line, the total length of the lines before it |
| LineIndex.OffsetsArePrefixSums | line_server.rb:255-264 | the index has one entry per line, starts at 0, and each entry is the previous one plus the previous line's length |
| LineIndex.LineAtOffset | line_server.rb:272-281 | line `i` occupies the file from its offset for its own length, and the last line runs to the end of the file |
| LineIndex.OffsetInFile | line_server.rb:276 | every offset of the index lies before the end of the file, so a miss never seeks to the end |
| LineIndex.Read | line_server.rb:279-281 | `read(n)` raises exactly for a negative length; otherwise it answers a prefix of the rest of the file, `n` characters long or running to the end |
| LineIndex.ReadLine | line_server.rb:276-282 | the miss read starts at the line's offset; it raises exactly when the next offset is less than two past this one, reads at most up to two before the next offset, and reads the last line to the end of the file |
| LineIndex.ReadLineRoundTrip | line_server.rb:274-281 | reading line `i` through the index gives the line less its two-character terminator, or the whole last line; it raises exactly when a line before the last is shorter than the terminator |
| LineIndex.CrLfLineReadsItsText | line_server.rb:276-279 | on a CR LF line before the last, the read text plus CR LF is the line and holds no LF |
| LineIndex.ExampleFileOffsets | line_server.rb:255-264 | the file `abc CR LF de CR LF fghij` is indexed at 0, 5 and 9 |
| LineIndex.ExampleFileReads | line_server.rb:274-281 | reading that file through that index gives `abc`, `de` and `fghij` |
| CacheStore.Empty | line_server.rb:48-55 | a new strategy caches nothing and keeps the accounting exactly when its budget is not negative |
| CacheStore.Lookup | line_server.rb:173-175 | `[]` on a well formed store hits exactly the indices in the order |
| CacheStore.Listing | line_server.rb:129-131 | on a well formed store the listing names exactly the indices a read hits |
| CacheStore.Evict | line_server.rb:157-164 | removing one position shortens the order by one and leaves budget and count alone |
| CacheStore.EvictAccounting | line_server.rb:70-84 | removing one position nils exactly that index, keeps every index once in the order, and answers exactly the size that leaves the cached total (0 for a nil slot) |
| CacheStore.Admit | line_server.rb:121-123 | the last step of `[]=` caches the value under the index, appends the index, sets the count to `current + size - evicted`, changes no other slot, and grows the total by exactly the size of a new index |
| RecencyCache.EvictNext | line_server.rb:69-85 | `evict_next` fails exactly on an empty order; otherwise it removes one end of the order, nils that slot and answers its size, leaving budget and count alone |
| RecencyCache.EvictNextTakesAnEnd | line_server.rb:69-85 | the victim is the last index with `most` and the first without; only its slot changes, the store stays well formed, and the answer plus the new total is the old total |
| RecencyCache.EvictUntil | line_server.rb:116-120 | the eviction loop returns having freed more than the size, or raises with an empty order and not more than the size freed; budget and count stay unchanged |
| RecencyCache.EvictUntilShape | line_server.rb:116-120 | the loop ends after `k` evictions: the first `k` candidates from the chosen end are gone and the rest are cached; either `k` is the first count whose total frees more than the size, or the order ran dry with not more than the size freed |
| RecencyCache.Put | line_server.rb:112-127 | a value larger than the budget leaves the strategy unchanged; a put of any other value that returns caches the value under its index at the end of the order; a raising put has emptied the order and left the count as it was; `[]=` never exits |
| RecencyCache.PutKeepsAccounting | line_server.rb:112-127 | on a consistent cache and a new index, a put raises exactly when the value does not fit and everything cached is not more than its size; otherwise the count still equals the cached total within the budget, a fitting value is appended with no eviction, and otherwise the first `k` candidates are gone for the first sufficient `k` |
| RecencyCache.RaiseLeavesStaleCount | line_server.rb:116-123 | after the TypeError nothing is cached but the count keeps its old positive value, so the accounting invariant is broken |
| RecencyCache.LeastRecentShiftsOldest | line_server.rb:72-77 | with three one-character lines in a budget of 3, the LRU put of a fourth evicts the two oldest lines and leaves count 2 |
| RecencyCache.MostRecentPopsNewest | line_server.rb:70-71 | the same put under MRU evicts the two newest lines and keeps the oldest |
| RandomCache.Position | line_server.rb:152-155 | the drawn position lies within a nonempty order |
| RandomCache.EvictNext | line_server.rb:151-171 | `evict_next` answers -1 exactly on an empty order and then changes nothing; otherwise it removes one position and answers a size of at least 0 |
| RandomCache.EvictNextRemovesDrawn | line_server.rb:151-167 | on a well formed store exactly the drawn position leaves the order and its slot is nil, every other slot is unchanged, and the answer is the size that leaves the total |
| RandomCache.EvictUntil | line_server.rb:187-204 | a finished loop freed more than the size and keeps the store well formed with the total down by exactly what it freed; the loop exits whenever everything cached is not more than the size, and, when no cached value is empty, only then |
| RandomCache.EvictUntilShape | line_server.rb:187-204 | the loop stops after the least number of draws that frees more than the size, every earlier draw having freed more than 0, and returns exactly the store those draws left (each a `delete_at`, so the indices left keep their order) with the total freed; otherwise it exits at the first draw that frees 0 or less |
| RandomCache.EvictUntilKeeps | line_server.rb:157-164 | a finished loop only removed slots: every line still cached is the one cached before |
| RandomCache.EmptyVictimExits | line_server.rb:192-200 | the loop exits as soon as a draw frees nothing (an empty order, an empty line or a nil slot), whatever else is cached |
| RandomCache.PutExitsOnEmptyVictim | line_server.rb:183-200 | a put that must evict exits when its first draw frees nothing |
| RandomCache.Put | line_server.rb:177-220 | a put that returns caches the value under its index at the end of the order; when the guard is false (the value fits, or it is at least as large as the budget) the value is stored and counted in full with no eviction and no other slot touched; after evictions the count is `current + size - evicted` with more than the size evicted, and every other line still cached is unchanged; on a well formed store and a new index what was evicted is exactly what left the cached total; `[]=` never raises |
| RandomCache.PutEvictsUntilEnough | line_server.rb:183-214 | a put that must evict and returns stores the value into exactly the store left by its first draws up to the first that frees more than the value's size, with the count lowered by what they freed; one that exits met a draw that freed nothing, every earlier draw having freed something |
| RandomCache.PutKeepsAccounting | line_server.rb:177-215 | on a consistent cache and a new index, with a value that fits or is below the budget, a returning put keeps the count equal to the cached total within the budget; a fitting value is added with no eviction; the put exits whenever the value does not fit and everything cached is not more than its size, and, when no cached value is empty, only then |
| RandomCache.OversizedIsStored | line_server.rb:183-214 | a value at least as large as the budget is cached and counted in full, and the count ends above the budget exactly when the value did not fit |
| RandomCache.ZeroByteVictimExits | line_server.rb:192-200 | with an empty line and an 8-character line cached in a budget of 10, putting a 5-character line exits when the draw picks the empty line, though the cache held enough to make room |
| RandomCache.NonEmptyVictimMakesRoom | line_server.rb:183-214 | the same put stores the line, with count 5, when the draw picks the 8-character line |
| LineFileCache.Cached | line_server.rb:232-234 | `NoCacheStrategy#[]` is always nil |
| LineFileCache.Offer | line_server.rb:236-237 | the strategy keeps its kind; `NoCacheStrategy#[]=` changes nothing; the recency strategy ignores oversized values; every other offer that returns leaves the value cached; only the recency strategy raises and only the random one exits |
| LineFileCache.StrategyListing | line_server.rb:239-241 | `NoCacheStrategy#listing` is empty; on a well formed strategy the listing names exactly the cached indices |
| LineFileCache.Open | line_server.rb:249-268 | `initialize` keeps the file and strategy and builds the prefix-sum index over the file's lines |
| LineFileCache.Length | line_server.rb:289-291 | `length` is the number of lines of the file |
| LineFileCache.Get | line_server.rb:270-287 | a line the strategy holds is returned without touching the file or the cache; a miss that is served returns the line read through the index; file and index never change |
| LineFileCache.GetMiss | line_server.rb:274-284 | a miss raises on a line shorter than its terminator; otherwise the line read is exactly the value offered to the strategy, and the reply follows the offer |
| LineFileCache.SecondGetRepeats | line_server.rb:270-287 | after a line is served, asking for it again returns the same line and changes nothing, whatever the random source |
| LineFileCache.NoCacheNeverRetains | line_server.rb:227-242 | under `NoCacheStrategy` every request reads the file and leaves the cache exactly as it was, so nothing is ever cached and the listing stays empty |
| LineFileCache.RandomMissCaches | line_server.rb:270-285 | a request the random strategy serves from the file leaves the line cached, even one as large as the whole budget |
| LineFileCache.ExampleMissCaches | line_server.rb:270-285 | line 1 of the example file, asked of an empty random cache with a budget of 10, is read as `de` and cached with count 2 |

## Left out

- The Sinatra routes and the command-line parsing that chooses a strategy and a
  budget are left out. This is request routing and process setup.
- The route accepts `line_index <= cache.length`, one index past the end, where
  `@list_index[index]` is nil and the seek raises a TypeError. `Get` instead
  requires an index below `length`.
- Indices are natural numbers. A negative index from `to_i` is left out, as is
  Ruby's from-the-end indexing of arrays.
- The mutex, the thread-safe arrays and concurrent requests are left out. Every
  operation is modelled as one sequential step.
- Real file I/O is left out. `IO.foreach`, `sysopen`, `seek` and `read` become
  functions on a string that stands for the file's bytes. One character stands
  for one byte, so `String#length` and `bytesize` agree. This holds for ASCII
  text only.
- `Random#rand` is left out. It becomes the parameter `rng`.
- `exit` is modelled as the `Exited` outcome, with no state surviving. What a
  web server does with the `SystemExit` raised in a request thread is outside
  the model.
- The `puts` logging is left out.
- `Array#to_s` in `listing` is left out. The listing is the order itself, and
  `NoCacheStrategy`'s `"[]"` is the empty order.
- `CacheStrategy`, the empty base class, is left out.
- line_server_tester.rb is left out. It is an HTTP load generator.
- LineIndex.Read: answers the empty string where Ruby's `IO#read(n)` with
  `n > 0` at the end of the file answers nil. The miss path never reads there,
  as LineIndex.OffsetInFile states.
- RandomCache.PutKeepsAccounting: its requires exclude a value at least as large
  as the budget that does not fit. Such a put breaks the invariant by design, and
  RandomCache.OversizedIsStored states that case.
