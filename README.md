# genericlibrarymaths shuffle, modelled in Dafny

This project models the core of the `genericlibrarymaths` C++ library. That core is
the generic in-place shuffle `shuffle<T>`, its helper `swap<T>`, the one-shot
seeding latch `seedRand`, and the version query `genericlibrarymaths_version`.
Everything is in one module, `GenericLibraryMaths`, in `genericlibrarymaths.dfy`.

- **The random source.** The process-wide C generator is the class `RandomSource`.
  It has the function-static flag `flagIsSeeded` of `seedRand` (an `unsigned char`, 0 or 1).
  A ghost list `seedings` records every seed handed to `srand`. Each seed is the clock reading converted to `unsigned int` (`SrandSeed`).
  The field `draws` is the stream of raw values `rand()` will return.
  `time(NULL)` becomes a parameter `now`.
  `Valid()` says that the flag is 1 exactly when `srand` has run, and that it ran at most once.
- **swap.** `Swap` exchanges two cells of an array through a temporary. It is specified by
  the function `Swapped`.
- **shuffle.** `Shuffle` seeds, then switches on `arraySize`:
  - 0 and 1 do nothing;
  - 2 swaps the two cells;
  - any other size runs `DefaultPass`, one forward pass `i = 0 .. n-1`.
    For each `i`, `DrawPartner` (the `while(1)` rejection loop) draws `rand() % n` until
    the value differs from `i`, and the pass swaps `i` with that partner.

  The method is proved equal to the pure function `Shuffled`. So the result is
  a deterministic function of the input contents and the draw stream.
- **Properties of the specification.**
  - `Partners` lists the partner of every position. It depends on the stream alone.
  - `SwapPass` applies those swaps in order.
  - `PassIsSwapPass` proves that the run equals this two-stage decomposition.
  - The permutation property (`multiset` of the first `n` cells kept, the rest untouched)
    and the exact small cases are stated on `Shuffled` and on `Shuffle`.

## Model

| member | source | states |
|---|---|---|
| `GenericLibraryMaths.Version` | genericlibrarymaths/genericlibrarymaths.cpp:202-206 | the version is always (1, 0, 0) |
| `GenericLibraryMaths.RandomSource.constructor` | genericlibrarymaths/genericlibrarymaths.cpp:43 | a fresh process starts unseeded: flag 0, no seed handed to srand yet |
| `GenericLibraryMaths.RandomSource.Valid` | genericlibrarymaths/genericlibrarymaths.cpp:43-46 | the object invariant: the flag is 0 or 1, it is 1 exactly when srand has run, and its ensures states that srand ran at most once |
| `GenericLibraryMaths.SrandSeed` | genericlibrarymaths/genericlibrarymaths.cpp:45 | the seed srand receives is below 2^32 and congruent to the clock reading modulo 2^32, which is the `time_t` to `unsigned int` conversion |
| `GenericLibraryMaths.RandomSource.SeedRand` | genericlibrarymaths/genericlibrarymaths.cpp:42-49 | always returns 1 and leaves the flag at 1; it seeds with the converted clock reading only when the flag was 0, so later calls change neither the seed nor the stream |
| `GenericLibraryMaths.RandomSource.Rand` | genericlibrarymaths/genericlibrarymaths.cpp:89 | returns the next raw value of the generator and advances the stream by exactly one |
| `GenericLibraryMaths.Swapped` | genericlibrarymaths/genericlibrarymaths.cpp:56-61 | the two cells exchange their values and every other cell keeps its value |
| `GenericLibraryMaths.SwappedPermutes` | genericlibrarymaths/genericlibrarymaths.cpp:56-61 | a swap neither creates nor destroys a value (the multiset is kept) |
| `GenericLibraryMaths.SwappedInvolutive` | genericlibrarymaths/genericlibrarymaths.cpp:56-61 | swapping the same two cells twice restores the original sequence |
| `GenericLibraryMaths.Swap` | genericlibrarymaths/genericlibrarymaths.cpp:56-61 | the array after the call is the old array with the two cells exchanged |
| `GenericLibraryMaths.DrawsUntilPartner` | genericlibrarymaths/genericlibrarymaths.cpp:88-92 | the rejection loop stops at the first draw whose residue modulo n differs from i; every earlier draw had residue i; None exactly when every draw in the stream has residue i |
| `GenericLibraryMaths.DrawsUntilPartnerExtend` | genericlibrarymaths/genericlibrarymaths.cpp:88-92 | once the rejection loop has exited, later draws do not change how many draws it took |
| `GenericLibraryMaths.DrawPartner` | genericlibrarymaths/genericlibrarymaths.cpp:88-92 | the partner is in bounds (< n) and never i; it is the residue of the first draw that differs from i, and exactly the draws up to it are consumed |
| `GenericLibraryMaths.Partners` | genericlibrarymaths/genericlibrarymaths.cpp:87-94 | the default path picks one partner for each position i..n-1; each partner is below n and differs from its own position |
| `GenericLibraryMaths.PartnersLeavesSuffix` | genericlibrarymaths/genericlibrarymaths.cpp:87-94 | the draws left after the pass are a suffix of the stream: the pass reads draws front to back and never skips one |
| `GenericLibraryMaths.PartnersExtend` | genericlibrarymaths/genericlibrarymaths.cpp:87-94 | a longer stream gives the same partners and leaves the extra draws unread |
| `GenericLibraryMaths.SwapPass` | genericlibrarymaths/genericlibrarymaths.cpp:87-94 | swaps each position i + j with its partner ps[j] in ascending order; its own contract states only that the length is kept; what it means is stated by `SwapPassPermutes` and `PassIsSwapPass` |
| `GenericLibraryMaths.SwapPassPermutes` | genericlibrarymaths/genericlibrarymaths.cpp:87-94 | swapping each position with an in-bounds partner keeps the multiset of the first n cells and leaves every cell from n on unchanged |
| `GenericLibraryMaths.Pass` | genericlibrarymaths/genericlibrarymaths.cpp:87-94 | the default path as `shuffle<T>` runs it: rejection-draw a partner for i, swap, go on with i + 1; its own contract states only that the length is kept; its meaning is stated by `PassIsSwapPass` and, for sizes of 3 or more, by `Shuffled`, which returns it; `DefaultPass` is proved against it |
| `GenericLibraryMaths.PassIsSwapPass` | genericlibrarymaths/genericlibrarymaths.cpp:87-94 | the pass as `shuffle<T>` runs it (draw, swap, next i) completes exactly when the stream fixes every partner; its result is the contents permuted by those partners, so the contents never influence which partners are drawn |
| `GenericLibraryMaths.Shuffled` | genericlibrarymaths/genericlibrarymaths.cpp:75-96 | sizes 0 and 1 leave the contents and the stream alone; size 2 gives `[s[1], s[0]]` followed by the rest, whatever the draws; any size keeps the multiset of the first n cells and every cell from n on; it completes exactly when the stream holds enough draws |
| `GenericLibraryMaths.ShuffledExtend` | genericlibrarymaths/genericlibrarymaths.cpp:87-94 | a finite stream that suffices gives the same result as any longer stream, so it stands for the unbounded output of rand() |
| `GenericLibraryMaths.ShuffleOneCell` | genericlibrarymaths/genericlibrarymaths.cpp:79-80 | shuffling `[10]` gives `[10]` |
| `GenericLibraryMaths.ShuffleTwoCells` | genericlibrarymaths/genericlibrarymaths.cpp:82-84 | shuffling `[10, 20]` gives `[20, 10]` for every draw stream, consuming no draws |
| `GenericLibraryMaths.ShuffleThreeCells` | genericlibrarymaths/genericlibrarymaths.cpp:86-94 | a worked run of the default path on three cells, including a rejected draw |
| `GenericLibraryMaths.DefaultPass` | genericlibrarymaths/genericlibrarymaths.cpp:86-95 | the in-place for loop leaves the array and the stream exactly as the pass specification says |
| `GenericLibraryMaths.Shuffle` | genericlibrarymaths/genericlibrarymaths.cpp:68-97 | seeds at most once (the seed is `SrandSeed(now)` only if the flag was 0); the new contents and the remaining draws are `Shuffled` of the old contents and the old draws, so the same draws give the same output; the first `arraySize` cells are permuted and the rest are unchanged; sizes 0 and 1 change nothing; size 2 swaps the two cells |

## Left out

- `srand`, `rand` and `time(NULL)` are C library calls and a wall clock. They are replaced by the injected `RandomSource`. The draws are given as a stream, and the model does not relate the seed to the values `rand()` returns.
- `RAND_MAX` and the range of `rand()`: draws are arbitrary natural numbers. Only their residue modulo the size matters to the algorithm.
- Statistical quality: the non-uniform distribution of the resulting permutations and the modulo bias of `rand() % arraySize` are probabilistic claims, not contracts.
- GenericLibraryMaths.Shuffle: requires the draw stream to hold enough draws for every rejection loop to exit (`EnoughDraws`). The source's loop has no bound and would spin forever on a generator that never yields a different residue; that non-termination is not modelled. `ShuffledExtend` shows that any longer stream gives the same result.
- The ten per-type `shuffle` overloads (genericlibrarymaths/genericlibrarymaths.cpp:111-194) only forward to `shuffle<T>`. The generic type parameter `T` covers all of them, and the floating-point semantics of the `float` and `double` overloads play no part in the algorithm.
- Integer widths: `arraySize`, `i` and `index` are `unsigned long long` in the source. They are modelled as `nat`, since every value stays below `arraySize` and no overflow can occur.
- Thread safety of the unsynchronised static flag: the model is single-threaded.
- An `arraySize` larger than the buffer is undefined behaviour in the source; the model requires `arraySize <= a.Length`.
- `swap<T>` takes two arbitrary references; the model swaps two cells of one array, which is the only way the shuffle uses it.
