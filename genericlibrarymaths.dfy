/*
 * A model of the generic in-place shuffle of genericlibrarymaths.cpp.
 *
 * The process-wide C generator (srand / rand) and the wall clock (time) are
 * replaced by an injected RandomSource: a one-shot seeding latch plus the
 * stream of raw values rand() will return. Given that stream, Shuffle is
 * deterministic and is proved against the pure specification Shuffled.
 */
module GenericLibraryMaths {

  datatype Option<T> = None | Some(value: T)

  /** The C `unsigned char` used for the seeding flag. */
  newtype uchar = x: int | 0 <= x < 256

  const VERSION_MAJOR: nat := 1
  const VERSION_MINOR: nat := 0
  const VERSION_PATCH: nat := 0

  /** The library version, written to three out-parameters. */
  method Version() returns (major: nat, minor: nat, patch: nat)
    ensures major == 1 && minor == 0 && patch == 0
  {
    major := VERSION_MAJOR;
    minor := VERSION_MINOR;
    patch := VERSION_PATCH;
  }

  // ---------------------------------------------------------------------------
  // Random source: the seeding latch and the generator's output stream
  // ---------------------------------------------------------------------------

  /**
   * The seed srand receives for the clock reading `now`: `time_t` converted to
   * `unsigned int`, i.e. the 32-bit value congruent to `now`.
   */
  function SrandSeed(now: int): (seed: nat)
    ensures seed < 0x1_0000_0000
    ensures (now - seed) % 0x1_0000_0000 == 0
  {
    now % 0x1_0000_0000
  }

  class RandomSource {
    /** The function-static flag of seedRand: 0 until the first seeding, then 1. */
    var flagIsSeeded: uchar
    /** Every seed ever handed to srand, in order (already converted to `unsigned int`). */
    ghost var seedings: seq<nat>
    /** The raw values rand() returns from now on, in order. */
    var draws: seq<nat>

    /** The flag is 0 or 1, and it is 1 exactly when srand has run, which it has at most once. */
    ghost predicate Valid()
      reads this
      ensures Valid() ==> |seedings| <= 1
    {
      flagIsSeeded <= 1 && |seedings| == flagIsSeeded as int
    }

    /** A fresh process: nothing seeded yet, the generator will yield `stream`. */
    constructor (stream: seq<nat>)
      ensures Valid()
      ensures flagIsSeeded == 0 && seedings == [] && draws == stream
    {
      flagIsSeeded := 0;
      seedings := [];
      draws := stream;
    }

    /** seedRand: seeds with the clock reading `now` on the first call only; always returns 1. */
    method SeedRand(now: int) returns (r: uchar)
      requires Valid()
      modifies this
      ensures Valid()
      ensures r == 1 && flagIsSeeded == 1
      ensures seedings == if old(flagIsSeeded) == 0 then [SrandSeed(now)] else old(seedings)
      ensures draws == old(draws)
    {
      if flagIsSeeded == 0 {
        seedings := seedings + [SrandSeed(now)];
        flagIsSeeded := 1;
      }
      r := flagIsSeeded;
    }

    /** rand(): the next raw value of the stream. */
    method Rand() returns (x: nat)
      requires draws != []
      modifies this`draws
      ensures x == old(draws)[0] && draws == old(draws)[1..]
    {
      x := draws[0];
      draws := draws[1..];
    }
  }

  // ---------------------------------------------------------------------------
  // swap
  // ---------------------------------------------------------------------------

  /** `s` with the cells `i` and `j` exchanged. */
  function Swapped<T>(s: seq<T>, i: nat, j: nat): (r: seq<T>)
    requires i < |s| && j < |s|
    ensures |r| == |s| && r[i] == s[j] && r[j] == s[i]
    ensures forall k :: 0 <= k < |s| && k != i && k != j ==> r[k] == s[k]
  {
    s[i := s[j]][j := s[i]]
  }

  /** A swap neither creates nor destroys a value. */
  lemma SwappedPermutes<T>(s: seq<T>, i: nat, j: nat)
    requires i < |s| && j < |s|
    ensures multiset(Swapped(s, i, j)) == multiset(s)
  {
  }

  /** Swapping the same two cells twice restores the sequence. */
  lemma SwappedInvolutive<T>(s: seq<T>, i: nat, j: nat)
    requires i < |s| && j < |s|
    ensures Swapped(Swapped(s, i, j), i, j) == s
  {
    var t := Swapped(Swapped(s, i, j), i, j);
    assert forall k :: 0 <= k < |s| ==> t[k] == s[k];
  }

  /** A swap of two cells below `n` leaves every cell from `n` on alone and permutes the prefix. */
  lemma SwappedPrefix<T>(s: seq<T>, n: nat, i: nat, j: nat)
    requires n <= |s| && i < n && j < n
    ensures Swapped(s, i, j)[n..] == s[n..]
    ensures multiset(Swapped(s, i, j)[..n]) == multiset(s[..n])
  {
    var r := Swapped(s, i, j);
    assert r[..n] == Swapped(s[..n], i, j);
    SwappedPermutes(s[..n], i, j);
    assert r[n..] == s[n..];
  }

  /** swap<T>: exchanges two cells of `a` through a temporary. */
  method Swap<T>(a: array<T>, i: nat, j: nat)
    requires i < a.Length && j < a.Length
    modifies a
    ensures a[..] == Swapped(old(a[..]), i, j)
  {
    var t := a[i];
    a[i] := a[j];
    a[j] := t;
  }

  // ---------------------------------------------------------------------------
  // shuffle: specification
  // ---------------------------------------------------------------------------

  /**
   * The rejection loop for position `i`: how many draws it consumes before one
   * whose residue modulo `n` differs from `i`, or None if the stream runs out first.
   */
  function DrawsUntilPartner(draws: seq<nat>, n: nat, i: nat): (r: Option<nat>)
    requires n > 0
    ensures r.Some? ==> 0 < r.value <= |draws| && draws[r.value - 1] % n != i
    ensures r.Some? ==> forall j :: 0 <= j < r.value - 1 ==> draws[j] % n == i
    ensures r.None? ==> forall j :: 0 <= j < |draws| ==> draws[j] % n == i
  {
    if |draws| == 0 then None
    else if draws[0] % n != i then Some(1)
    else match DrawsUntilPartner(draws[1..], n, i)
      case None => None
      case Some(k) => Some(k + 1)
  }

  /**
   * The swap partners of positions i, i+1, ..., n-1 in the default path, and the
   * draws left afterwards; None if the stream runs out.
   */
  function Partners(draws: seq<nat>, n: nat, i: nat): (r: Option<(seq<nat>, seq<nat>)>)
    requires i <= n
    decreases n - i
    ensures r.Some? ==> |r.value.0| == n - i
    ensures r.Some? ==> forall j :: 0 <= j < |r.value.0| ==> r.value.0[j] < n && r.value.0[j] != i + j
  {
    if i == n then Some(([], draws))
    else match DrawsUntilPartner(draws, n, i)
      case None => None
      case Some(k) =>
        match Partners(draws[k..], n, i + 1)
        case None => None
        case Some((ps, rest)) => Some(([draws[k - 1] % n] + ps, rest))
  }

  /** The draws left over are a suffix of the stream: the pass reads the stream front to back. */
  lemma {:induction false} PartnersLeavesSuffix(draws: seq<nat>, n: nat, i: nat)
    requires i <= n && Partners(draws, n, i).Some?
    decreases n - i
    ensures |Partners(draws, n, i).value.1| <= |draws|
    ensures Partners(draws, n, i).value.1 == draws[|draws| - |Partners(draws, n, i).value.1|..]
  {
    if i < n {
      var k := DrawsUntilPartner(draws, n, i).value;
      PartnersLeavesSuffix(draws[k..], n, i + 1);
    }
  }

  /** Swaps position i + j with ps[j], for j = 0, 1, ..., in that order. */
  function SwapPass<T>(s: seq<T>, n: nat, i: nat, ps: seq<nat>): (r: seq<T>)
    requires n <= |s| && i + |ps| <= n
    requires forall j :: 0 <= j < |ps| ==> ps[j] < n
    decreases |ps|
    ensures |r| == |s|
  {
    if ps == [] then s
    else SwapPass(Swapped(s, i, ps[0]), n, i + 1, ps[1..])
  }

  /** The pass only permutes the first `n` cells and leaves the rest alone. */
  lemma {:induction false} SwapPassPermutes<T>(s: seq<T>, n: nat, i: nat, ps: seq<nat>)
    requires n <= |s| && i + |ps| <= n
    requires forall j :: 0 <= j < |ps| ==> ps[j] < n
    decreases |ps|
    ensures SwapPass(s, n, i, ps)[n..] == s[n..]
    ensures multiset(SwapPass(s, n, i, ps)[..n]) == multiset(s[..n])
  {
    if ps != [] {
      var t := Swapped(s, i, ps[0]);
      SwappedPrefix(s, n, i, ps[0]);
      SwapPassPermutes(t, n, i + 1, ps[1..]);
      assert SwapPass(s, n, i, ps) == SwapPass(t, n, i + 1, ps[1..]);
    }
  }

  /**
   * The default path run from position `i` on, as `shuffle<T>` runs it: draw a
   * partner for `i` by rejection, swap, go on with `i + 1`. The new contents
   * and the draws left over; None if the stream runs out.
   */
  function Pass<T>(s: seq<T>, n: nat, i: nat, draws: seq<nat>): (r: Option<(seq<T>, seq<nat>)>)
    requires n <= |s| && i <= n
    decreases n - i
    ensures r.Some? ==> |r.value.0| == |s|
  {
    if i == n then Some((s, draws))
    else match DrawsUntilPartner(draws, n, i)
      case None => None
      case Some(k) => Pass(Swapped(s, i, draws[k - 1] % n), n, i + 1, draws[k..])
  }

  /**
   * The run splits into two independent stages: the stream alone fixes the
   * partners (the contents play no part), and the contents are then permuted
   * by swapping each position with its partner in turn.
   */
  lemma {:induction false} PassIsSwapPass<T>(s: seq<T>, n: nat, i: nat, draws: seq<nat>)
    requires n <= |s| && i <= n
    decreases n - i
    ensures Pass(s, n, i, draws).Some? <==> Partners(draws, n, i).Some?
    ensures Partners(draws, n, i).Some? ==>
            Pass(s, n, i, draws) ==
            Some((SwapPass(s, n, i, Partners(draws, n, i).value.0), Partners(draws, n, i).value.1))
  {
    if i < n {
      match DrawsUntilPartner(draws, n, i)
      case None =>
      case Some(k) =>
        PassIsSwapPass(Swapped(s, i, draws[k - 1] % n), n, i + 1, draws[k..]);
    }
  }

  /** Whether the stream holds enough draws for a shuffle of `n` cells to finish. */
  predicate EnoughDraws(draws: seq<nat>, n: nat)
  {
    n < 3 || Partners(draws, n, 0).Some?
  }

  /**
   * The outcome of shuffling the first `n` cells of `s` with the raw draws
   * `draws`: the new contents and the draws left over.
   */
  function Shuffled<T>(s: seq<T>, n: nat, draws: seq<nat>): (r: Option<(seq<T>, seq<nat>)>)
    requires n <= |s|
    ensures r.Some? <==> EnoughDraws(draws, n)
    ensures n <= 1 ==> r == Some((s, draws))
    ensures n == 2 ==> r == Some(([s[1], s[0]] + s[2..], draws))
    ensures r.Some? ==> |r.value.0| == |s| && r.value.0[n..] == s[n..]
    ensures r.Some? ==> multiset(r.value.0[..n]) == multiset(s[..n])
  {
    if n <= 1 then Some((s, draws))
    else if n == 2 then
      assert Swapped(s, 0, 1) == [s[1], s[0]] + s[2..];
      SwappedPrefix(s, 2, 0, 1);
      Some((Swapped(s, 0, 1), draws))
    else
      PassIsSwapPass(s, n, 0, draws);
      var ps := Partners(draws, n, 0);
      if ps.Some? then
        SwapPassPermutes(s, n, 0, ps.value.0);
        Pass(s, n, 0, draws)
      else None
  }

  // ---------------------------------------------------------------------------
  // shuffle: properties of the specification
  // ---------------------------------------------------------------------------

  /** Drawing more values after the rejection loop has exited does not change it. */
  lemma {:induction false} DrawsUntilPartnerExtend(draws: seq<nat>, more: seq<nat>, n: nat, i: nat)
    requires n > 0 && DrawsUntilPartner(draws, n, i).Some?
    ensures DrawsUntilPartner(draws + more, n, i) == DrawsUntilPartner(draws, n, i)
  {
    if draws[0] % n == i {
      assert (draws + more)[1..] == draws[1..] + more;
      DrawsUntilPartnerExtend(draws[1..], more, n, i);
    }
  }

  /** A longer stream yields the same partners and leaves the extra draws unread. */
  lemma {:induction false} PartnersExtend(draws: seq<nat>, more: seq<nat>, n: nat, i: nat)
    requires i <= n && Partners(draws, n, i).Some?
    ensures Partners(draws + more, n, i) ==
            Some((Partners(draws, n, i).value.0, Partners(draws, n, i).value.1 + more))
    decreases n - i
  {
    if i < n {
      var k := DrawsUntilPartner(draws, n, i).value;
      DrawsUntilPartnerExtend(draws, more, n, i);
      assert (draws + more)[k..] == draws[k..] + more;
      assert (draws + more)[k - 1] == draws[k - 1];
      PartnersExtend(draws[k..], more, n, i + 1);
    }
  }

  /**
   * The outcome depends only on the draws the run actually reads: a finite
   * stream that suffices agrees with every longer one, so it stands for the
   * unbounded output of rand().
   */
  lemma ShuffledExtend<T>(s: seq<T>, n: nat, draws: seq<nat>, more: seq<nat>)
    requires n <= |s| && EnoughDraws(draws, n)
    ensures Shuffled(s, n, draws + more) ==
            Some((Shuffled(s, n, draws).value.0, Shuffled(s, n, draws).value.1 + more))
  {
    if n >= 3 {
      PassIsSwapPass(s, n, 0, draws);
      PassIsSwapPass(s, n, 0, draws + more);
      PartnersExtend(draws, more, n, 0);
    }
  }

  /** Example: one cell is left as it is. */
  lemma ShuffleOneCell()
    ensures Shuffled([10], 1, []) == Some(([10], []))
  {
  }

  /** Example: two cells are always swapped, whatever the generator yields. */
  lemma ShuffleTwoCells(draws: seq<nat>)
    ensures Shuffled([10, 20], 2, draws) == Some(([20, 10], draws))
  {
    var s: seq<int> := [10, 20];
    assert Shuffled(s, 2, draws) == Some(([s[1], s[0]] + s[2..], draws));
    assert [s[1], s[0]] + s[2..] == [20, 10];
  }

  /**
   * Example of the default path on three cells: position 1 rejects the draw 4
   * (4 % 3 == 1) and takes the next one, 5.
   */
  lemma ShuffleThreeCells()
    ensures Shuffled([1, 2, 3], 3, [1, 4, 5, 0, 8]) == Some(([1, 3, 2], [8]))
  {
    var d: seq<nat> := [1, 4, 5, 0, 8];
    assert DrawsUntilPartner(d[3..], 3, 2) == Some(1);
    assert d[3..][1..] == [8];
    assert Swapped([2, 3, 1], 2, 0) == [1, 3, 2];
    assert Pass([2, 3, 1], 3, 2, d[3..]) == Some(([1, 3, 2], [8]));
    assert DrawsUntilPartner(d[1..], 3, 1) == Some(2);
    assert d[1..][2..] == d[3..];
    assert Swapped([2, 1, 3], 1, 2) == [2, 3, 1];
    assert Pass([2, 1, 3], 3, 1, d[1..]) == Some(([1, 3, 2], [8]));
    assert DrawsUntilPartner(d, 3, 0) == Some(1);
    assert Swapped([1, 2, 3], 0, 1) == [2, 1, 3];
    assert Pass([1, 2, 3], 3, 0, d) == Some(([1, 3, 2], [8]));
  }

  // ---------------------------------------------------------------------------
  // shuffle: the in-place algorithm
  // ---------------------------------------------------------------------------

  /**
   * The rejection loop of the default path: draws `rand() % n` until the value
   * differs from `i`, and returns it as the swap partner of position `i`;
   * `used` is how many draws that took.
   */
  method DrawPartner(rng: RandomSource, n: nat, i: nat) returns (index: nat, ghost used: nat)
    requires i < n && DrawsUntilPartner(rng.draws, n, i).Some?
    modifies rng`draws
    ensures index < n && index != i
    ensures DrawsUntilPartner(old(rng.draws), n, i) == Some(used)
    ensures index == old(rng.draws)[used - 1] % n && rng.draws == old(rng.draws)[used..]
  {
    ghost var d := rng.draws;
    used := 0;
    index := 0;
    while true
      invariant used <= |d| && rng.draws == d[used..]
      invariant forall j :: 0 <= j < used ==> d[j] % n == i
      decreases |rng.draws|
    {
      var draw := rng.Rand();
      index := draw % n;
      used := used + 1;
      if index != i {
        break;
      }
    }
  }

  /**
   * The default path of shuffle<T> (three cells or more): one forward pass that
   * swaps each position with the partner its rejection loop draws.
   */
  method DefaultPass<T>(rng: RandomSource, a: array<T>, n: nat)
    requires 3 <= n <= a.Length && Pass(a[..], n, 0, rng.draws).Some?
    modifies rng`draws, a
    ensures Pass(old(a[..]), n, 0, old(rng.draws)) == Some((a[..], rng.draws))
  {
    ghost var target := Pass(a[..], n, 0, rng.draws);
    for i := 0 to n
      invariant Pass(a[..], n, i, rng.draws) == target
    {
      var index, used := DrawPartner(rng, n, i);
      Swap(a, i, index);
    }
  }

  /**
   * shuffle<T>: seeds the generator once, then permutes the first `arraySize`
   * cells of `a` in place. The clock reading `now` stands for time(NULL).
   */
  method Shuffle<T>(rng: RandomSource, a: array<T>, arraySize: nat, now: int)
    requires rng.Valid()
    requires arraySize <= a.Length
    requires EnoughDraws(rng.draws, arraySize)
    modifies rng, a
    ensures rng.Valid() && rng.flagIsSeeded == 1
    ensures rng.seedings == if old(rng.flagIsSeeded) == 0 then [SrandSeed(now)] else old(rng.seedings)
    ensures Shuffled(old(a[..]), arraySize, old(rng.draws)) == Some((a[..], rng.draws))
    ensures multiset(a[..arraySize]) == multiset(old(a[..arraySize]))
    ensures a[arraySize..] == old(a[arraySize..])
    ensures arraySize <= 1 ==> a[..] == old(a[..])
    ensures arraySize == 2 ==> a[0] == old(a[1]) && a[1] == old(a[0])
  {
    var _ := rng.SeedRand(now);

    if arraySize == 0 || arraySize == 1 {
    } else if arraySize == 2 {
      Swap(a, 0, 1);
    } else {
      PassIsSwapPass(a[..], arraySize, 0, rng.draws);
      DefaultPass(rng, a, arraySize);
    }
  }
}
