/**
 * Wrap-around tick arithmetic over MicroPython's microsecond counter.
 *
 * `time.ticks_us()` counts modulo 2^30 on MicroPython, so `ticks_add(0, -1)`
 * is 2^30 - 1 and every timestamp is truncated to the mask 0x3FFF_FFFF.
 * The viper-compiled functions compute on 32-bit machine words (`uint`),
 * so their arithmetic is written modulo 2^32 here.
 */
module Timestamp {
  import opened Bitwise
  import opened Wrappers

  /** Number of bits of the tick counter. */
  const W: nat := 30

  /** What `time.ticks_add(0, -1)` returns: the largest tick value. */
  const TicksMax: nat := 0x3FFF_FFFF

  /** The module-level `__ticks_mask`, 2^W - 1. */
  const Mask: nat := 0x3FFF_FFFF

  /** Number of values of a viper `uint`. */
  const WordSize: nat := 0x1_0000_0000

  /** A viper `uint`: a 32-bit machine word. */
  type Word = x: nat | x < 0x1_0000_0000

  /** A timestamp: a tick value already truncated to the mask. */
  type Tick = t: nat | t <= 0x3FFF_FFFF

  /** Python's conversion of an int argument to a viper `uint` (two's complement truncation). */
  function ToWord(x: int): (r: Word)
    ensures 0 <= x < WordSize ==> r == x
    ensures (r - x) % WordSize == 0
  {
    x % WordSize
  }

  lemma Pow2OfW()
    ensures Pow2(W) == Mask + 1
  {
    assert Pow2(2) == 4;
    Pow2Add(2, 2);
    Pow2Add(4, 4);
    Pow2Add(8, 8);
    Pow2Add(16, 8);
    Pow2Add(24, 4);
    Pow2Add(28, 2);
  }

  /** Truncating to a word first does not change the low W bits. */
  lemma WordThenMask(x: nat)
    ensures (x % WordSize) % (Mask + 1) == x % (Mask + 1)
  {
    var q, r := x / WordSize, x % WordSize;
    ModUnique(x, Mask + 1, 4 * q + r / (Mask + 1), r % (Mask + 1));
  }

  /**
   * `__get_ticks_mask`: the smallest number of the form 2^bits - 1 that is
   * at least `ticksMax`, found by counting bits upwards.
   */
  method GetTicksMask(ticksMax: int) returns (mask: nat)
    ensures exists bits: nat :: mask == Pow2(bits) - 1
    ensures ticksMax <= mask
    ensures forall bits: nat :: ticksMax <= Pow2(bits) - 1 ==> mask <= Pow2(bits) - 1
  {
    var bits: nat := 0;
    while ticksMax > Pow2(bits) - 1
      invariant forall b: nat :: b < bits ==> Pow2(b) - 1 < ticksMax
      decreases ticksMax - Pow2(bits)
    {
      bits := bits + 1;
    }
    mask := Pow2(bits) - 1;
    forall b: nat | ticksMax <= Pow2(b) - 1
      ensures mask <= Pow2(b) - 1
    {
      Pow2Monotone(bits, b);
    }
  }

  /**
   * Whatever `__get_ticks_mask` returns for `TicksMax` (any number meeting
   * the contract of `GetTicksMask`) is the constant mask 2^W - 1.
   */
  lemma TicksMaskIsMask(mask: nat)
    requires exists bits: nat :: mask == Pow2(bits) - 1
    requires TicksMax <= mask
    requires forall bits: nat :: TicksMax <= Pow2(bits) - 1 ==> mask <= Pow2(bits) - 1
    ensures mask == Mask == Pow2(W) - 1
  {
    Pow2OfW();
    assert TicksMax <= Pow2(W) - 1;
  }

  /**
   * `diff(t1, t0)`: ticks from t0 to t1. When t1 is not after t0 the code
   * computes `mask - t1 + t0`, which is not the modular difference.
   */
  function Diff(t1: Word, t0: Word): (r: Word)
    ensures t1 > t0 ==> r == t1 - t0
    ensures t1 <= t0 <= Mask ==> r == Mask - t1 + t0
    ensures t1 <= t0 <= Mask ==> r >= Mask
  {
    if t1 > t0 then t1 - t0 else (Mask - t1 + t0) % WordSize
  }

  /** `advance(t, delta)`: `mask & (t + delta)` on 32-bit words, that is, addition modulo 2^W. */
  function Advance(t: Word, delta: Word): (r: Tick)
    ensures r == (t + delta) % (Mask + 1)
  {
    assert And(Mask, (t + delta) % WordSize) == (t + delta) % (Mask + 1) by {
      Pow2OfW();
      LowMask(W, (t + delta) % WordSize);
      WordThenMask(t + delta);
    }
    And(Mask, (t + delta) % WordSize)
  }

  /** `now()`: the raw `ticks_us()` reading ANDed with the mask. */
  function Now(ticksUs: nat): (r: Tick)
    ensures r == ticksUs % (Mask + 1)
  {
    assert And(ticksUs % WordSize, Mask) == ticksUs % (Mask + 1) by {
      Pow2OfW();
      LowMask(W, ticksUs % WordSize);
      WordThenMask(ticksUs);
    }
    And(ticksUs % WordSize, Mask)
  }

  /** `expired_at(t_base, us, t)`: at least `us` ticks from `t_base` to `t`, with `diff` written out inline. */
  function ExpiredAt(tBase: Word, us: Word, t: Word): (r: bool)
    ensures r == (Diff(t, tBase) >= us)
  {
    (if t > tBase then t - tBase else (Mask - t + tBase) % WordSize) >= us
  }

  /** `expired(t_base, us)`: `expired_at` against the current tick, read from `ticksUs`. */
  function Expired(tBase: Word, us: Word, ticksUs: nat): (r: bool)
    ensures r == (Diff(ticksUs % (Mask + 1), tBase) >= us)
  {
    ExpiredAt(tBase, us, Now(ticksUs))
  }

  /**
   * `expired_and_advance(t_base, us, t=None)`: whether the period has run out
   * (at `t`, or at the current tick when `t` is None) and the next base.
   */
  function ExpiredAndAdvance(tBase: Word, us: Word, t: Option<Word>, ticksUs: nat): (r: (bool, Word))
    ensures var at := if t.Some? then t.value else ticksUs % (Mask + 1);
            r.0 == (Diff(at, tBase) >= us)
    ensures r.0 ==> r.1 == (tBase + us) % (Mask + 1)
    ensures !r.0 ==> r.1 == tBase
  {
    var at := if t.Some? then t.value else Now(ticksUs);
    var result := ExpiredAt(tBase, us, at);
    (result, if result then Advance(tBase, us) else tBase)
  }

  /** On timestamps, `diff` agrees with modular subtraction exactly when t1 is after t0. */
  lemma DiffIsModularIffForward(t1: Tick, t0: Tick)
    ensures Diff(t1, t0) == (t1 - t0) % (Mask + 1) <==> t1 > t0
  {
    if t1 <= t0 {
      assert Diff(t1, t0) >= Mask;
      if t1 < t0 {
        ModUnique((t1 - t0) + (Mask + 1), Mask + 1, 0, (t1 - t0) + (Mask + 1));
        assert (t1 - t0) % (Mask + 1) == (t1 - t0) + (Mask + 1);
      }
    }
  }

  /** Two equal timestamps are `mask` ticks apart, so `expired_at(t, us, t)` holds for every `us <= mask`. */
  lemma EqualTicksAreExpired(t: Tick, us: Word)
    requires us <= Mask
    ensures Diff(t, t) == Mask
    ensures ExpiredAt(t, us, t)
  {
  }

  /** One tick after the counter wraps, `diff` reports almost two full periods rather than 1. */
  lemma DiffAcrossWrap()
    ensures Diff(0, Mask) == 2 * Mask
    ensures (0 - Mask) % (Mask + 1) == 1
  {
  }

  /** Advancing stays on the tick grid and never exceeds the mask. */
  lemma AdvanceWraps(t: Tick, delta: Word)
    requires t + delta > Mask && delta <= Mask
    ensures Advance(t, delta) == t + delta - (Mask + 1)
  {
    ModUnique(t + delta, Mask + 1, 1, t + delta - (Mask + 1));
  }
}
