/**
 * The six-sample shift-register filter shared by every device in
 * libs/button.py: each due sample enters at bit 0 of a 6-bit register and the
 * filtered state flips only when the register is all ones or all zeros.
 */
module Debounce {
  import opened Bitwise

  /** `ButtonCore.samples`: the register remembers this many raw samples. */
  const Samples: nat := 6

  /** `ButtonCore.buffer_mask`, (1 << samples) - 1. */
  const BufferMask: nat := 0x3F

  /** The value of `__buffer`: always truncated to six bits. */
  type Register = r: nat | r <= 0x3F

  /** Python's `int(val)` for a boolean sample. */
  function B2I(b: bool): nat
  {
    if b then 1 else 0
  }

  /** `((buffer << 1) + int(val)) & buffer_mask`: shift the new sample in at bit 0. */
  function NextRegister(buffer: Register, val: bool): (r: Register)
    ensures r == (2 * buffer + B2I(val)) % 64
    ensures r % 2 == B2I(val)
  {
    assert And(2 * buffer + B2I(val), BufferMask) == (2 * buffer + B2I(val)) % 64 by {
      assert Pow2(6) == 64;
      LowMask(6, 2 * buffer + B2I(val));
    }
    And(2 * buffer + B2I(val), BufferMask)
  }

  /** The filter's two pieces of state: the register and the filtered (debounced) state. */
  datatype Filter = Filter(buffer: Register, state: bool)

  /**
   * One due sample: the register takes the sample, the state becomes true
   * when the register is all ones and false when it is all zeros.
   */
  function Step(f: Filter, val: bool): (g: Filter)
    ensures g.buffer == NextRegister(f.buffer, val)
    ensures g.state && !f.state ==> g.buffer == BufferMask
    ensures !g.state && f.state ==> g.buffer == 0
    ensures g.buffer == BufferMask ==> g.state
    ensures g.buffer == 0 ==> !g.state
    ensures 0 < g.buffer < BufferMask ==> g.state == f.state
  {
    var buffer := NextRegister(f.buffer, val);
    var state :=
      if buffer == BufferMask && !f.state then true
      else if buffer == 0 && f.state then false
      else f.state;
    Filter(buffer, state)
  }

  /** The filter after a sequence of due samples, oldest first. */
  function Run(f: Filter, vals: seq<bool>): Filter
  {
    if |vals| == 0 then f else Step(Run(f, vals[..|vals| - 1]), vals[|vals| - 1])
  }

  /** A sequence of samples read as a binary number, the last sample as the least significant bit. */
  function Enc(w: seq<bool>): nat
  {
    if |w| == 0 then 0 else 2 * Enc(w[..|w| - 1]) + B2I(w[|w| - 1])
  }

  /** The register that holds a window of six samples. */
  function WindowRegister(w: seq<bool>): (r: Register)
    requires |w| == Samples
    ensures r == Enc(w)
  {
    assert Enc(w) < 64 by {
      EncBound(w);
      assert Pow2(6) == 64;
    }
    Enc(w)
  }

  /** The n low bits of r, most significant first. */
  function Bits(r: nat, n: nat): (w: seq<bool>)
    ensures |w| == n
  {
    if n == 0 then [] else Bits(r / 2, n - 1) + [r % 2 == 1]
  }

  /** The last six samples of a history that holds at least six. */
  function LastSix(h: seq<bool>): seq<bool>
    requires |h| >= Samples
  {
    h[|h| - Samples..]
  }

  /** n copies of the sample v. */
  function Repeat(v: bool, n: nat): (w: seq<bool>)
    ensures |w| == n && forall i :: 0 <= i < n ==> w[i] == v
  {
    if n == 0 then [] else Repeat(v, n - 1) + [v]
  }

  lemma {:induction false} EncBound(w: seq<bool>)
    ensures Enc(w) < Pow2(|w|)
  {
    if |w| > 0 {
      EncBound(w[..|w| - 1]);
    }
  }

  /** Reading the oldest sample off the top of the number. */
  lemma {:induction false} EncFirst(w: seq<bool>)
    requires |w| >= 1
    ensures Enc(w) == B2I(w[0]) * Pow2(|w| - 1) + Enc(w[1..])
  {
    if |w| > 1 {
      EncFirst(w[..|w| - 1]);
      assert w[..|w| - 1][1..] == w[1..][..|w| - 2];
      assert w[..|w| - 1][0] == w[0];
    } else {
      assert w[1..] == [];
    }
  }

  /** Every register is the number of its own six bits. */
  lemma {:induction false} EncBits(r: nat, n: nat)
    ensures Enc(Bits(r, n)) == r % Pow2(n)
  {
    if n > 0 {
      EncBits(r / 2, n - 1);
      assert Bits(r, n)[..n - 1] == Bits(r / 2, n - 1);
      ModDouble(r, Pow2(n - 1));
    }
  }

  /** Shifting a sample into the register of a six-sample window slides the window by one. */
  lemma ShiftIn(w: seq<bool>, v: bool)
    requires |w| == Samples
    ensures NextRegister(WindowRegister(w), v) == WindowRegister(w[1..] + [v])
  {
    var w' := w[1..] + [v];
    assert w'[..5] == w[1..];
    EncFirst(w);
    assert Pow2(5) == 32;
    assert Enc(w') == 2 * Enc(w[1..]) + B2I(v);
    ModUnique(2 * Enc(w) + B2I(v), 64, B2I(w[0]), WindowRegister(w'));
  }

  /**
   * The register holds exactly the last six samples: starting from the
   * register of a window `w`, after the samples `vals` it is the number of the
   * last six samples of `w + vals`.
   */
  lemma {:induction false} RegisterIsWindow(w: seq<bool>, state: bool, vals: seq<bool>)
    requires |w| == Samples
    ensures Run(Filter(WindowRegister(w), state), vals).buffer == WindowRegister(LastSix(w + vals))
  {
    if |vals| == 0 {
      assert w + vals == w;
    } else {
      var init := vals[..|vals| - 1];
      var v := vals[|vals| - 1];
      RegisterIsWindow(w, state, init);
      var h := w + init;
      ShiftIn(LastSix(h), v);
      assert LastSix(h)[1..] + [v] == LastSix(w + vals);
    }
  }

  /** Bit i of the register is the sample taken i samples ago; the newest sample is bit 0. */
  lemma {:induction false} WindowBit(w: seq<bool>, i: nat)
    requires i < |w|
    ensures BitOf(Enc(w), i) == w[|w| - 1 - i]
  {
    var n := |w|;
    var e := Enc(w);
    assert e == 2 * Enc(w[..n - 1]) + B2I(w[n - 1]);
    if i > 0 {
      assert e / 2 == Enc(w[..n - 1]);
      WindowBit(w[..n - 1], i - 1);
    }
  }

  /** The register is all ones exactly when every remembered sample is high. */
  lemma {:induction false} WindowAllOnes(w: seq<bool>)
    ensures Enc(w) == Pow2(|w|) - 1 <==> forall i :: 0 <= i < |w| ==> w[i]
  {
    if |w| > 0 {
      var init := w[..|w| - 1];
      WindowAllOnes(init);
      EncBound(init);
      assert Enc(w) == Pow2(|w|) - 1 <==> w[|w| - 1] && Enc(init) == Pow2(|init|) - 1;
      assert forall i :: 0 <= i < |init| ==> init[i] == w[i];
    }
  }

  /** The register is zero exactly when every remembered sample is low. */
  lemma {:induction false} WindowAllZeros(w: seq<bool>)
    ensures Enc(w) == 0 <==> forall i :: 0 <= i < |w| ==> !w[i]
  {
    if |w| > 0 {
      var init := w[..|w| - 1];
      WindowAllZeros(init);
      assert Enc(w) == 0 <==> !w[|w| - 1] && Enc(init) == 0;
      assert forall i :: 0 <= i < |init| ==> init[i] == w[i];
    }
  }

  /**
   * The filtered state flips to `v` only on a sample that completes six
   * equal samples `v` in a row (counting samples already in the register).
   */
  lemma FlipNeedsSixEqualSamples(w: seq<bool>, state: bool, vals: seq<bool>)
    requires |w| == Samples && |vals| >= 1
    requires Run(Filter(WindowRegister(w), state), vals).state != Run(Filter(WindowRegister(w), state), vals[..|vals| - 1]).state
    ensures var h := w + vals; var v := Run(Filter(WindowRegister(w), state), vals).state;
            forall i :: |h| - Samples <= i < |h| ==> h[i] == v
  {
    var h := w + vals;
    var g := Run(Filter(WindowRegister(w), state), vals);
    assert vals[..|vals| - 1] + [vals[|vals| - 1]] == vals;
    RegisterIsWindow(w, state, vals);
    assert Pow2(6) == 64;
    var last := LastSix(h);
    if g.state {
      WindowAllOnes(last);
      assert forall i :: |h| - Samples <= i < |h| ==> h[i] == last[i - (|h| - Samples)];
    } else {
      WindowAllZeros(last);
      assert forall i :: |h| - Samples <= i < |h| ==> h[i] == last[i - (|h| - Samples)];
    }
  }

  /** A raw input that changes on every sample never moves the filtered state after its first sample. */
  lemma {:induction false} AlternatingNeverFlips(f: Filter, vals: seq<bool>)
    requires |vals| >= 1
    requires forall i :: 0 <= i < |vals| - 1 ==> vals[i] != vals[i + 1]
    ensures Run(f, vals).state == Run(f, vals[..1]).state
    ensures Run(f, vals).buffer % 2 == B2I(vals[|vals| - 1])
  {
    var n := |vals|;
    var init := vals[..n - 1];
    assert Run(f, vals) == Step(Run(f, init), vals[n - 1]);
    if n > 1 {
      assert init[..1] == vals[..1];
      AlternatingNeverFlips(f, init);
      var b := Run(f, init).buffer;
      assert b % 2 != B2I(vals[n - 1]);
      var r := NextRegister(b, vals[n - 1]);
      assert r != 0 && r != BufferMask;
    } else {
      assert init == [] && vals[..1] == vals;
    }
  }

  /** A window holding two different samples is neither all ones nor all zeros. */
  lemma MixedWindow(w: seq<bool>, i: nat, j: nat)
    requires |w| == Samples && i < Samples && j < Samples && w[i] != w[j]
    ensures 0 < Enc(w) < BufferMask
  {
    assert Pow2(6) == 64;
    EncBound(w);
    WindowAllOnes(w);
    WindowAllZeros(w);
  }

  /**
   * After a sample other than `v`, the last six of k >= 1 further samples `v`
   * make a mixed register while k < 6 and a uniform one at k == 6.
   */
  lemma RepeatWindow(w: seq<bool>, v: bool, k: nat)
    requires |w| == Samples && w[Samples - 1] != v && 1 <= k <= Samples
    ensures k < Samples ==> 0 < Enc(LastSix(w + Repeat(v, k))) < BufferMask
    ensures k == Samples ==> Enc(LastSix(w + Repeat(v, k))) == if v then BufferMask else 0
  {
    var last := LastSix(w + Repeat(v, k));
    assert Pow2(6) == 64;
    if k < Samples {
      assert last[5 - k] == w[5] && last[5] == v;
      MixedWindow(last, 5 - k, 5);
    } else {
      assert last == Repeat(v, Samples);
      WindowAllOnes(last);
      WindowAllZeros(last);
    }
  }

  /** A register is the number of its own six bits. */
  lemma RegisterBits(r: Register)
    ensures Enc(Bits(r, Samples)) == r
  {
    EncBits(r, Samples);
    assert Pow2(6) == 64;
  }

  lemma RunRepeat(f: Filter, v: bool, k: nat)
    requires k >= 1
    ensures Run(f, Repeat(v, k)) == Step(Run(f, Repeat(v, k - 1)), v)
  {
    assert Repeat(v, k)[..k - 1] == Repeat(v, k - 1);
  }

  /**
   * Debounce confirmation: after a sample that differs from `v`, fewer than
   * six samples `v` leave the filtered state as it was, and the sixth sets it to `v`.
   */
  lemma {:induction false} SixthEqualSampleFlips(f: Filter, v: bool, k: nat)
    requires f.buffer % 2 != B2I(v)
    requires k <= Samples
    ensures k < Samples ==> Run(f, Repeat(v, k)).state == f.state
    ensures k == Samples ==> Run(f, Repeat(v, k)).state == v
    ensures Run(f, Repeat(v, k)).buffer == Enc(LastSix(Bits(f.buffer, Samples) + Repeat(v, k)))
  {
    var w := Bits(f.buffer, Samples);
    RegisterBits(f.buffer);
    assert Filter(WindowRegister(w), f.state) == f;
    RegisterIsWindow(w, f.state, Repeat(v, k));
    if k > 0 {
      SixthEqualSampleFlips(f, v, k - 1);
      RunRepeat(f, v, k);
      WindowBit(w, 0);
      RepeatWindow(w, v, k);
    }
  }
}
