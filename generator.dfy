/**
 * The keystream generator of the Collatz cipher as pure functions of the
 * generator state: the seed normalisation, the 32-bit rotate, one Collatz
 * step with its anti-collapse guard and its raw output bit, one Von Neumann
 * round with its local loop guard, the debiaser (bounded by explicit fuel,
 * since the source loop has no termination argument) and the keystream.
 *
 * The state is an unbounded `nat`: the odd branch `3 * s + 1` is not reduced
 * modulo 2^32; only the guard, the rotate and the loop-guard nudge are.
 */
module Generator {
  import opened Wrappers
  import opened IntBits
  import opened Bits

  /** 2^32, the modulus of `& 0xFFFFFFFF`. */
  const Word: nat := 0x1_0000_0000

  const DefaultMask: nat := 0xA5A5A5A5

  /** The seed used for seed 0, and the state forced when the guard yields 0. */
  const FallbackSeed: nat := 12345

  /** Added with the mask when the anti-collapse guard fires. */
  const Salt: nat := 137

  /** A call's loop guard nudges the state once it exceeds this many discards. */
  const GuardLimit: nat := 1000

  /** The rotate distance used for the output bit (the default of `_rotate_left`). */
  const OutputShift: nat := 5

  /** The state a cipher starts from: |seed|, or FallbackSeed for seed 0. */
  function NormalizeSeed(seed: int): (s: nat)
    ensures s >= 1
    ensures seed != 0 ==> s == seed || s == -seed
    ensures seed == 0 ==> s == FallbackSeed
  {
    if seed == 0 then FallbackSeed else if seed < 0 then -seed else seed
  }

  /**
   * `_rotate_left`: `num & 0xFFFFFFFF` shifted left by `shift` places, or-ed
   * with the same value shifted right by `32 - shift` places, and masked to
   * 32 bits again. Dafny's `%` is Euclidean, which agrees with Python's
   * two's-complement `&` for a negative `num` as well; Python rejects a
   * negative shift count, hence `shift <= 32`. The result always fits in
   * 32 bits.
   */
  function RotateLeft(num: int, shift: nat): (r: nat)
    requires shift <= 32
    ensures r < Word
  {
    var n := num % Word;
    var p, q := Pow2(shift), Pow2(32 - shift);
    MulNat(n, p);
    DivNat(n, q);
    Or(n * p, n / q) % Word
  }

  /**
   * With the shift the cipher uses, `_rotate_left` is a rotation: the low
   * 27 bits of the masked argument move up by 5 places and its top 5 bits
   * come round to the bottom.
   */
  lemma RotateLeftMovesDigits(num: int)
    ensures var n := num % Word;
            RotateLeft(num, OutputShift) == (n % 0x800_0000) * 32 + n / 0x800_0000
  {
    Pow2Facts();
    var n := num % Word;
    var hi, lo := n / 0x800_0000, n % 0x800_0000;
    assert n == 0x800_0000 * hi + lo;
    assert hi < 32;
    OrShifted(n, hi, 5);
    DivModUnique(n * 32 + hi, Word, hi, lo * 32 + hi);
  }

  /** Rotating left by 5 and then by 27 gives back the low 32 bits of the argument. */
  lemma RotateLeftInverse(num: int)
    ensures RotateLeft(RotateLeft(num, OutputShift), 32 - OutputShift) == num % Word
  {
    Pow2Facts();
    var n := num % Word;
    var hi, lo := n / 0x800_0000, n % 0x800_0000;
    assert n == 0x800_0000 * hi + lo;
    assert hi < 32;
    RotateLeftMovesDigits(num);
    var m := lo * 32 + hi;
    DivModUnique(m, Word, 0, m);
    DivModUnique(m, 32, lo, hi);
    OrShifted(m, lo, 27);
    DivModUnique(m * 0x800_0000 + lo, Word, lo, hi * 0x800_0000 + lo);
  }

  /** Bit 0 of `_rotate_left(x)` is bit 27 of x. */
  lemma RotatedLowBit(x: nat)
    ensures RotateLeft(x, OutputShift) % 2 == Digit(x, 27)
  {
    Pow2Facts();
    var n := x % Word;
    var hi, lo := n / 0x800_0000, n % 0x800_0000;
    assert n == 0x800_0000 * hi + lo;
    assert hi < 32;
    RotateLeftMovesDigits(x);
    DivModUnique(lo * 32 + hi, 2, lo * 16 + hi / 2, hi % 2);
    var q := x / Word;
    assert x == 0x800_0000 * (32 * q + hi) + lo;
    DivModUnique(x, 0x800_0000, 32 * q + hi, lo);
    DivModUnique(32 * q + hi, 2, 16 * q + hi / 2, hi % 2);
  }

  /**
   * The Collatz transition, without truncation. It is at most 1 exactly for
   * the states 0 and 2, so those are the only states the guard acts after.
   */
  function Collatz(s: nat): (c: nat)
    ensures s > 0 ==> c > 0
    ensures c <= 1 <==> s == 0 || s == 2
  {
    if s % 2 == 0 then s / 2 else 3 * s + 1
  }

  /** The anti-collapse guard applied to the state `c` a transition produced. */
  function Guard(c: nat, mask: nat): (r: nat)
    ensures r != 0
    ensures c > 1 ==> r == c
    ensures c <= 1 && (c + mask + Salt) % Word != 0 ==> r < Word && (r - c - mask - Salt) % Word == 0
    ensures c <= 1 && (c + mask + Salt) % Word == 0 ==> r == FallbackSeed
  {
    if c <= 1 then
      var salted := (c + mask + Salt) % Word;
      if salted == 0 then FallbackSeed else salted
    else c
  }

  /** The state after one `_collatz_chaos_step`. */
  function NextState(s: nat, mask: nat): (r: nat)
    ensures r != 0
    ensures s != 0 && s != 2 ==> r == Collatz(s)
  {
    Guard(Collatz(s), mask)
  }

  /**
   * The guard does not keep the state away from 1 for every mask: a step
   * yields 1 exactly from state 2 when mask + 137 is a multiple of 2^32,
   * and from state 0 (which the loop-guard nudge can produce) when
   * mask + 137 is one more than a multiple of 2^32.
   */
  lemma StepYieldsOne(s: nat, mask: nat)
    ensures NextState(s, mask) == 1 <==>
              || (s == 2 && (mask + Salt) % Word == 0)
              || (s == 0 && (mask + Salt) % Word == 1)
  {
    if s == 2 {
      assert Collatz(s) == 1;
      var q, m := (mask + Salt) / Word, (mask + Salt) % Word;
      if m == Word - 1 {
        DivModUnique(1 + mask + Salt, Word, q + 1, 0);
      } else {
        DivModUnique(1 + mask + Salt, Word, q, m + 1);
      }
    } else if s == 0 {
      assert Collatz(s) == 0;
    }
  }

  /** The raw bit of a step: bit 0 of the shadow copy `state ^ mask` rotated left by 5. */
  function OutputBit(s: nat, mask: nat): Bit
  {
    RotateLeft(Xor(s, mask), OutputShift) % 2
  }

  /** The raw bit is bit 27 of the state XOR bit 27 of the mask. */
  lemma OutputBitIsBit27(s: nat, mask: nat)
    ensures OutputBit(s, mask) == if Digit(s, 27) == Digit(mask, 27) then 0 else 1
  {
    RotatedLowBit(Xor(s, mask));
    XorDigit(s, mask, 27);
  }

  /** What one round of the debiaser does: accept a bit, or discard the pair. */
  datatype RoundOutcome = Accepted(bit: Bit, state: nat) | Discarded(state: nat, guard: nat)

  /**
   * One round of `_get_balanced_bit` from state `s` with loop guard `guard`:
   * two steps, then the Von Neumann rule. The pair (0, 1) yields 0 and
   * (1, 0) yields 1, i.e. the first bit of an unequal pair, leaving the
   * state where the two steps left it; an equal pair is discarded and
   * counted, and the 1001st consecutive discard adds the count to the state
   * modulo 2^32 and restarts the count.
   */
  function Round(s: nat, mask: nat, guard: nat): (r: RoundOutcome)
    ensures var s1 := NextState(s, mask);
            var s2 := NextState(s1, mask);
            var b1 := OutputBit(s1, mask);
            var b2 := OutputBit(s2, mask);
            && (r.Accepted? <==> b1 != b2)
            && (r.Accepted? ==> r.bit == b1 && r.bit != b2 && r.state == s2)
            && (r.Discarded? && guard < GuardLimit ==> r.state == s2 && r.guard == guard + 1)
            && (r.Discarded? && guard >= GuardLimit ==> r.state == (s2 + guard + 1) % Word && r.guard == 0)
    ensures r.Discarded? && guard <= GuardLimit ==> r.guard <= GuardLimit
  {
    var s1 := NextState(s, mask);
    var b1 := OutputBit(s1, mask);
    var s2 := NextState(s1, mask);
    var b2 := OutputBit(s2, mask);
    if b1 == 0 && b2 == 1 then Accepted(0, s2)
    else if b1 == 1 && b2 == 0 then Accepted(1, s2)
    else
      var g := guard + 1;
      if g > GuardLimit then Discarded((s2 + g) % Word, 0) else Discarded(s2, g)
  }

  /** The bit a call of the debiaser returns and the state it leaves. */
  datatype Draw = Draw(bit: Bit, state: nat)

  /** The debiaser run for at most `fuel` rounds; None if no pair was accepted. */
  function Debias(s: nat, mask: nat, guard: nat, fuel: nat): Option<Draw>
    decreases fuel
  {
    if fuel == 0 then None
    else match Round(s, mask, guard)
      case Accepted(b, t) => Some(Draw(b, t))
      case Discarded(t, g) => Debias(t, mask, g, fuel - 1)
  }

  /**
   * One round of the debiaser with the states of its two steps named: its
   * two raw bits decide between accepting and going on from the state the
   * round leaves.
   */
  lemma DebiasRound(s: nat, mask: nat, guard: nat, fuel: nat, s1: nat, s2: nat)
    requires fuel > 0 && s1 == NextState(s, mask) && s2 == NextState(s1, mask)
    ensures var b1, b2 := OutputBit(s1, mask), OutputBit(s2, mask);
            var r := Round(s, mask, guard);
            && (b1 != b2 ==> r == Accepted(b1, s2) && Debias(s, mask, guard, fuel) == Some(Draw(b1, s2)))
            && (b1 == b2 ==> r.Discarded? && Debias(s, mask, guard, fuel) == Debias(r.state, mask, r.guard, fuel - 1))
  {
  }

  /** More rounds than needed do not change what the debiaser returns. */
  lemma {:induction false} DebiasMoreFuel(s: nat, mask: nat, guard: nat, fuel: nat, more: nat)
    requires Debias(s, mask, guard, fuel).Some? && fuel <= more
    ensures Debias(s, mask, guard, more) == Debias(s, mask, guard, fuel)
    decreases fuel
  {
    var r := Round(s, mask, guard);
    if r.Discarded? {
      assert Debias(s, mask, guard, fuel) == Debias(r.state, mask, r.guard, fuel - 1);
      DebiasMoreFuel(r.state, mask, r.guard, fuel - 1, more - 1);
      assert Debias(s, mask, guard, more) == Debias(r.state, mask, r.guard, more - 1);
    }
  }

  /** The debiaser is deterministic: any two round bounds that finish agree. */
  lemma DebiasFuelIrrelevant(s: nat, mask: nat, guard: nat, f1: nat, f2: nat)
    requires Debias(s, mask, guard, f1).Some? && Debias(s, mask, guard, f2).Some?
    ensures Debias(s, mask, guard, f1) == Debias(s, mask, guard, f2)
  {
    if f1 <= f2 {
      DebiasMoreFuel(s, mask, guard, f1, f2);
    } else {
      DebiasMoreFuel(s, mask, guard, f2, f1);
    }
  }

  /** A call of the debiaser from state `s` (loop guard 0) accepts a pair eventually. */
  ghost predicate Halts(s: nat, mask: nat)
  {
    exists fuel: nat :: Debias(s, mask, 0, fuel).Some?
  }

  /** What a call of the debiaser from state `s` returns, when it returns. */
  ghost function BalancedDraw(s: nat, mask: nat): (d: Draw)
    requires Halts(s, mask)
    ensures forall fuel: nat :: Debias(s, mask, 0, fuel).Some? ==> Debias(s, mask, 0, fuel) == Some(d)
  {
    var fuel: nat :| Debias(s, mask, 0, fuel).Some?;
    assert forall f: nat :: Debias(s, mask, 0, f).Some? ==> Debias(s, mask, 0, f) == Debias(s, mask, 0, fuel) by {
      forall f: nat | Debias(s, mask, 0, f).Some?
        ensures Debias(s, mask, 0, f) == Debias(s, mask, 0, fuel)
      {
        DebiasFuelIrrelevant(s, mask, 0, f, fuel);
      }
    }
    Debias(s, mask, 0, fuel).value
  }

  /** A keystream and the generator state after it. */
  datatype Stream = Stream(bits: seq<Bit>, state: nat)

  /**
   * `length` debiaser calls in a row from `seed`: None when one of them
   * never accepts a pair.
   */
  ghost function Run(seed: nat, mask: nat, length: nat): (r: Option<Stream>)
    ensures r.Some? ==> |r.value.bits| == length
    decreases length
  {
    if length == 0 then Some(Stream([], seed))
    else match Run(seed, mask, length - 1)
      case None => None
      case Some(prev) =>
        if Halts(prev.state, mask) then
          var d := BalancedDraw(prev.state, mask);
          Some(Stream(prev.bits + [d.bit], d.state))
        else None
  }

  /**
   * A shorter keystream from the same seed is a prefix of a longer one, and
   * the shorter one is produced whenever the longer one is.
   */
  lemma {:induction false} RunPrefix(seed: nat, mask: nat, short: nat, long: nat)
    requires short <= long && Run(seed, mask, long).Some?
    ensures Run(seed, mask, short).Some?
    ensures Run(seed, mask, short).value.bits == Run(seed, mask, long).value.bits[..short]
    decreases long
  {
    if short < long {
      RunPrefix(seed, mask, short, long - 1);
      var prev := Run(seed, mask, long - 1).value;
      assert Run(seed, mask, long).value.bits[..long - 1] == prev.bits;
    }
  }

  /** The keystream of `length` bits from `seed`, when every debiaser call in it returns. */
  ghost function Keystream(seed: nat, mask: nat, length: nat): (ks: seq<Bit>)
    requires Run(seed, mask, length).Some?
    ensures |ks| == length
  {
    Run(seed, mask, length).value.bits
  }
}
