// Bit strings over GF(2) and the sixteen-stage shift register behind CRC-16. Nothing here mentions
// machine words: a register is the list of its bits, least significant first.

module Gf2 {
  function Zeros(n: nat): (r: seq<bool>)
    ensures |r| == n
  {
    seq(n, _ => false)
  }

  /** Bitwise sum of two bit strings of the same length. */
  function Xor(a: seq<bool>, b: seq<bool>): (r: seq<bool>)
    requires |a| == |b|
    ensures |r| == |a|
    ensures forall i :: 0 <= i < |a| ==> r[i] == (a[i] != b[i])
  {
    seq(|a|, i requires 0 <= i < |a| => a[i] != b[i])
  }

  lemma XorCons(a: bool, s: seq<bool>, b: bool, t: seq<bool>)
    requires |s| == |t|
    ensures Xor([a] + s, [b] + t) == [a != b] + Xor(s, t)
  {
  }

  /** The string when b is set, zeros otherwise. */
  function Scale(b: bool, a: seq<bool>): (r: seq<bool>)
    ensures |r| == |a|
    ensures forall i :: 0 <= i < |a| ==> r[i] == (b && a[i])
  {
    if b then a else Zeros(|a|)
  }

  type Register = r: seq<bool> | |r| == 16 witness Zeros(16)

  /** The taps 0xA001, least significant bit first: x^15, x^2 and 1 of x^16 + x^15 + x^2 + 1. */
  const TAPS: Register := [true] + Zeros(12) + [true, false, true]

  /** One shift to the right with the taps folded in when a one falls out. */
  function Shift(r: Register): Register {
    Xor(r[1..] + [false], Scale(r[0], TAPS))
  }

  function Shifts(r: Register, n: nat): Register
    decreases n
  {
    if n == 0 then r else Shifts(Shift(r), n - 1)
  }

  /** The register after one message bit. */
  function Clock(r: Register, b: bool): Register {
    Shift(r[0 := r[0] != b])
  }

  function Feed(r: Register, m: seq<bool>): Register
    decreases |m|
  {
    if m == [] then r else Feed(Clock(r, m[0]), m[1..])
  }

  lemma {:induction false} FeedAppend(r: Register, m: seq<bool>, n: seq<bool>)
    ensures Feed(r, m + n) == Feed(Feed(r, m), n)
    decreases |m|
  {
    if m == [] {
      assert m + n == n;
    } else {
      assert (m + n)[1..] == m[1..] + n;
      FeedAppend(Clock(r, m[0]), m[1..], n);
    }
  }

  lemma ShiftAbsorbs(r: Register, b: bool, w: seq<bool>)
    requires |w| <= 15
    ensures Shift(Xor(r, [b] + w + Zeros(15 - |w|))) == Xor(Clock(r, b), w + Zeros(16 - |w|))
  {
  }

  lemma FirstShift(x: Register, n: nat, r: Register, w: seq<bool>)
    requires 0 < n == |w|
    ensures Shifts(x, n) == Shifts(Shift(x), n - 1) && Feed(r, w) == Feed(Clock(r, w[0]), w[1..])
  {
  }

  /** Adding up to sixteen bits to the register at once and shifting is clocking them in one by one. */
  lemma {:induction false} ShiftsAbsorb(r: Register, w: seq<bool>)
    requires |w| <= 16
    ensures Shifts(Xor(r, w + Zeros(16 - |w|)), |w|) == Feed(r, w)
    decreases |w|
  {
    if w == [] {
      assert Xor(r, w + Zeros(16)) == r;
    } else {
      hide Shifts, Shift, Clock, Feed, Xor, Zeros;
      assert w == [w[0]] + w[1..];
      ShiftAbsorbs(r, w[0], w[1..]);
      FirstShift(Xor(r, w + Zeros(16 - |w|)), |w|, r, w);
      ShiftsAbsorb(Clock(r, w[0]), w[1..]);
    }
  }

  // ---------- The register forgets nothing ----------

  lemma ShiftInjective(r: Register, s: Register)
    requires Shift(r) == Shift(s)
    ensures r == s
  {
    assert Shift(r)[15] == r[0] && Shift(s)[15] == s[0];
    forall i | 0 <= i < 16 ensures r[i] == s[i] {
      if i > 0 {
        assert Shift(r)[i - 1] == (r[i] != (r[0] && TAPS[i - 1]));
        assert Shift(s)[i - 1] == (s[i] != (s[0] && TAPS[i - 1]));
      }
    }
  }

  lemma {:induction false} ShiftsInjective(r: Register, s: Register, n: nat)
    requires Shifts(r, n) == Shifts(s, n)
    ensures r == s
    decreases n
  {
    if n > 0 {
      ShiftsInjective(Shift(r), Shift(s), n - 1);
      ShiftInjective(r, s);
    }
  }

  lemma ClockInjective(r: Register, s: Register, b: bool)
    requires Clock(r, b) == Clock(s, b)
    ensures r == s
  {
    var r', s' := r[0 := r[0] != b], s[0 := s[0] != b];
    ShiftInjective(r', s');
    assert forall i :: 0 <= i < 16 ==> r'[i] == s'[i];
  }

  /** Clocking the same bits keeps distinct registers distinct. */
  lemma {:induction false} FeedInjective(r: Register, s: Register, m: seq<bool>)
    requires Feed(r, m) == Feed(s, m)
    ensures r == s
    decreases |m|
  {
    if m != [] {
      FeedInjective(Clock(r, m[0]), Clock(s, m[0]), m[1..]);
      ClockInjective(r, s, m[0]);
    }
  }

  // ---------- Linearity ----------

  lemma ClockOfSum(r: Register, s: Register, b: bool, e: bool)
    ensures Clock(Xor(r, s), b != e) == Xor(Clock(r, b), Clock(s, e))
  {
  }

  /** The register is linear in its initial value and the message together. */
  lemma {:induction false} FeedLinear(r: Register, s: Register, m: seq<bool>, n: seq<bool>)
    requires |m| == |n|
    ensures Feed(Xor(r, s), Xor(m, n)) == Xor(Feed(r, m), Feed(s, n))
    decreases |m|
  {
    if m != [] {
      assert Xor(m, n)[1..] == Xor(m[1..], n[1..]);
      ClockOfSum(r, s, m[0], n[0]);
      FeedLinear(Clock(r, m[0]), Clock(s, n[0]), m[1..], n[1..]);
    }
  }

  lemma {:induction false} FeedZeros(n: nat)
    ensures Feed(Zeros(16), Zeros(n)) == Zeros(16)
    decreases n
  {
    if n > 0 {
      assert Clock(Zeros(16), false) == Zeros(16);
      assert Zeros(n)[1..] == Zeros(n - 1);
      FeedZeros(n - 1);
    }
  }

  lemma {:induction false} ShiftsOfZeros(n: nat)
    ensures Shifts(Zeros(16), n) == Zeros(16)
    decreases n
  {
    if n > 0 {
      assert Shift(Zeros(16)) == Zeros(16);
      ShiftsOfZeros(n - 1);
    }
  }

  /** Sixteen bits or fewer cannot bring the zero register back to zero unless they are all zero. */
  lemma WindowInjective(r: Register, w: seq<bool>)
    requires |w| <= 16
    ensures Feed(r, w) == Zeros(16) <==> Xor(r, w + Zeros(16 - |w|)) == Zeros(16)
  {
    ShiftsAbsorb(r, w);
    ShiftsOfZeros(|w|);
    if Feed(r, w) == Zeros(16) {
      ShiftsInjective(Xor(r, w + Zeros(16 - |w|)), Zeros(16), |w|);
    }
  }

  lemma SumIsZero(r: Register, s: Register)
    ensures Xor(r, s) == Zeros(16) <==> r == s
  {
    if Xor(r, s) == Zeros(16) {
      forall i | 0 <= i < 16 ensures r[i] == s[i] {
        assert !Xor(r, s)[i];
      }
    }
  }

  lemma PrefixOfZeros(w: seq<bool>)
    requires |w| <= 16 && Zeros(16) == w + Zeros(16 - |w|)
    ensures w == Zeros(|w|)
  {
    assert w == Zeros(16)[..|w|];
  }

  lemma WindowFromZero(z: Register, w: seq<bool>)
    requires z == Zeros(16) && |w| <= 16 && Feed(z, w) == z
    ensures w == Zeros(|w|)
  {
    WindowInjective(z, w);
    SumIsZero(z, w + Zeros(16 - |w|));
    PrefixOfZeros(w);
  }

  lemma LeadingZeros(i: nat, m: seq<bool>)
    ensures Feed(Zeros(16), Zeros(i) + m) == Feed(Zeros(16), m)
  {
    FeedAppend(Zeros(16), Zeros(i), m);
    FeedZeros(i);
  }

  lemma TrailingZeros(r: Register, m: seq<bool>, j: nat)
    ensures Feed(r, m + Zeros(j)) == Zeros(16) <==> Feed(r, m) == Zeros(16)
  {
    FeedAppend(r, m, Zeros(j));
    FeedZeros(j);
    if Feed(r, m + Zeros(j)) == Zeros(16) {
      FeedInjective(Feed(r, m), Zeros(16), Zeros(j));
    }
  }

  /** Zeros around an error pattern neither create nor hide its trace. */
  lemma PaddingIsInvisible(i: nat, w: seq<bool>, j: nat)
    ensures Feed(Zeros(16), Zeros(i) + w + Zeros(j)) == Zeros(16) <==> Feed(Zeros(16), w) == Zeros(16)
  {
    TrailingZeros(Zeros(16), Zeros(i) + w, j);
    LeadingZeros(i, w);
  }

  // ---------- Parity ----------

  /** The number of ones. */
  function Ones(m: seq<bool>): nat
    decreases |m|
  {
    if m == [] then 0 else (if m[0] then 1 else 0) + Ones(m[1..])
  }

  predicate Odd(m: seq<bool>) { Ones(m) % 2 == 1 }

  lemma {:induction false} OnesAppend(m: seq<bool>, n: seq<bool>)
    ensures Ones(m + n) == Ones(m) + Ones(n)
    decreases |m|
  {
    if m == [] {
      assert m + n == n;
    } else {
      assert (m + n)[1..] == m[1..] + n;
      OnesAppend(m[1..], n);
    }
  }

  lemma {:induction false} OddOfSum(m: seq<bool>, n: seq<bool>)
    requires |m| == |n|
    ensures Odd(Xor(m, n)) == (Odd(m) != Odd(n))
    decreases |m|
  {
    if m != [] {
      assert Xor(m, n)[1..] == Xor(m[1..], n[1..]);
      OddOfSum(m[1..], n[1..]);
    }
  }

  lemma {:induction false} OnesOfZeros(n: nat)
    ensures Ones(Zeros(n)) == 0
    decreases n
  {
    if n > 0 {
      assert Zeros(n)[1..] == Zeros(n - 1);
      OnesOfZeros(n - 1);
    }
  }

  lemma OddTaps()
    ensures Odd(TAPS)
  {
    OnesAppend([true] + Zeros(12), [true, false, true]);
    OnesAppend([true], Zeros(12));
    OnesOfZeros(12);
    assert [true, false, true][1..] == [false, true] && [false, true][1..] == [true];
  }

  lemma ScaledTapsParity(b: bool)
    ensures Odd(Scale(b, TAPS)) == b
  {
    OnesOfZeros(16);
    OddTaps();
  }

  /** The generator has an even number of terms, so a shift keeps the parity of the register. */
  lemma ShiftKeepsParity(r: Register)
    ensures Odd(Shift(r)) == Odd(r)
  {
    OddOfSum(r[1..] + [false], Scale(r[0], TAPS));
    OnesAppend(r[1..], [false]);
    ScaledTapsParity(r[0]);
  }

  lemma ClockParity(r: Register, b: bool)
    ensures Odd(Clock(r, b)) == (Odd(r) != b)
  {
    var s := r[0 := r[0] != b];
    assert s[1..] == r[1..];
    ShiftKeepsParity(s);
  }

  /** Register parity after a message is initial parity plus message parity. */
  lemma {:induction false} FeedParity(r: Register, m: seq<bool>)
    ensures Odd(Feed(r, m)) == (Odd(r) != Odd(m))
    decreases |m|
  {
    if m != [] {
      ClockParity(r, m[0]);
      FeedParity(Clock(r, m[0]), m[1..]);
    }
  }
}
