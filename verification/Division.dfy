// Polynomials over GF(2), highest coefficient first, and division by x^16 + x^15 + x^2 + 1.
// The shift register of Gf2 turns out to compute the remainder of this division.

module Division {
  import opened Gf2

  const GENERATOR: seq<bool> := [true] + TAPS

  /** Its terms are those of degree 16, 15, 2 and 0. */
  lemma GeneratorTerms(i: nat)
    requires i <= 16
    ensures |GENERATOR| == 17 && (GENERATOR[i] <==> 16 - i in {16, 15, 2, 0})
  {
  }

  /** The product of q with the generator, by schoolbook multiplication. */
  function Times(q: seq<bool>): (r: seq<bool>)
    ensures |r| == |q| + 16
    decreases |q|
  {
    if q == [] then Zeros(16)
    else Xor(Scale(q[0], GENERATOR) + Zeros(|q| - 1), [false] + Times(q[1..]))
  }

  /**
   * The message followed by sixteen zeros, its first sixteen coefficients changed by the initial
   * register. This is the dividend of section 6.2.2 of MODBUS over Serial Line V1.02.
   */
  function Dividend(r: Register, m: seq<bool>): (d: seq<bool>)
    ensures |d| == |m| + 16
  {
    Xor(m + Zeros(16), r + Zeros(|m|))
  }

  /** d = q * generator + s, where s has degree below 16. */
  ghost predicate IsDivision(d: seq<bool>, q: seq<bool>, s: Register) {
    && |d| == |q| + 16
    && d == Xor(Times(q), Zeros(|q|) + s)
  }

  /** What the leading coefficient contributes to all coefficients but the first. */
  function LeadTail(b: bool, n: nat): (r: seq<bool>)
    requires n > 0
    ensures |r| == n + 15
  {
    Scale(b, TAPS) + Zeros(n - 1)
  }

  lemma LeadSplit(b: bool, n: nat)
    requires n > 0
    ensures Scale(b, GENERATOR) + Zeros(n - 1) == [b] + LeadTail(b, n)
  {
  }

  lemma TimesUnfolded(q: seq<bool>)
    requires q != []
    ensures Times(q) == Xor(Scale(q[0], GENERATOR) + Zeros(|q| - 1), [false] + Times(q[1..]))
  {
  }

  lemma TimesCons(q: seq<bool>)
    requires q != []
    ensures Times(q) == [q[0]] + Xor(LeadTail(q[0], |q|), Times(q[1..]))
  {
    hide Times, LeadTail, Scale, Xor, Zeros;
    TimesUnfolded(q);
    LeadSplit(q[0], |q|);
    XorCons(q[0], LeadTail(q[0], |q|), false, Times(q[1..]));
  }

  lemma XorSwap(a: seq<bool>, b: seq<bool>, c: seq<bool>)
    requires |a| == |b| == |c|
    ensures Xor(a, Xor(Xor(a, b), c)) == Xor(b, c)
  {
  }

  lemma ZerosCons(n: nat, s: seq<bool>)
    requires n > 0
    ensures Zeros(n) + s == [false] + (Zeros(n - 1) + s)
  {
  }

  lemma DividendTail(d: seq<bool>, q: seq<bool>, s: Register)
    requires q != [] && IsDivision(d, q, s)
    ensures d == [q[0]] + Xor(Xor(LeadTail(q[0], |q|), Times(q[1..])), Zeros(|q| - 1) + s)
  {
    TimesCons(q);
    ZerosCons(|q|, s);
    XorCons(q[0], Xor(LeadTail(q[0], |q|), Times(q[1..])), false, Zeros(|q| - 1) + s);
  }

  lemma DividendStep(r: Register, m: seq<bool>)
    requires m != []
    ensures Dividend(r, m) ==
            [r[0] != m[0]] + Xor(LeadTail(r[0] != m[0], |m|), Dividend(Clock(r, m[0]), m[1..]))
  {
  }

  lemma XorAssociates(a: seq<bool>, b: seq<bool>, c: seq<bool>)
    requires |a| == |b| == |c|
    ensures Xor(a, Xor(b, c)) == Xor(Xor(a, b), c)
  {
  }

  /** One more coefficient in front of a division. */
  lemma DivisionCons(lead: bool, e: seq<bool>, q: seq<bool>, s: Register)
    requires IsDivision(e, q, s)
    ensures IsDivision([lead] + Xor(LeadTail(lead, |q| + 1), e), [lead] + q, s)
  {
    var a, z := LeadTail(lead, |q| + 1), Zeros(|q|) + s;
    assert ([lead] + q)[1..] == q;
    TimesCons([lead] + q);
    ZerosCons(|q| + 1, s);
    XorCons(lead, Xor(a, Times(q)), false, z);
    XorAssociates(a, Times(q), z);
  }

  /** Long division step by step, one quotient coefficient for each clock of the register. */
  lemma {:induction false} LongDivision(r: Register, m: seq<bool>) returns (q: seq<bool>)
    ensures |q| == |m| && IsDivision(Dividend(r, m), q, Feed(r, m))
    decreases |m|
  {
    if m == [] {
      q := [];
      assert Dividend(r, m) == Xor(Times(q), Zeros(0) + r);
    } else {
      var q' := LongDivision(Clock(r, m[0]), m[1..]);
      q := [r[0] != m[0]] + q';
      DividendStep(r, m);
      DivisionCons(r[0] != m[0], Dividend(Clock(r, m[0]), m[1..]), q', Feed(r, m));
    }
  }

  /** The first coefficient of the dividend is that of the quotient; without it a smaller division is left. */
  lemma DivisionTail(d: seq<bool>, q: seq<bool>, s: Register)
    requires q != [] && IsDivision(d, q, s)
    ensures d[0] == q[0] && IsDivision(Xor(LeadTail(d[0], |q|), d[1..]), q[1..], s)
  {
    var rest := Xor(Xor(LeadTail(q[0], |q|), Times(q[1..])), Zeros(|q| - 1) + s);
    DividendTail(d, q, s);
    assert d[1..] == rest;
    XorSwap(LeadTail(q[0], |q|), Times(q[1..]), Zeros(|q| - 1) + s);
  }

  /** Quotient and remainder are unique. */
  lemma {:induction false} DivisionUnique(d: seq<bool>, q: seq<bool>, s: Register, q': seq<bool>, s': Register)
    requires IsDivision(d, q, s) && IsDivision(d, q', s')
    ensures q == q' && s == s'
    decreases |q|
  {
    if q == [] {
      assert Xor(Zeros(16), Zeros(0) + s) == s && Xor(Zeros(16), Zeros(0) + s') == s';
    } else {
      DivisionTail(d, q, s);
      DivisionTail(d, q', s');
      var e := Xor(LeadTail(d[0], |q|), d[1..]);
      DivisionUnique(e, q[1..], s, q'[1..], s');
      assert q == [q[0]] + q[1..] && q' == [q'[0]] + q'[1..];
    }
  }

  /** A register content is the remainder of the dividend exactly when the shift register reaches it. */
  lemma RemainderIsRegister(r: Register, m: seq<bool>, s: Register)
    ensures (exists q :: IsDivision(Dividend(r, m), q, s)) <==> s == Feed(r, m)
  {
    var q := LongDivision(r, m);
    forall q' | IsDivision(Dividend(r, m), q', s) ensures s == Feed(r, m) {
      DivisionUnique(Dividend(r, m), q', s, q, Feed(r, m));
    }
  }
}
