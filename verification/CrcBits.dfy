// Polynomials over GF(2) as sequences of coefficients, highest degree first, and division by the
// CRC-32 generator (section 3.4 of RFC 2083).
module CrcBits {

  type Poly = seq<bool>

  function Zeros(n: nat): (r: Poly)
    ensures |r| == n && forall i | 0 <= i < n :: !r[i]
  {
    seq(n, _ => false)
  }

  function Ones(n: nat): (r: Poly)
    ensures |r| == n && forall i | 0 <= i < n :: r[i]
  {
    seq(n, _ => true)
  }

  // Addition, which is also subtraction.
  function Add(p: Poly, q: Poly): (r: Poly)
    requires |p| == |q|
    ensures |r| == |p| && forall i | 0 <= i < |p| :: r[i] == (p[i] != q[i])
  {
    seq(|p|, i requires 0 <= i < |p| => p[i] != q[i])
  }

  function Not(p: Poly): (r: Poly)
    ensures |r| == |p| && forall i | 0 <= i < |p| :: r[i] == !p[i]
  {
    seq(|p|, i requires 0 <= i < |p| => !p[i])
  }

  // x^32 + x^26 + x^23 + x^22 + x^16 + x^12 + x^11 + x^10 + x^8 + x^7 + x^5 + x^4 + x^2 + x + 1
  const LOW: Poly :=
    [false, false, false, false] +       // x^31 .. x^28
    ([false, true, false, false] +       // x^27 .. x^24
     ([true, true, false, false] +       // x^23 .. x^20
      ([false, false, false, true] +     // x^19 .. x^16
       ([false, false, false, true] +    // x^15 .. x^12
        ([true, true, false, true] +     // x^11 .. x^8
         ([true, false, true, true] +    // x^7 .. x^4
          [false, true, true, true]))))))

  const GENERATOR: Poly := [true] + LOW

  function Scale(b: bool, p: Poly): (r: Poly)
    ensures |r| == |p|
  {
    if b then p else Zeros(|p|)
  }

  // Product with the generator.
  function Times(q: Poly): (r: Poly)
    ensures |r| == |q| + 32
  {
    if q == [] then Zeros(32)
    else Add(Scale(q[0], GENERATOR) + Zeros(|q| - 1), [false] + Times(q[1..]))
  }

  // p = q * GENERATOR + r with r of degree below 32.
  ghost predicate Divides(p: Poly, q: Poly, r: Poly) {
    |r| == 32 && |p| == |q| + 32 && p == Add(Times(q), Zeros(|q|) + r)
  }

  // Long division, one leading coefficient at a time.
  function Remainder(p: Poly): (r: Poly)
    requires |p| >= 32
    ensures |r| == 32
    decreases |p|
  {
    if |p| == 32 then p
    else Remainder(Reduce(p))
  }

  // Cancel the leading coefficient and drop it.
  function Reduce(p: Poly): (r: Poly)
    requires |p| > 32
    ensures |r| == |p| - 1
  {
    Add(p[1..], Scale(p[0], LOW) + Zeros(|p| - 33))
  }

  // ---------------------------------------------------------------- division is division

  lemma AddZero(p: Poly)
    ensures Add(p, Zeros(|p|)) == p && Add(Zeros(|p|), p) == p
  {
  }

  // The long division finds a quotient.
  lemma {:induction false} RemainderDivides(p: Poly) returns (q: Poly)
    requires |p| >= 32
    ensures Divides(p, q, Remainder(p))
    decreases |p|
  {
    if |p| == 32 {
      q := [];
      AddZero(p);
      assert Zeros(0) + p == p;
    } else {
      var rest := RemainderDivides(Reduce(p));
      q := [p[0]] + rest;
      QuotientStep(p, rest, Remainder(p));
    }
  }

  lemma TimesCons(b: bool, rest: Poly)
    ensures Times([b] + rest) == [b] + Add(Scale(b, LOW) + Zeros(|rest|), Times(rest))
  {
    assert ([b] + rest)[1..] == rest;
    ScaleMonic(b, LOW, Zeros(|rest|));
    AddCons(b, Scale(b, LOW) + Zeros(|rest|), Times(rest));
  }

  lemma ScaleMonic(b: bool, low: Poly, pad: Poly)
    ensures Scale(b, [true] + low) + pad == [b] + (Scale(b, low) + pad)
  {
    assert Zeros(1 + |low|) == [false] + Zeros(|low|);
  }

  lemma AddCons(b: bool, p: Poly, q: Poly)
    requires |p| == |q|
    ensures Add([b] + p, [false] + q) == [b] + Add(p, q)
  {
  }

  lemma AddMove(p: Poly, s: Poly, t: Poly, z: Poly)
    requires |p| == |s| == |t| == |z|
    ensures p == Add(Add(s, t), z) <==> Add(p, s) == Add(t, z)
  {
    assert forall i | 0 <= i < |p| :: p[i] == Add(Add(s, t), z)[i] <==> Add(p, s)[i] == Add(t, z)[i];
  }

  lemma QuotientStep(p: Poly, rest: Poly, r: Poly)
    requires |p| > 32 && |r| == 32
    ensures Divides(p, [p[0]] + rest, r) <==> Divides(Reduce(p), rest, r)
  {
    if |p| == |rest| + 33 {
      var s, t, z := Scale(p[0], LOW) + Zeros(|rest|), Times(rest), Zeros(|rest|) + r;
      TimesCons(p[0], rest);
      AddMove(p[1..], s, t, z);
      assert Zeros(|rest| + 1) + r == [false] + z;
      assert Add([p[0]] + Add(s, t), [false] + z) == [p[0]] + Add(Add(s, t), z);
      assert p == [p[0]] + p[1..];
    }
  }

  // and no other remainder is possible, whatever the quotient.
  lemma {:induction false} RemainderUnique(p: Poly, q: Poly, r: Poly)
    requires Divides(p, q, r)
    ensures r == Remainder(p)
    decreases |p|
  {
    if q == [] {
      AddZero(p);
      assert Zeros(0) + r == r;
    } else {
      assert q == [q[0]] + q[1..];
      assert p[0] == q[0];
      QuotientStep(p, q[1..], r);
      RemainderUnique(Reduce(p), q[1..], r);
    }
  }

  // ---------------------------------------------------------------- the shift register

  // One message bit into a 32-bit register that holds x^31 first.
  function Shift(r: Poly, bit: bool): (s: Poly)
    requires |r| == 32
    ensures |s| == 32
  {
    Add(r[1..] + [false], Scale(r[0] != bit, LOW))
  }

  function Feed(r: Poly, bits: Poly): (s: Poly)
    requires |r| == 32
    ensures |s| == 32
    decreases |bits|
  {
    if bits == [] then r else Feed(Shift(r, bits[0]), bits[1..])
  }

  lemma {:induction false} FeedConcat(r: Poly, a: Poly, b: Poly)
    requires |r| == 32
    ensures Feed(r, a + b) == Feed(Feed(r, a), b)
    decreases |a|
  {
    if a == [] {
      assert a + b == b;
    } else {
      assert (a + b)[1..] == a[1..] + b;
      FeedConcat(Shift(r, a[0]), a[1..], b);
    }
  }

  // The register is the remainder of start * x^n + message * x^32, n being the message's length.
  lemma {:induction false} FeedIsRemainder(r: Poly, bits: Poly)
    requires |r| == 32
    ensures Feed(r, bits) == Remainder(Add(r + Zeros(|bits|), bits + Zeros(32)))
    decreases |bits|
  {
    var p := Add(r + Zeros(|bits|), bits + Zeros(32));
    if bits == [] {
      assert p == r;
    } else {
      FeedIsRemainder(Shift(r, bits[0]), bits[1..]);
      assert Reduce(p) == Add(Shift(r, bits[0]) + Zeros(|bits| - 1), bits[1..] + Zeros(32));
    }
  }

  // Up to 32 message bits may be added to the register first and zeros fed after.
  lemma {:induction false} FeedAhead(r: Poly, bits: Poly)
    requires |r| == 32 && |bits| <= 32
    ensures Feed(r, bits) == Feed(Add(r, bits + Zeros(32 - |bits|)), Zeros(|bits|))
    decreases |bits|
  {
    var ahead := Add(r, bits + Zeros(32 - |bits|));
    if bits == [] {
      assert ahead == r;
    } else {
      FeedAhead(Shift(r, bits[0]), bits[1..]);
      assert Shift(ahead, false) == Add(Shift(r, bits[0]), bits[1..] + Zeros(33 - |bits|));
      assert Zeros(|bits|)[1..] == Zeros(|bits| - 1);
    }
  }

  lemma ShiftAdds(r: Poly, s: Poly)
    requires |r| == 32 && |s| == 32
    ensures Shift(Add(r, s), false) == Add(Shift(r, false), Shift(s, false))
  {
  }

  // Without input the register is linear,
  lemma {:induction false} FeedAdds(r: Poly, s: Poly, n: nat)
    requires |r| == 32 && |s| == 32
    ensures Feed(Add(r, s), Zeros(n)) == Add(Feed(r, Zeros(n)), Feed(s, Zeros(n)))
    decreases n
  {
    if n > 0 {
      ShiftAdds(r, s);
      FeedAdds(Shift(r, false), Shift(s, false), n - 1);
      assert Zeros(n)[1..] == Zeros(n - 1);
    }
  }

  // and leading zeros are only shifted out.
  lemma {:induction false} FeedLeadingZeros(n: nat, rest: Poly)
    requires n + |rest| == 32
    ensures Feed(Zeros(n) + rest, Zeros(n)) == rest + Zeros(n)
    decreases n
  {
    if n == 0 {
      assert Zeros(0) + rest == rest + Zeros(0);
    } else {
      assert Shift(Zeros(n) + rest, false) == Zeros(n - 1) + (rest + [false]);
      FeedLeadingZeros(n - 1, rest + [false]);
      assert Zeros(n)[1..] == Zeros(n - 1);
      assert (rest + [false]) + Zeros(n - 1) == rest + Zeros(n);
    }
  }

  lemma ShiftInjective(r: Poly, s: Poly, bit: bool)
    requires |r| == 32 && |s| == 32 && Shift(r, bit) == Shift(s, bit)
    ensures r == s
  {
    assert Shift(r, bit)[31] == (r[0] != bit) && Shift(s, bit)[31] == (s[0] != bit);
    forall i | 0 < i < 32 ensures r[i] == s[i] {
      assert Shift(r, bit)[i - 1] == (r[i] != Scale(r[0] != bit, LOW)[i - 1]);
      assert Shift(s, bit)[i - 1] == (s[i] != Scale(s[0] != bit, LOW)[i - 1]);
    }
  }

  lemma {:induction false} FeedInjective(r: Poly, s: Poly, bits: Poly)
    requires |r| == 32 && |s| == 32 && Feed(r, bits) == Feed(s, bits)
    ensures r == s
    decreases |bits|
  {
    if bits != [] {
      FeedInjective(Shift(r, bits[0]), Shift(s, bits[0]), bits[1..]);
      ShiftInjective(r, s, bits[0]);
    }
  }

  // A burst of at most 32 bits always changes the register.
  lemma FeedDetectsBurst(r: Poly, before: Poly, u: Poly, w: Poly, after: Poly)
    requires |r| == 32 && |u| == |w| <= 32 && u != w
    ensures Feed(r, before + u + after) != Feed(r, before + w + after)
  {
    var s := Feed(r, before);
    FeedConcat(r, before, u);
    FeedConcat(r, before, w);
    FeedConcat(r, before + u, after);
    FeedConcat(r, before + w, after);
    FeedAhead(s, u);
    FeedAhead(s, w);
    var pad := Zeros(32 - |u|);
    if Feed(r, before + u + after) == Feed(r, before + w + after) {
      FeedInjective(Feed(s, u), Feed(s, w), after);
      FeedInjective(Add(s, u + pad), Add(s, w + pad), Zeros(|u|));
      SumCancels(s, u, w, pad);
    }
  }

  lemma SumCancels(s: Poly, u: Poly, w: Poly, pad: Poly)
    requires |u| == |w| && |s| == |u| + |pad| && Add(s, u + pad) == Add(s, w + pad)
    ensures u == w
  {
    forall i | 0 <= i < |u| ensures u[i] == w[i] {
      assert Add(s, u + pad)[i] == (s[i] != u[i]) && Add(s, w + pad)[i] == (s[i] != w[i]);
    }
  }
}
