/** Polynomials over GF(2), written as the sequence of their coefficients, highest degree first. */
module Gf2 {

  type Poly = seq<bool>

  function Zeros(n: nat): (p: Poly)
    ensures |p| == n
  {
    seq(n, i => false)
  }

  function Ones(n: nat): (p: Poly)
    ensures |p| == n
  {
    seq(n, i => true)
  }

  /** Addition, which over GF(2) is also subtraction. */
  function Xor(a: Poly, b: Poly): (p: Poly)
    requires |a| == |b|
    ensures |p| == |a|
  {
    seq(|a|, i requires 0 <= i < |a| => a[i] != b[i])
  }

  /** The product `q * g`, by the schoolbook method. */
  function Mul(q: Poly, g: Poly): (p: Poly)
    requires |g| >= 1
    ensures |p| == |q| + |g| - 1
  {
    if q == [] then
      Zeros(|g| - 1)
    else
      Xor(if q[0] then g + Zeros(|q| - 1) else Zeros(|g| + |q| - 1), [false] + Mul(q[1..], g))
  }

  /** `r` is what division of `p` by `g` leaves: some quotient `q` has `p == q * g + r`, with `r` of lower degree than `g`. */
  ghost predicate IsRemainder(p: Poly, g: Poly, r: Poly)
    requires |g| >= 1
  {
    exists q: Poly :: DividesInto(p, g, q, r)
  }

  predicate DividesInto(p: Poly, g: Poly, q: Poly, r: Poly)
    requires |g| >= 1
  {
    |r| == |g| - 1 && |p| == |q| + |r| && p == Xor(Mul(q, g), Zeros(|q|) + r)
  }

  /** Division by a polynomial with leading coefficient one has at most one result. */
  lemma {:induction false} DivisionIsUnique(p: Poly, g: Poly, q1: Poly, r1: Poly, q2: Poly, r2: Poly)
    requires |g| >= 1 && g[0]
    requires DividesInto(p, g, q1, r1) && DividesInto(p, g, q2, r2)
    ensures q1 == q2 && r1 == r2
    decreases |q1|
  {
    if q1 == [] {
      assert forall i :: 0 <= i < |r1| ==> p[i] == r1[i] && p[i] == r2[i];
    } else {
      assert p[0] == q1[0] == q2[0];
      var p' := if q1[0] then Xor(p, g + Zeros(|q1| - 1))[1..] else p[1..];
      QuotientTail(p, g, q1, r1);
      QuotientTail(p, g, q2, r2);
      DivisionIsUnique(p', g, q1[1..], r1, q2[1..], r2);
      assert q1 == [q1[0]] + q1[1..] && q2 == [q2[0]] + q2[1..];
    }
  }

  /** One step of long division: cancelling the leading term leaves a division with a shorter quotient. */
  lemma QuotientTail(p: Poly, g: Poly, q: Poly, r: Poly)
    requires |g| >= 1 && q != []
    requires |r| == |g| - 1 && |p| == |q| + |r|
    requires g[0] && p[0] == q[0]
    ensures DividesInto(p, g, q, r) <==>
            DividesInto(if q[0] then Xor(p, g + Zeros(|q| - 1))[1..] else p[1..], g, q[1..], r)
  {
    var lead := if q[0] then g + Zeros(|q| - 1) else Zeros(|p|);
    var m', z := Mul(q[1..], g), Zeros(|q| - 1) + r;
    assert Zeros(|q|) + r == [false] + z;
    assert p[1..] == Xor(p, Zeros(|p|))[1..];
    CancelLead(p, lead, m', z);
  }

  /** Of two sums that start with `lead`, the rest can be compared without it. */
  lemma CancelLead(p: Poly, lead: Poly, m: Poly, z: Poly)
    requires |p| == |lead| == |m| + 1 && |z| == |m| && p[0] == lead[0]
    ensures p == Xor(Xor(lead, [false] + m), [false] + z) <==> Xor(p, lead)[1..] == Xor(m, z)
  {
    var whole, tail := Xor(Xor(lead, [false] + m), [false] + z), Xor(p, lead)[1..];
    assert forall i :: 0 <= i < |m| ==> whole[i + 1] == (lead[i + 1] != (m[i] != z[i]));
    assert forall i :: 0 <= i < |m| ==> tail[i] == (p[i + 1] != lead[i + 1]);
    if tail == Xor(m, z) {
      forall i | 0 <= i < |p| ensures p[i] == whole[i] {
        assert i > 0 ==> tail[i - 1] == (m[i - 1] != z[i - 1]);
      }
    }
    if p == whole {
      assert forall i :: 0 <= i < |m| ==> tail[i] == (m[i] != z[i]);
    }
  }
}
