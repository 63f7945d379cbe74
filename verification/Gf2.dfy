/**
 Polynomials over GF(2), as the sets of exponents whose coefficient is 1, and remainders of
 division by a generator.
 */
module Gf2 {

  type Poly = set<nat>

  function Add(p: Poly, q: Poly): (r: Poly)
    ensures forall e :: e in r <==> (e in p) != (e in q)
  {
    (p - q) + (q - p)
  }

  /** Multiplication by x^k. */
  function Shift(p: Poly, k: nat): (r: Poly)
    ensures forall e: nat :: e in r <==> e >= k && (e - k) in p
  {
    set e: nat | e in p :: e + k
  }

  /** Multiplication by the polynomial with the exponents `g`. */
  function Mul(q: Poly, g: seq<nat>): Poly {
    if g == [] then {} else Add(Shift(q, g[0]), Mul(q, g[1..]))
  }

  /** `g` lists the exponents of a polynomial of degree `w`, its leading one first. */
  ghost predicate Generator(g: seq<nat>, w: nat) {
    && g != [] && g[0] == w
    && forall i :: 0 < i < |g| ==> g[i] < w
  }

  ghost predicate Below(p: Poly, w: nat) {
    forall e :: e in p ==> e < w
  }

  /** `r` has degree below `w`, and m x^w = q g + r. */
  ghost predicate Divides(m: Poly, w: nat, g: seq<nat>, q: Poly, r: Poly) {
    Below(r, w) && Shift(m, w) == Add(Mul(q, g), r)
  }

  ghost predicate IsRemainder(m: Poly, w: nat, g: seq<nat>, r: Poly) {
    exists q :: Divides(m, w, g, q, r)
  }

  // ---------------------------------------------------------------- laws of multiplication

  lemma {:induction false} MulAdd(p: Poly, q: Poly, g: seq<nat>)
    ensures Mul(Add(p, q), g) == Add(Mul(p, g), Mul(q, g))
  {
    if g != [] {
      MulAdd(p, q, g[1..]);
      assert Shift(Add(p, q), g[0]) == Add(Shift(p, g[0]), Shift(q, g[0]));
    }
  }

  lemma {:induction false} MulShift(q: Poly, k: nat, g: seq<nat>)
    ensures Mul(Shift(q, k), g) == Shift(Mul(q, g), k)
  {
    if g != [] {
      MulShift(q, k, g[1..]);
      assert Shift(Shift(q, k), g[0]) == Shift(Shift(q, g[0]), k);
    }
  }

  lemma {:induction false} MulZero(g: seq<nat>)
    ensures Mul({}, g) == {}
  {
    if g != [] { MulZero(g[1..]); }
  }

  // ---------------------------------------------------------------- one more message bit

  function BitPoly(b: bool, e: nat): Poly { if b then {e} else {} }

  /** The remainder after one more bit: x r + b x^w, less the generator when that reaches x^w. */
  function NextRemainder(r: Poly, b: bool, w: nat, g: seq<nat>): Poly {
    var s := Add(Shift(r, 1), BitPoly(b, w));
    if w in s then Add(s, Mul({0}, g)) else s
  }

  lemma {:induction false} LeadingTerm(q: Poly, top: nat, w: nat, g: seq<nat>)
    requires top in q && (forall e :: e in q ==> e <= top) && forall i :: 0 <= i < |g| ==> g[i] < w
    ensures top + w !in Mul(q, g)
  {
    if g != [] { LeadingTerm(q, top, w, g[1..]); }
  }

  lemma ProductHasLeadingTerm(q: Poly, top: nat, w: nat, g: seq<nat>)
    requires Generator(g, w) && top in q && forall e :: e in q ==> e <= top
    ensures top + w in Mul(q, g)
  {
    LeadingTerm(q, top, w, g[1..]);
  }

  lemma {:induction false} ProductOfOneIsBounded(w: nat, g: seq<nat>)
    requires forall i :: 0 <= i < |g| ==> g[i] <= w
    ensures forall e :: e in Mul({0}, g) ==> e <= w
  {
    if g != [] { ProductOfOneIsBounded(w, g[1..]); }
  }

  lemma NextRemainderIsBelow(w: nat, g: seq<nat>, r: Poly, b: bool)
    requires Generator(g, w) && Below(r, w)
    ensures Below(NextRemainder(r, b, w, g), w)
  {
    ProductOfOneIsBounded(w, g);
    ProductHasLeadingTerm({0}, 0, w, g);
  }

  lemma ShiftedMessage(m: Poly, w: nat, b: bool)
    ensures Shift(Add(Shift(m, 1), BitPoly(b, 0)), w) == Add(Shift(Shift(m, w), 1), BitPoly(b, w))
  {
  }

  lemma ShiftedProduct(a: Poly, r: Poly, c: Poly)
    ensures Add(Shift(Add(a, r), 1), c) == Add(Shift(a, 1), Add(Shift(r, 1), c))
  {
  }

  lemma Cancel(a: Poly, s: Poly, t: Poly)
    ensures Add(Add(a, t), Add(s, t)) == Add(a, s)
  {
  }

  lemma NextQuotient(q: Poly, reduce: bool, g: seq<nat>)
    ensures Mul(Add(Shift(q, 1), BitPoly(reduce, 0)), g)
            == if reduce then Add(Shift(Mul(q, g), 1), Mul({0}, g)) else Shift(Mul(q, g), 1)
  {
    MulAdd(Shift(q, 1), BitPoly(reduce, 0), g);
    MulShift(q, 1, g);
    MulZero(g);
  }

  lemma NextRemainderIsRemainder(m: Poly, w: nat, g: seq<nat>, r: Poly, b: bool)
    requires Generator(g, w) && IsRemainder(m, w, g, r)
    ensures IsRemainder(Add(Shift(m, 1), BitPoly(b, 0)), w, g, NextRemainder(r, b, w, g))
  {
    hide Add, Shift, Mul;
    var q :| Divides(m, w, g, q, r);
    var s := Add(Shift(r, 1), BitPoly(b, w));
    var q' := Add(Shift(q, 1), BitPoly(w in s, 0));
    NextQuotient(q, w in s, g);
    NextRemainderIsBelow(w, g, r, b);
    ShiftedMessage(m, w, b);
    ShiftedProduct(Mul(q, g), r, BitPoly(b, w));
    Cancel(Shift(Mul(q, g), 1), s, Mul({0}, g));
    assert Divides(Add(Shift(m, 1), BitPoly(b, 0)), w, g, q', NextRemainder(r, b, w, g));
  }

  // ---------------------------------------------------------------- remainders are unique

  lemma GreatestExponent(q: Poly) returns (top: nat)
    requires q != {}
    ensures top in q && forall e :: e in q ==> e <= top
  {
    top :| top in q;
    var rest := q - {top};
    while rest != {}
      invariant rest <= q && top in q && forall e :: e in q && e !in rest ==> e <= top
      decreases rest
    {
      var e :| e in rest;
      if e > top { top := e; }
      rest := rest - {e};
    }
  }

  lemma RemainderIsUnique(m: Poly, w: nat, g: seq<nat>, r: Poly, s: Poly)
    requires Generator(g, w) && IsRemainder(m, w, g, r) && IsRemainder(m, w, g, s)
    ensures r == s
  {
    var q :| Divides(m, w, g, q, r);
    var p :| Divides(m, w, g, p, s);
    var d := Add(q, p);
    MulAdd(q, p, g);
    assert forall e :: e in Mul(d, g) <==> e in Add(r, s);
    if d == {} {
      MulZero(g);
      assert forall e :: e in r <==> e in s;
    } else {
      var top := GreatestExponent(d);
      ProductHasLeadingTerm(d, top, w, g);
      assert false;
    }
  }

  // ---------------------------------------------------------------- messages

  /** The polynomial of a bit string, its first bit the coefficient of the highest power. */
  function MessagePoly(bits: seq<bool>): (p: Poly)
    ensures forall e: nat :: e in p <==> Coefficient(bits, e)
  {
    set e: nat | e < |bits| && Coefficient(bits, e)
  }

  predicate Coefficient(bits: seq<bool>, e: nat) {
    e < |bits| && bits[|bits| - 1 - e]
  }

  lemma MessageGrows(bits: seq<bool>, b: bool)
    ensures MessagePoly(bits + [b]) == Add(Shift(MessagePoly(bits), 1), BitPoly(b, 0))
  {
    var p, q := MessagePoly(bits + [b]), Add(Shift(MessagePoly(bits), 1), BitPoly(b, 0));
    forall e: nat ensures e in p <==> e in q {
      if 0 < e <= |bits| { assert (bits + [b])[|bits| - e] == bits[|bits| - e]; }
    }
  }
}
