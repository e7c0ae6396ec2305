/** The portable 64 by 64 to 128-bit product. */
module Mult128 {
  import opened Basics

  type u64 = x: nat | x < TWO_64

  datatype U128 = U128(high: u64, low: u64)

  function Low(x: u64): nat { x % TWO_32 }

  function High(x: u64): nat { x / TWO_32 }

  /** Product of two 32-bit values, which always fits in 64 bits. */
  function Mult32to64(a: nat, b: nat): (r: u64)
    requires a < TWO_32 && b < TWO_32
    ensures r == a * b <= (TWO_32 - 1) * (TWO_32 - 1)
  {
    ProductBound(a, b);
    a * b
  }

  lemma {:induction false} ProductBound(a: nat, b: nat)
    requires a < TWO_32 && b < TWO_32
    ensures a * b <= (TWO_32 - 1) * (TWO_32 - 1)
  {
    MulMonotone(a, b, TWO_32 - 1);
  }

  lemma {:induction false} MulMonotone(a: nat, b: nat, m: nat)
    requires a <= m && b <= m
    ensures a * b <= m * m
  {
    assert m * m - a * b == (m - a) * m + a * (m - b);
  }

  /** No sum overflows and the two halves are those of the exact product. */
  method Mult64to128(lhs: u64, rhs: u64) returns (r: U128)
    ensures r.high * TWO_64 + r.low == lhs * rhs
  {
    var loLo := Mult32to64(Low(lhs), Low(rhs));
    var hiLo := Mult32to64(High(lhs), Low(rhs));
    var loHi := Mult32to64(Low(lhs), High(rhs));
    var hiHi := Mult32to64(High(lhs), High(rhs));
    var cross: u64 := High(loLo) + Low(hiLo) + loHi;
    var upper: u64 := High(hiLo) + High(cross) + hiHi;
    var lower: u64 := Low(cross) * TWO_32 + Low(loLo);
    r := U128(upper, lower);
    Split(lhs, rhs);
    Recombine(loLo, hiLo, loHi, hiHi, cross);
  }

  lemma {:induction false} Split(lhs: u64, rhs: u64)
    ensures lhs * rhs == High(lhs) * High(rhs) * TWO_64 + (High(lhs) * Low(rhs) + Low(lhs) * High(rhs)) * TWO_32
                       + Low(lhs) * Low(rhs)
  {
    var a, b, c, d := High(lhs), Low(lhs), High(rhs), Low(rhs);
    assert lhs == a * TWO_32 + b && rhs == c * TWO_32 + d;
    Expand(a, b, c, d);
  }

  lemma {:induction false} Expand(a: nat, b: nat, c: nat, d: nat)
    ensures (a * TWO_32 + b) * (c * TWO_32 + d) == a * c * TWO_64 + (a * d + b * c) * TWO_32 + b * d
  {
    var x := c * TWO_32 + d;
    assert (a * TWO_32 + b) * x == a * TWO_32 * x + b * x;
    assert b * x == b * c * TWO_32 + b * d;
    assert a * x == a * c * TWO_32 + a * d;
    assert a * TWO_32 * x == (a * x) * TWO_32;
  }

  lemma {:induction false} Recombine(loLo: u64, hiLo: u64, loHi: u64, hiHi: u64, cross: u64)
    requires cross == High(loLo) + Low(hiLo) + loHi
    ensures (High(hiLo) + High(cross) + hiHi) * TWO_64 + Low(cross) * TWO_32 + Low(loLo)
         == hiHi * TWO_64 + (hiLo + loHi) * TWO_32 + loLo
  {
  }
}
