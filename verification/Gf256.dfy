/**
 The field GF(2^8) of the erasure coding library: a byte is a polynomial over GF(2), addition is
 exclusive or, and multiplication is reduced by x^8 + x^4 + x^3 + x^2 + 1 (0x11d).
 The laws proved here are the ones decoding and distributed repair rest on.
 */
module Gf256 {

  /** A byte by its bits, b0 the least significant. */
  datatype Byte = Byte(b0: bool, b1: bool, b2: bool, b3: bool, b4: bool, b5: bool, b6: bool, b7: bool)

  const Zero := Byte(false, false, false, false, false, false, false, false)
  const One := Byte(true, false, false, false, false, false, false, false)

  /** Addition, the exclusive or of two bytes. */
  function Add(x: Byte, y: Byte): Byte {
    Byte(x.b0 != y.b0, x.b1 != y.b1, x.b2 != y.b2, x.b3 != y.b3,
         x.b4 != y.b4, x.b5 != y.b5, x.b6 != y.b6, x.b7 != y.b7)
  }

  /** Multiplication by x: shift, and fold the bit that falls out back in as 0x1d. */
  function Double(b: Byte): Byte {
    Byte(b.b7, b.b0, b.b1 != b.b7, b.b2 != b.b7, b.b3 != b.b7, b.b4, b.b5, b.b6)
  }

  function Pick(bit: bool, b: Byte): Byte {
    if bit then b else Zero
  }

  /** The product of `b` and the polynomial with coefficients `bits`, lowest first. */
  function MulBits(bits: seq<bool>, b: Byte): Byte {
    if bits == [] then Zero else Add(Pick(bits[0], b), Double(MulBits(bits[1..], b)))
  }

  function Bits(a: Byte): seq<bool> {
    [a.b0, a.b1, a.b2, a.b3, a.b4, a.b5, a.b6, a.b7]
  }

  function Mul(a: Byte, b: Byte): Byte {
    MulBits(Bits(a), b)
  }

  lemma AddAssociates(x: Byte, y: Byte, z: Byte)
    ensures Add(x, Add(y, z)) == Add(Add(x, y), z)
  {
  }

  lemma AddCommutes(x: Byte, y: Byte)
    ensures Add(x, y) == Add(y, x)
  {
  }

  lemma AddExchanges(x: Byte, y: Byte, z: Byte, w: Byte)
    ensures Add(Add(x, y), Add(z, w)) == Add(Add(x, z), Add(y, w))
  {
  }

  lemma DoubleAdds(x: Byte, y: Byte)
    ensures Double(Add(x, y)) == Add(Double(x), Double(y))
  {
  }

  lemma PickAdds(bit: bool, x: Byte, y: Byte)
    ensures Pick(bit, Add(x, y)) == Add(Pick(bit, x), Pick(bit, y))
  {
  }

  lemma {:induction false} MulBitsAdds(bits: seq<bool>, x: Byte, y: Byte)
    ensures MulBits(bits, Add(x, y)) == Add(MulBits(bits, x), MulBits(bits, y))
  {
    if bits != [] {
      var p, q := MulBits(bits[1..], x), MulBits(bits[1..], y);
      calc {
        MulBits(bits, Add(x, y));
        { MulBitsAdds(bits[1..], x, y); }
        Add(Pick(bits[0], Add(x, y)), Double(Add(p, q)));
        { PickAdds(bits[0], x, y); DoubleAdds(p, q); }
        Add(Add(Pick(bits[0], x), Pick(bits[0], y)), Add(Double(p), Double(q)));
        { AddExchanges(Pick(bits[0], x), Pick(bits[0], y), Double(p), Double(q)); }
        Add(MulBits(bits, x), MulBits(bits, y));
      }
    }
  }

  lemma {:induction false} MulBitsDoubles(bits: seq<bool>, x: Byte)
    ensures MulBits(bits, Double(x)) == Double(MulBits(bits, x))
  {
    if bits != [] {
      MulBitsDoubles(bits[1..], x);
      DoubleAdds(Pick(bits[0], x), Double(MulBits(bits[1..], x)));
    }
  }

  lemma {:induction false} MulBitsExchanges(bits: seq<bool>, other: seq<bool>, x: Byte)
    ensures MulBits(other, MulBits(bits, x)) == MulBits(bits, MulBits(other, x))
  {
    if bits == [] {
      MulBitsZero(other);
    } else {
      var rest := MulBits(bits[1..], x);
      MulBitsAdds(other, Pick(bits[0], x), Double(rest));
      MulBitsDoubles(other, rest);
      MulBitsExchanges(bits[1..], other, x);
      MulBitsZero(other);
    }
  }

  lemma {:induction false} MulBitsZero(bits: seq<bool>)
    ensures MulBits(bits, Zero) == Zero
  {
    if bits != [] {
      MulBitsZero(bits[1..]);
    }
  }

  predicate Coefficient(bits: seq<bool>, i: nat) {
    i < |bits| && bits[i]
  }

  function FromBits(bits: seq<bool>): Byte {
    Byte(Coefficient(bits, 0), Coefficient(bits, 1), Coefficient(bits, 2), Coefficient(bits, 3),
         Coefficient(bits, 4), Coefficient(bits, 5), Coefficient(bits, 6), Coefficient(bits, 7))
  }

  lemma FromBitsStep(bits: seq<bool>)
    requires 0 < |bits| <= 8
    ensures FromBits(bits) == Add(Pick(bits[0], One), Double(FromBits(bits[1..])))
  {
  }

  lemma {:induction false} MulBitsOne(bits: seq<bool>)
    requires |bits| <= 8
    ensures MulBits(bits, One) == FromBits(bits)
  {
    if bits != [] {
      MulBitsOne(bits[1..]);
      FromBitsStep(bits);
    }
  }

  lemma FromBitsOfByte(a: Byte)
    ensures FromBits(Bits(a)) == a
  {
  }

  /** Multiplication distributes over addition. */
  lemma MulAdds(a: Byte, x: Byte, y: Byte)
    ensures Mul(a, Add(x, y)) == Add(Mul(a, x), Mul(a, y))
  {
    MulBitsAdds(Bits(a), x, y);
  }

  lemma MulZero(a: Byte)
    ensures Mul(a, Zero) == Zero == Mul(Zero, a)
  {
    MulBitsZero(Bits(a));
    MulCommutes(a, Zero);
  }

  lemma MulCommutes(a: Byte, b: Byte)
    ensures Mul(a, b) == Mul(b, a)
  {
    MulByOne(a);
    MulByOne(b);
    MulBitsExchanges(Bits(b), Bits(a), One);
  }

  lemma MulByOne(a: Byte)
    ensures Mul(a, One) == a
  {
    MulBitsOne(Bits(a));
    FromBitsOfByte(a);
  }

  /** The identity the coding library uses to add up partial results: a factor 1 changes nothing. */
  lemma MulOne(a: Byte)
    ensures Mul(One, a) == a == Mul(a, One)
  {
    MulCommutes(One, a);
    MulByOne(a);
  }

  /** Multiplying by the product of two factors is multiplying by one and then by the other. */
  lemma MulAssociates(v: Byte, e: Byte, x: Byte)
    ensures Mul(Mul(v, e), x) == Mul(e, Mul(v, x))
  {
    calc {
      Mul(Mul(v, e), x);
      { MulCommutes(Mul(v, e), x); }
      Mul(x, Mul(v, e));
      { MulBitsExchanges(Bits(v), Bits(x), e); }
      Mul(v, Mul(x, e));
      { MulCommutes(x, e); }
      Mul(v, Mul(e, x));
      { MulBitsExchanges(Bits(e), Bits(v), x); }
      Mul(e, Mul(v, x));
    }
  }
}
