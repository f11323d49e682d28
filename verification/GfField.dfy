/**
 The bytes of the coding library are a field: 2 generates all that are not zero, so each of them has an inverse.
 This fixes the polynomial; with 0x11b in place of 0x11d, for example, 2 generates 51 of them only.
 */
module GfField {
  import opened Sequences
  import opened Blocks
  import opened Gf256

  function Doubled(n: nat, b: Byte): Byte {
    if n == 0 then b else Double(Doubled(n - 1, b))
  }

  /** The n-th power of the polynomial x, which is the byte 2. */
  function Power(n: nat): Byte {
    Doubled(n, One)
  }

  /** The byte as a number. */
  function Value(b: Byte): (v: nat)
    ensures v < 256
  {
    (if b.b0 then 1 else 0) + (if b.b1 then 2 else 0) + (if b.b2 then 4 else 0) + (if b.b3 then 8 else 0)
    + (if b.b4 then 16 else 0) + (if b.b5 then 32 else 0) + (if b.b6 then 64 else 0) + (if b.b7 then 128 else 0)
  }

  lemma ValuesDiffer(a: Byte, b: Byte)
    ensures Value(a) == Value(b) ==> a == b
    ensures Value(a) == 0 <==> a == Zero
  {
  }

  lemma {:induction false} DoubledAdds(m: nat, n: nat, b: Byte)
    ensures Doubled(m + n, b) == Doubled(m, Doubled(n, b))
  {
    if m > 0 {
      DoubledAdds(m - 1, n, b);
    }
  }

  lemma UpToFour(b: Byte)
    ensures Doubled(0, b) == b && Doubled(1, b) == Double(b) && Doubled(2, b) == Double(Double(b))
    ensures Doubled(3, b) == Double(Double(Double(b))) && Doubled(4, b) == Double(Double(Double(Double(b))))
  {
    assert Doubled(1, b) == Double(Doubled(0, b));
    assert Doubled(2, b) == Double(Doubled(1, b));
    assert Doubled(3, b) == Double(Doubled(2, b));
  }

  lemma MulDoubles(a: Byte, b: Byte)
    ensures Mul(Double(a), b) == Double(Mul(a, b))
  {
    MulCommutes(Double(a), b);
    MulBitsDoubles(Bits(b), a);
    MulCommutes(a, b);
  }

  /** Multiplying by a power is doubling that often. */
  lemma {:induction false} MulPower(n: nat, b: Byte)
    ensures Mul(Power(n), b) == Doubled(n, b)
  {
    hide Mul, Double;
    if n == 0 {
      MulOne(b);
    } else {
      MulPower(n - 1, b);
      MulDoubles(Power(n - 1), b);
    }
  }

  lemma PowerAdds(m: nat, n: nat)
    ensures Power(m + n) == Mul(Power(m), Power(n))
  {
    DoubledAdds(m, n, One);
    MulPower(m, Power(n));
  }

  /** One more coefficient of a product. */
  lemma MulStep(bits: seq<bool>, i: nat, b: Byte)
    requires i < |bits|
    ensures MulBits(bits[i..], b) == Add(Pick(bits[i], b), Double(MulBits(bits[i + 1..], b)))
  {
    hide Double, Add, Pick;
    assert bits[i..][1..] == bits[i + 1..];
  }

  lemma MulSteps(bits: seq<bool>, i: nat, b: Byte)
    requires i + 4 <= |bits|
    ensures MulBits(bits[i..], b) ==
              var rest := MulBits(bits[i + 4..], b);
              var low := Add(Pick(bits[i + 2], b), Double(Add(Pick(bits[i + 3], b), Double(rest))));
              Add(Pick(bits[i], b), Double(Add(Pick(bits[i + 1], b), Double(low))))
  {
    hide Double, Add, Pick, MulBits;
    MulStep(bits, i, b);
    MulStep(bits, i + 1, b);
    MulStep(bits, i + 2, b);
    MulStep(bits, i + 3, b);
  }

  lemma AllSteps(bits: seq<bool>, b: Byte)
    requires |bits| == 8
    ensures MulBits(bits, b) ==
              var high := Add(Pick(bits[6], b), Double(Add(Pick(bits[7], b), Double(Zero))));
              var mid := Add(Pick(bits[4], b), Double(Add(Pick(bits[5], b), Double(high))));
              var low := Add(Pick(bits[2], b), Double(Add(Pick(bits[3], b), Double(mid))));
              Add(Pick(bits[0], b), Double(Add(Pick(bits[1], b), Double(low))))
  {
    assert bits[8..] == [] && bits[0..] == bits && MulBits([], b) == Zero;
    hide Double, Add, Pick, MulBits;
    MulSteps(bits, 0, b);
    MulSteps(bits, 4, b);
  }

  /** The product, coefficient by coefficient. */
  lemma MulExpands(a: Byte, b: Byte)
    ensures Mul(a, b) ==
              var high := Add(Pick(a.b6, b), Double(Add(Pick(a.b7, b), Double(Zero))));
              var mid := Add(Pick(a.b4, b), Double(Add(Pick(a.b5, b), Double(high))));
              var low := Add(Pick(a.b2, b), Double(Add(Pick(a.b3, b), Double(mid))));
              Add(Pick(a.b0, b), Double(Add(Pick(a.b1, b), Double(low))))
  {
    hide Double, Add, Pick, MulBits;
    AllSteps(Bits(a), b);
  }

  /** x^8 is x^4 + x^3 + x^2 + 1. */
  lemma Reduction()
    ensures Power(8) == Add(Power(4), Add(Power(3), Add(Power(2), Power(0))))
  {
    UpToFour(One);
    UpToFour(Power(4));
    DoubledAdds(4, 4, One);
  }

  lemma FirstPowers()
    ensures Power(1) == Byte(false, true, false, false, false, false, false, false)
    ensures Power(3) == Byte(false, false, false, true, false, false, false, false)
    ensures Power(5) == Byte(false, false, false, false, false, true, false, false)
    ensures Power(15) == Byte(false, true, true, false, false, true, false, false)
    ensures Power(17) == Byte(false, false, false, true, true, false, false, true)
  {
    UpToFour(One);
    UpToFour(Power(4));
    UpToFour(Power(8));
    UpToFour(Power(12));
    UpToFour(Power(15));
    DoubledAdds(1, 4, One);
    DoubledAdds(4, 4, One);
    DoubledAdds(4, 8, One);
    DoubledAdds(3, 12, One);
    DoubledAdds(2, 15, One);
  }

  lemma PowerIs(m: nat, n: nat, a: Byte, b: Byte)
    requires Power(m) == a && Power(n) == b
    ensures Power(m + n) == Mul(a, b)
  {
    PowerAdds(m, n);
  }

  /** The powers whose exponents divide 255: only the last is 1. */
  lemma DivisorPowers()
    ensures Power(51) == Byte(false, true, false, true, false, false, false, false)
    ensures Power(85) == Byte(false, true, true, false, true, false, true, true)
    ensures Power(255) == One
  {
    hide Mul, Power;
    FirstPowers();
    var p17 := Byte(false, false, false, true, true, false, false, true);
    MulExpands(p17, p17);
    PowerIs(17, 17, p17, p17);
    var p34 := Byte(false, true, true, true, false, false, true, false);
    assert Power(34) == p34;
    MulExpands(p34, p17);
    PowerIs(34, 17, p34, p17);
    var p51 := Byte(false, true, false, true, false, false, false, false);
    MulExpands(p51, p34);
    PowerIs(51, 34, p51, p34);
    var p85 := Byte(false, true, true, false, true, false, true, true);
    MulExpands(p85, p85);
    PowerIs(85, 85, p85, p85);
    var p170 := Byte(true, true, true, false, true, false, true, true);
    MulExpands(p170, p85);
    PowerIs(170, 85, p170, p85);
  }

  lemma {:induction false} PowerWraps(d: nat, q: nat, r: nat)
    requires Power(d) == One
    ensures Power(q * d + r) == Power(r)
  {
    hide Double;
    if q > 0 {
      PowerWraps(d, q - 1, r);
      assert q * d + r == ((q - 1) * d + r) + d;
      DoubledAdds((q - 1) * d + r, d, One);
    }
  }

  lemma SmallFactor(a: nat, b: nat)
    requires a <= 15 && a * b == 255
    ensures (a == 1 && b == 255) || (a == 3 && b == 85) || (a == 5 && b == 51) || (a == 15 && b == 17)
  {
  }

  lemma Factors(a: nat, b: nat)
    requires a * b == 255
    ensures a in {1, 3, 5, 15, 17, 51, 85, 255}
  {
    if a <= 15 {
      SmallFactor(a, b);
    } else if b <= 15 {
      SmallFactor(b, a);
    } else {
      Blocks.MulSteps(16, 15, b);
      Blocks.MulSteps(b, 15, a);
    }
  }

  /** No power before the 255th is 1. */
  lemma {:induction false} OrderIs255(d: nat)
    requires 0 < d < 255
    ensures Power(d) != One
  {
    hide Power, Double;
    FirstPowers();
    DivisorPowers();
    if Power(d) == One {
      var q, r := 255 / d, 255 % d;
      assert q * d + r == 255;
      PowerWraps(d, q, r);
      if r > 0 {
        OrderIs255(r);
      } else {
        Factors(d, q);
      }
    }
  }

  lemma DoubleIsInjective(a: Byte, b: Byte)
    ensures Double(a) == Double(b) ==> a == b
  {
  }

  lemma {:induction false} DoubledIsInjective(n: nat, a: Byte, b: Byte)
    ensures Doubled(n, a) == Doubled(n, b) ==> a == b
  {
    hide Double;
    if n > 0 {
      DoubledIsInjective(n - 1, a, b);
      DoubleIsInjective(Doubled(n - 1, a), Doubled(n - 1, b));
    }
  }

  lemma PowersDiffer(i: nat, j: nat)
    requires i < j < 255
    ensures Power(i) != Power(j)
  {
    hide Double;
    OrderIs255(j - i);
    DoubledAdds(i, j - i, One);
    DoubledIsInjective(i, One, Power(j - i));
  }

  lemma {:induction false} PowerIsNotZero(n: nat)
    ensures Power(n) != Zero
  {
    if n > 0 {
      PowerIsNotZero(n - 1);
    }
  }

  /** Every byte but zero is a power of 2. */
  lemma Generates(b: Byte) returns (n: nat)
    requires b != Zero
    ensures n < 255 && Power(n) == b
  {
    hide Power, Value;
    var values := seq(256, i requires 0 <= i < 256 => if i < 255 then Value(Power(i)) else Value(Zero));
    forall i, j | 0 <= i < j < 256
      ensures values[i] != values[j]
    {
      if j < 255 {
        PowersDiffer(i, j);
        ValuesDiffer(Power(i), Power(j));
      } else {
        PowerIsNotZero(i);
        ValuesDiffer(Power(i), Zero);
      }
    }
    ElementsCount(values);
    SetBelow(Elements(values), 256);
    assert Value(b) in Elements(values);
    n :| 0 <= n < 256 && values[n] == Value(b);
    ValuesDiffer(b, Zero);
    if n < 255 {
      ValuesDiffer(Power(n), b);
    }
  }

  /** So it has an inverse. */
  lemma Inverse(b: Byte) returns (c: Byte)
    requires b != Zero
    ensures Mul(b, c) == One
  {
    hide Mul, Power;
    var n := Generates(b);
    c := Power(255 - n);
    PowerAdds(n, 255 - n);
    DivisorPowers();
  }

  /** A product is zero only if a factor is. */
  lemma NoZeroDivisors(a: Byte, b: Byte)
    ensures Mul(a, b) == Zero <==> a == Zero || b == Zero
  {
    hide Mul;
    MulZero(a);
    MulZero(b);
    if Mul(a, b) == Zero && a != Zero {
      var c := Inverse(a);
      MulAssociates(a, c, b);
      MulZero(c);
      MulOne(b);
    }
  }
}
