/** Numbers as little-endian bytes, the way they lie in memory and in message frames. */
module Octets {
  import opened Wrappers

  type Octet = x: int | 0 <= x < 256 witness 0

  type Payload = seq<Octet>

  /** 256 to the power w. */
  function Power(w: nat): (p: nat)
    ensures p > 0 && (w > 0 ==> p % 2 == 0)
  {
    if w == 0 then 1 else 256 * Power(w - 1)
  }

  function Bytes(x: nat, w: nat): (p: Payload)
    ensures |p| == w
  {
    if w == 0 then [] else [x % 256] + Bytes(x / 256, w - 1)
  }

  function Number(p: Payload): nat {
    if p == [] then 0 else p[0] + 256 * Number(p[1..])
  }

  lemma {:induction false} NumberOfBytes(x: nat, w: nat)
    requires x < Power(w)
    ensures Number(Bytes(x, w)) == x
  {
    if w > 0 {
      NumberOfBytes(x / 256, w - 1);
      assert Bytes(x, w)[1..] == Bytes(x / 256, w - 1);
    }
  }

  /** The numbers a signed field of w bytes can hold. */
  predicate Fits(x: int, w: nat) {
    -(Power(w) / 2) <= x < Power(w) / 2
  }

  function PutInt(x: int, w: nat): (p: Payload)
    requires w > 0 && Fits(x, w)
    ensures |p| == w
  {
    Bytes(if x < 0 then x + Power(w) else x, w)
  }

  /** The number in the first w bytes of a frame; none when the frame is too short. */
  function GetInt(p: Payload, w: nat): Option<int>
    requires w > 0
  {
    if |p| < w then None
    else
      var v := Number(p[..w]);
      Some(if v >= Power(w) / 2 then v - Power(w) else v)
  }

  lemma IntRoundTrip(x: int, w: nat)
    requires w > 0 && Fits(x, w)
    ensures GetInt(PutInt(x, w), w) == Some(x)
  {
    hide Bytes, Number, Power;
    var v := if x < 0 then x + Power(w) else x;
    NumberOfBytes(v, w);
    assert Bytes(v, w)[..w] == Bytes(v, w);
  }

  function PutNat(x: nat, w: nat): (p: Payload)
    ensures |p| == w
  {
    Bytes(x, w)
  }

  function GetNat(p: Payload, w: nat): Option<nat> {
    if |p| < w then None else Some(Number(p[..w]))
  }

  lemma NatRoundTrip(x: nat, w: nat)
    requires x < Power(w)
    ensures GetNat(PutNat(x, w), w) == Some(x)
  {
    hide Bytes, Number, Power;
    NumberOfBytes(x, w);
    assert Bytes(x, w)[..w] == Bytes(x, w);
  }

  predicate AllFit(xs: seq<int>) {
    forall i :: 0 <= i < |xs| ==> Fits(xs[i], 4)
  }

  /** An array of 32-bit numbers. */
  function PutInts(xs: seq<int>): (p: Payload)
    requires AllFit(xs)
    ensures |p| == 4 * |xs|
  {
    if xs == [] then [] else PutInt(xs[0], 4) + PutInts(xs[1..])
  }

  function GetInts(p: Payload, n: nat): Option<seq<int>> {
    if n == 0 then Some([])
    else if |p| < 4 then None
    else
      match (GetInt(p, 4), GetInts(p[4..], n - 1))
      case (Some(x), Some(xs)) => Some([x] + xs)
      case _ => None
  }

  lemma GetIntPrefix(p: Payload, q: Payload, w: nat)
    requires w > 0 && |p| == w
    ensures GetInt(p + q, w) == GetInt(p, w)
  {
    assert (p + q)[..w] == p[..w];
  }

  lemma {:induction false} IntsRoundTrip(xs: seq<int>)
    requires AllFit(xs)
    ensures GetInts(PutInts(xs), |xs|) == Some(xs)
  {
    hide PutInt, GetInt, Fits;
    if xs != [] {
      var head, tail := PutInt(xs[0], 4), PutInts(xs[1..]);
      IntsRoundTrip(xs[1..]);
      IntRoundTrip(xs[0], 4);
      GetIntPrefix(head, tail, 4);
      assert (head + tail)[4..] == tail;
      assert [xs[0]] + xs[1..] == xs;
    }
  }
}
