/**
  Fixed-width big-endian integers, as Rust's `to_be_bytes` lays them out.

  Unsigned values are written most significant byte first; signed values are
  written as their two's-complement bit pattern of the same width.
 */
module BigEndian {
  import opened Bytes

  function Pow256(w: nat): (r: nat)
    ensures r > 0
  {
    if w == 0 then 1 else 256 * Pow256(w - 1)
  }

  /** `n.to_be_bytes()` for an unsigned integer type of `w` bytes. */
  function ToBe(n: nat, w: nat): (r: Bytes)
    requires n < Pow256(w)
    ensures |r| == w
  {
    if w == 0 then [] else ToBe(n / 256, w - 1) + [(n % 256) as Byte]
  }

  /** `u*::from_be_bytes`: the value of a big-endian byte string. */
  function FromBe(b: Bytes): (n: nat)
    ensures n < Pow256(|b|)
  {
    if b == [] then 0 else FromBe(b[..|b| - 1]) * 256 + b[|b| - 1] as nat
  }

  lemma {:induction false} FromBeToBe(n: nat, w: nat)
    requires n < Pow256(w)
    ensures FromBe(ToBe(n, w)) == n
  {
    if w > 0 {
      var b := ToBe(n, w);
      assert b[..|b| - 1] == ToBe(n / 256, w - 1);
      FromBeToBe(n / 256, w - 1);
    }
  }

  lemma {:induction false} ToBeFromBe(b: Bytes)
    ensures ToBe(FromBe(b), |b|) == b
  {
    if b != [] {
      var init := b[..|b| - 1];
      ToBeFromBe(init);
      assert b == init + [b[|b| - 1]];
    }
  }

  /** For one width, the byte order of the encodings is the numeric order. */
  lemma {:induction false} ToBeOrder(a: nat, b: nat, w: nat)
    requires a < Pow256(w) && b < Pow256(w)
    ensures a < b <==> Less(ToBe(a, w), ToBe(b, w))
  {
    if w > 0 {
      var ha, hb := ToBe(a / 256, w - 1), ToBe(b / 256, w - 1);
      var la, lb := (a % 256) as Byte, (b % 256) as Byte;
      assert ToBe(a, w) == ha + [la] && ToBe(b, w) == hb + [lb];
      ToBeOrder(a / 256, b / 256, w - 1);
      ToBeInjective(a / 256, b / 256, w - 1);
      CompareEqualIff(ha, hb);
      CompareAntisymmetric(ha, hb);
      CompareEqualLengthAppend(ha, hb, la, lb);
      if a / 256 < b / 256 {
        assert a < b;
      } else if a / 256 > b / 256 {
        assert a > b;
      } else {
        assert a < b <==> la < lb;
      }
    }
  }

  lemma ToBeInjective(a: nat, b: nat, w: nat)
    requires a < Pow256(w) && b < Pow256(w)
    ensures ToBe(a, w) == ToBe(b, w) <==> a == b
  {
    FromBeToBe(a, w);
    FromBeToBe(b, w);
  }

  /** The value range of a signed integer type of `w` bytes. */
  predicate SignedInRange(v: int, w: nat) {
    w > 0 && -(Pow256(w) / 2) <= v < Pow256(w) / 2
  }

  /** `v.to_be_bytes()` for a signed integer type: the two's-complement pattern. */
  function ToBeSigned(v: int, w: nat): (r: Bytes)
    requires SignedInRange(v, w)
    ensures |r| == w
  {
    ToBe(if v < 0 then v + Pow256(w) else v, w)
  }

  /** `i*::from_be_bytes`: the top bit carries the sign. */
  function FromBeSigned(b: Bytes): (v: int)
    ensures b != [] ==> SignedInRange(v, |b|)
  {
    var u := FromBe(b);
    if b != [] then HalfPow256(|b|); (if u >= Pow256(|b|) / 2 then u - Pow256(|b|) else u)
    else u
  }

  /** A positive width's range splits into two equal halves. */
  lemma HalfPow256(w: nat)
    requires w > 0
    ensures Pow256(w) == 2 * (Pow256(w) / 2)
  {
    assert Pow256(w) == 2 * (128 * Pow256(w - 1));
  }

  lemma FromBeSignedToBeSigned(v: int, w: nat)
    requires SignedInRange(v, w)
    ensures FromBeSigned(ToBeSigned(v, w)) == v
  {
    FromBeToBe(if v < 0 then v + Pow256(w) else v, w);
  }

  /** The two's-complement layout does not keep the numeric order: -1 sorts after 0. */
  lemma SignedOrderNotPreserved(w: nat)
    requires w > 0
    ensures Less(ToBeSigned(0, w), ToBeSigned(-1, w))
  {
    assert Pow256(w) == 256 * Pow256(w - 1);
    ToBeOrder(0, Pow256(w) - 1, w);
  }
}
