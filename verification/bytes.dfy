/** Byte strings and their big-endian integer reading, as `math/big.Int.SetBytes` performs it. */
module Bytes {

  /** 256^n. */
  function Pow256(n: nat): (r: nat)
    ensures r > 0
  {
    if n == 0 then 1 else 256 * Pow256(n - 1)
  }

  type Bytes32 = s: seq<bv8> | |s| == 32 witness seq(32, _ => 0 as bv8)

  /** The output of a 512-bit hash such as `blake2b.Sum512`. */
  type Digest64 = s: seq<bv8> | |s| == 64 witness seq(64, _ => 0 as bv8)

  /** The unsigned integer whose big-endian encoding is `s` (`big.Int.SetBytes`). */
  function FromBigEndian(s: seq<bv8>): (r: nat)
    ensures r < Pow256(|s|)
  {
    if |s| == 0 then 0
    else FromBigEndian(s[..|s| - 1]) * 256 + s[|s| - 1] as int
  }

  /** The n-byte big-endian encoding of x. */
  function ToBigEndian(x: nat, n: nat): (r: seq<bv8>)
    requires x < Pow256(n)
    ensures |r| == n
    ensures FromBigEndian(r) == x
  {
    if n == 0 then []
    else
      QuotientBound(x, Pow256(n - 1));
      var rest := ToBigEndian(x / 256, n - 1);
      var low := ByteOf(x % 256);
      var r := rest + [low];
      assert r[..n - 1] == rest && r[n - 1] == low;
      assert FromBigEndian(r) == FromBigEndian(rest) * 256 + x % 256;
      r
  }

  lemma QuotientBound(x: nat, p: nat)
    requires x < 256 * p
    ensures x / 256 < p
  {
  }

  /** The byte whose value is v, built by counting up so that only bit-vector increments are involved. */
  function ByteOf(v: nat): (b: bv8)
    requires v < 256
    ensures b as int == v
  {
    if v == 0 then 0 else Succ(ByteOf(v - 1))
  }

  function Succ(b: bv8): (r: bv8)
    requires b as int < 255
    ensures r as int == b as int + 1
  {
    b + 1
  }

  lemma Pow256AtLeast(n: nat)
    requires n > 0
    ensures Pow256(n) >= 256
  {
  }

  /** An all-zero byte string reads as 0. */
  lemma {:induction false} FromBigEndianZeros(s: seq<bv8>)
    requires forall k :: 0 <= k < |s| ==> s[k] == 0
    ensures FromBigEndian(s) == 0
  {
    if |s| > 0 {
      FromBigEndianZeros(s[..|s| - 1]);
    }
  }

  /** s read back to front. */
  function Reverse(s: seq<bv8>): (r: seq<bv8>)
    ensures |r| == |s|
    ensures forall k :: 0 <= k < |s| ==> r[k] == s[|s| - 1 - k]
  {
    seq(|s|, k requires 0 <= k < |s| => s[|s| - 1 - k])
  }

  /** The leading byte of a big-endian number carries weight 256^(|s|-1). */
  lemma {:induction false} FromBigEndianHead(s: seq<bv8>)
    requires |s| > 0
    ensures FromBigEndian(s) == s[0] as int * Pow256(|s| - 1) + FromBigEndian(s[1..])
  {
    if |s| == 1 {
      assert s[..0] == [] && s[1..] == [];
    } else {
      var init := s[..|s| - 1];
      FromBigEndianHead(init);
      InitTail(s);
      ShiftByte(s[0] as int, Pow256(|s| - 2), FromBigEndian(init[1..]), s[|s| - 1] as int);
    }
  }

  /** Dropping the first and the last byte commute. */
  lemma InitTail(s: seq<bv8>)
    requires |s| > 1
    ensures s[..|s| - 1][0] == s[0]
    ensures s[..|s| - 1][1..] == s[1..][..|s| - 2]
    ensures FromBigEndian(s[1..]) == FromBigEndian(s[..|s| - 1][1..]) * 256 + s[|s| - 1] as int
  {
    var t := s[1..];
    assert t[..|t| - 1] == s[..|s| - 1][1..];
  }

  lemma ShiftByte(b: int, p: int, tail: int, last: int)
    ensures (b * p + tail) * 256 + last == b * (256 * p) + (tail * 256 + last)
  {
  }

  /** The leading byte is the quotient by 256^(|s|-1); the trailing byte is the remainder mod 256. */
  lemma FromBigEndianBytes(s: seq<bv8>)
    requires |s| > 0
    ensures FromBigEndian(s) / Pow256(|s| - 1) == s[0] as int
    ensures FromBigEndian(s) % 256 == s[|s| - 1] as int
  {
    FromBigEndianLeading(s);
    FromBigEndianTrailing(s);
  }

  lemma FromBigEndianLeading(s: seq<bv8>)
    requires |s| > 0
    ensures FromBigEndian(s) / Pow256(|s| - 1) == s[0] as int
  {
    FromBigEndianHead(s);
    DivOfAffine(s[0] as int, FromBigEndian(s[1..]), Pow256(|s| - 1));
  }

  lemma FromBigEndianTrailing(s: seq<bv8>)
    requires |s| > 0
    ensures FromBigEndian(s) % 256 == s[|s| - 1] as int
  {
    var init := FromBigEndian(s[..|s| - 1]);
    var last := s[|s| - 1] as int;
    assert FromBigEndian(s) == init * 256 + last;
    ModOfShifted(init, last);
  }

  lemma ModOfShifted(init: nat, last: nat)
    requires last < 256
    ensures (init * 256 + last) % 256 == last
  {
  }

  /** Euclidean division recovers the quotient of a * p + rest when 0 <= rest < p. */
  lemma DivOfAffine(a: nat, rest: nat, p: nat)
    requires 0 <= rest < p
    ensures (a * p + rest) / p == a
  {
    var x := a * p + rest;
    var q := x / p;
    var d := q - a;
    assert p * d == rest - x % p;
  }
}
