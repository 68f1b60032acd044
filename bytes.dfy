/** Fixed-width integers and the little-endian byte codec used to turn a
    roll's nonce into address seeds and into the VRF caller seed. */
module Bytes {

  /** Rust's `u8`. */
  newtype u8 = x: int | 0 <= x < 0x100

  /** Rust's `u64`. */
  newtype u64 = x: int | 0 <= x < 0x1_0000_0000_0000_0000

  /** 256 to the power k: the number of values k bytes can hold. */
  function Pow256(k: nat): (p: nat)
    ensures p >= 1
  {
    if k == 0 then 1 else 256 * Pow256(k - 1)
  }

  /** The k-byte little-endian encoding of n (n modulo 256^k, as
      `to_le_bytes` writes it when n fits). */
  function LeBytes(n: nat, k: nat): (bs: seq<u8>)
    ensures |bs| == k
  {
    if k == 0 then [] else [(n % 256) as u8] + LeBytes(n / 256, k - 1)
  }

  /** The value of a little-endian byte string (`from_le_bytes`). */
  function LeValue(bs: seq<u8>): (v: nat)
    ensures v < Pow256(|bs|)
  {
    if bs == [] then 0 else bs[0] as nat + 256 * LeValue(bs[1..])
  }

  /** Decoding an encoding gives back the number, whenever it fits. */
  lemma {:induction false} LeValueOfLeBytes(n: nat, k: nat)
    requires n < Pow256(k)
    ensures LeValue(LeBytes(n, k)) == n
  {
    if k > 0 {
      var bs := LeBytes(n, k);
      assert bs[1..] == LeBytes(n / 256, k - 1);
      LeValueOfLeBytes(n / 256, k - 1);
    }
  }

  /** Encoding a decoded byte string gives back the bytes. */
  lemma {:induction false} LeBytesOfLeValue(bs: seq<u8>)
    ensures LeBytes(LeValue(bs), |bs|) == bs
  {
    if bs != [] {
      var v := LeValue(bs);
      assert v % 256 == bs[0] as nat && v / 256 == LeValue(bs[1..]);
      LeBytesOfLeValue(bs[1..]);
    }
  }

  /** Two numbers that fit in k bytes have the same encoding only if they
      are equal. */
  lemma LeBytesInjective(m: nat, n: nat, k: nat)
    requires m < Pow256(k) && n < Pow256(k)
    requires LeBytes(m, k) == LeBytes(n, k)
    ensures m == n
  {
    LeValueOfLeBytes(m, k);
    LeValueOfLeBytes(n, k);
  }

  lemma Pow256Of8()
    ensures Pow256(8) == 0x1_0000_0000_0000_0000
  {
  }

  /** `u64::to_le_bytes`. */
  function ToLeBytes(n: u64): (bs: seq<u8>)
    ensures |bs| == 8
    ensures LeValue(bs) == n as nat
  {
    Pow256Of8();
    LeValueOfLeBytes(n as nat, 8);
    LeBytes(n as nat, 8)
  }

  /** `u64::to_le_bytes` is one-to-one. */
  lemma ToLeBytesInjective(m: u64, n: u64)
    ensures ToLeBytes(m) == ToLeBytes(n) <==> m == n
  {
    if ToLeBytes(m) == ToLeBytes(n) {
      assert LeValue(ToLeBytes(m)) == LeValue(ToLeBytes(n));
    }
  }

  /** The 32-byte caller seed of a roll: the nonce in little-endian order
      in bytes 0..8, zero padding in bytes 8..32. */
  function CallerSeed(nonce: u64): (seed: seq<u8>)
    ensures |seed| == 32
    ensures LeValue(seed[..8]) == nonce as nat
    ensures forall i :: 8 <= i < 32 ==> seed[i] == 0
  {
    var le := ToLeBytes(nonce);
    var seed := le + seq(24, _ => 0 as u8);
    assert seed[..8] == le;
    seed
  }

  /** Builds the caller seed as `roll_rarity` does: a zeroed 32-byte
      buffer whose first 8 bytes are overwritten with the nonce's
      little-endian bytes (`copy_from_slice`). */
  method FillCallerSeed(nonce: u64) returns (seed: array<u8>)
    ensures fresh(seed)
    ensures seed[..] == CallerSeed(nonce)
  {
    seed := new u8[32](_ => 0);
    var le := ToLeBytes(nonce);
    var i := 0;
    while i < 8
      invariant 0 <= i <= 8
      invariant seed[..i] == le[..i]
      invariant forall j :: i <= j < 32 ==> seed[j] == 0
    {
      seed[i] := le[i];
      i := i + 1;
    }
    assert seed[..] == seed[..8] + seed[8..];
    assert seed[8..] == seq(24, _ => 0 as u8);
  }

  /** The nonce is recovered from any caller seed, so seeds of distinct
      nonces differ. */
  lemma CallerSeedRoundTrip(nonce: u64)
    ensures CallerSeed(nonce)[..8] == ToLeBytes(nonce)
    ensures LeValue(CallerSeed(nonce)[..8]) as u64 == nonce
  {
    var s := CallerSeed(nonce);
    LeBytesOfLeValue(s[..8]);
    LeBytesOfLeValue(ToLeBytes(nonce));
  }
}
