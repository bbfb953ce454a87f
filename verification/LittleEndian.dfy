/** Little-endian integers of any width, and two's complement. */
module LittleEndian {
  import opened Bytes

  function Pow256(k: nat): (r: nat)
    ensures r > 0
  {
    if k == 0 then 1 else 256 * Pow256(k - 1)
  }

  /** The low `k` bytes of `n`, least significant first. */
  function ToLe(n: nat, k: nat): (r: seq<byte>)
    ensures |r| == k
  {
    if k == 0 then [] else [n % 256] + ToLe(n / 256, k - 1)
  }

  function FromLe(b: seq<byte>): (n: nat)
    ensures n < Pow256(|b|)
  {
    if b == [] then 0 else b[0] + 256 * FromLe(b[1..])
  }

  lemma {:induction false} LeRoundTrip(n: nat, k: nat)
    requires n < Pow256(k)
    ensures FromLe(ToLe(n, k)) == n
  {
    if k == 0 {
    } else {
      assert ToLe(n, k)[1..] == ToLe(n / 256, k - 1);
      LeRoundTrip(n / 256, k - 1);
    }
  }

  lemma {:induction false} LeInverse(b: seq<byte>)
    ensures ToLe(FromLe(b), |b|) == b
  {
    if b == [] {
    } else {
      LeInverse(b[1..]);
      var n := FromLe(b);
      assert n % 256 == b[0] && n / 256 == FromLe(b[1..]);
    }
  }

  lemma Widths()
    ensures Pow256(1) == 0x100 && Pow256(3) == 0x100_0000
    ensures Pow256(4) == 0x1_0000_0000 && Pow256(8) == 0x1_0000_0000_0000_0000
  {
    assert Pow256(2) == 0x1_0000;
    assert Pow256(5) == 0x100_0000_0000;
    assert Pow256(6) == 0x1_0000_0000_0000;
    assert Pow256(7) == 0x100_0000_0000_0000;
  }

  const TWO31: int := 0x8000_0000
  const TWO32: int := 0x1_0000_0000
  const TWO63: int := 0x8000_0000_0000_0000
  const TWO64: int := 0x1_0000_0000_0000_0000

  type i32 = v: int | -TWO31 <= v < TWO31
  type u32 = v: nat | v < TWO32
  type i64 = v: int | -TWO63 <= v < TWO63
  type u64 = v: nat | v < TWO64

  /** `v as u32` / `v as u64`. */
  function Unsigned32(v: i32): u32 { if v < 0 then v + TWO32 else v }

  function Unsigned64(v: i64): u64 { if v < 0 then v + TWO64 else v }

  /** `v as i32` / `v as i64`. */
  function Signed32(v: u32): i32 { if v < TWO31 then v else v - TWO32 }

  function Signed64(v: u64): i64 { if v < TWO63 then v else v - TWO64 }

  function U24Width(): nat { 3 }

  /** `LittleEndian::write_u24`. */
  function U24(n: nat): (r: seq<byte>)
    ensures |r| == 3
  {
    ToLe(n, U24Width())
  }

  lemma U24RoundTrip(n: nat)
    requires n < 0x100_0000
    ensures FromLe(U24(n)) == n
  {
    Widths();
    LeRoundTrip(n, 3);
  }
}
