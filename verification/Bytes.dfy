/** Bytes, Unicode scalar values and the little helpers every other module shares. */
module Bytes {

  /** An octet. Rust's `u8`. */
  type byte = b: nat | b < 0x100

  datatype Option<+T> = None | Some(value: T)

  /** `slice::get`: the element at `i`, or None past the end. */
  function Get<T>(s: seq<T>, i: nat): Option<T> {
    if i < |s| then Some(s[i]) else None
  }

  /** `s` with the bytes of `v` copied in at position `at`. */
  function Patch<T>(s: seq<T>, at: nat, v: seq<T>): (r: seq<T>)
    requires at + |v| <= |s|
    ensures |r| == |s|
    ensures r[at..at + |v|] == v
    ensures forall i {:trigger r[i]} :: 0 <= i < |s| && (i < at || at + |v| <= i) ==> r[i] == s[i]
  {
    s[..at] + v + s[at + |v|..]
  }

  /** `n` zero bytes. */
  function Zeros(n: nat): (r: seq<byte>)
    ensures |r| == n
    ensures forall i :: 0 <= i < n ==> r[i] == 0
  {
    seq(n, _ => 0)
  }

  /** `n * p` by addition. */
  function Times(n: nat, p: nat): nat {
    if n == 0 then 0 else Times(n - 1, p) + p
  }

  lemma {:induction false} TimesIsProduct(n: nat, p: nat)
    ensures Times(n, p) == n * p
  {
    if n == 0 {
    } else {
      TimesIsProduct(n - 1, p);
      assert n * p == (n - 1) * p + p;
    }
  }
}
