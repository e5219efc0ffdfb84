/** Transfers across the user/kernel boundary, as the character-device drivers
    use them.

    copy_from_user and copy_to_user move a prefix of the requested range and
    return how many bytes they could NOT move. A user range is modelled by the
    part of it the kernel is allowed to touch: a copy of n bytes moves the
    first min(n, accessible) of them and reports the rest as not copied, so
    every outcome in [0, n] is reachable by choosing the accessible length. */
module Uaccess {

  /** One byte of kernel or user memory. */
  newtype byte = b: int | 0 <= b < 256

  /** The kernel's EFAULT; a driver reports a failed copy as its negation. */
  const EFAULT := 14

  /** m zero bytes. */
  function Zeros(m: nat): seq<byte>
  {
    seq(m, _ => 0)
  }

  /** How many bytes a copy of n bytes moves when only `accessible` bytes of
      the user range can be touched: the largest count that both allow. */
  function Transferred(n: nat, accessible: nat): (k: nat)
    ensures k <= n && k <= accessible
    ensures k == n || k == accessible
  {
    if n <= accessible then n else accessible
  }

  /** The bytes of a user range of `length` bytes that lie at or after `at`. */
  function Room(length: nat, at: nat): nat
  {
    if at <= length then length - at else 0
  }

  /** `s` with `t` laid over it from index `at` on; everything else kept. */
  function Overwrite<T>(s: seq<T>, at: nat, t: seq<T>): (r: seq<T>)
    requires t == [] || at + |t| <= |s|
    ensures |r| == |s|
    ensures forall i :: 0 <= i < |s| ==> r[i] == if at <= i < at + |t| then t[i - at] else s[i]
  {
    if t == [] then s else s[..at] + t + s[at + |t|..]
  }

  /** copy_from_user(dst + at, src, n): `src` is the readable part of the
      user range. The first bytes that can be read land at dst[at..]; the
      kernel fills the rest of the n destination bytes with zeros; the
      result is the number of bytes that were not copied. */
  method CopyFromUser(dst: array<byte>, at: nat, src: seq<byte>, n: nat) returns (notCopied: nat)
    requires n == 0 || at + n <= dst.Length
    modifies dst
    ensures notCopied == n - Transferred(n, |src|)
    ensures dst[..] == Overwrite(old(dst[..]), at, src[..n - notCopied] + Zeros(notCopied))
  {
    var k := Transferred(n, |src|);
    forall i | 0 <= i < n {
      dst[at + i] := if i < k then src[i] else 0;
    }
    notCopied := n - k;
  }

  /** copy_to_user(dst + at, src, n): `dst` is the writable part of the user
      range that starts at the caller's buffer. The first n bytes of `src`
      land at dst[at..] as far as the range allows; the result is the number
      of bytes that were not copied. */
  method CopyToUser<T>(dst: array<T>, at: nat, src: seq<T>, n: nat) returns (notCopied: nat)
    requires n <= |src|
    modifies dst
    ensures notCopied == n - Transferred(n, Room(dst.Length, at))
    ensures dst[..] == Overwrite(old(dst[..]), at, src[..n - notCopied])
  {
    var k := Transferred(n, Room(dst.Length, at));
    forall i | 0 <= i < k {
      dst[at + i] := src[i];
    }
    notCopied := n - k;
  }
}
