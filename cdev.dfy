/** The "cdev" character device (fifo-device/cdev.c): one kernel buffer of
    MESSAGE_SIZE = 10 * PAGE_SIZE bytes, allocated once at load time, that
    every open file writes into and reads out of at its own file position.

    The class models the driver's globals (msg_ptr, numberOpens) and its file
    operations. Two places where the C code has undefined behaviour are
    modelled twice: as written, by the pure functions ClipAsWritten and
    StoredAsWritten with lemmas that exhibit the fault, and corrected, by
    Clip and Stored, which the class uses. Read sends its bytes to the
    wrong place in user memory; that effect is defined, so the class keeps
    it (ReadAsWritten), and ReadFromPosition is the intended read. */
module Cdev {
  import opened Uaccess

  /** Number of values of size_t on a 64-bit kernel. */
  const SIZE_T_RANGE := 0x1_0000_0000_0000_0000

  /** Number of non-negative values of loff_t, the type of the file position. */
  const LOFF_T_RANGE := 0x8000_0000_0000_0000

  // ---------------------------------------------------------------------
  // Length clipping (the `len + *offset > MESSAGE_SIZE` guard)
  // ---------------------------------------------------------------------

  /** How many of `len` requested bytes a transfer at position `off` of a
      buffer of `size` bytes may touch: all of them if they fit, otherwise
      exactly up to the end of the buffer, and none at or past the end. */
  function Clip(len: nat, off: nat, size: nat): (n: nat)
    ensures n <= len
    ensures off + n <= size || n == 0
    ensures n == len || off + n >= size
  {
    if off >= size then 0 else if len + off > size then size - off else len
  }

  /** The guard as the C code computes it: the sum and the difference are
      unsigned 64-bit operations, so both wrap around modulo 2^64. */
  function ClipAsWritten(len: nat, off: nat, size: nat): (n: nat)
    requires len < SIZE_T_RANGE && off < LOFF_T_RANGE && size < SIZE_T_RANGE
    ensures n < SIZE_T_RANGE
  {
    if (len + off) % SIZE_T_RANGE > size then (size - off) % SIZE_T_RANGE else len
  }

  /** While the position lies inside the buffer and the sum does not wrap,
      the guard as written computes the intended clip. */
  lemma ClipAsWrittenAgrees(len: nat, off: nat, size: nat)
    requires off <= size < SIZE_T_RANGE && off < LOFF_T_RANGE
    requires len + off < SIZE_T_RANGE
    ensures ClipAsWritten(len, off, size) == Clip(len, off, size)
  {
  }

  /** A position past the end of the buffer makes `MESSAGE_SIZE - *offset`
      wrap around: the clipped length becomes larger than the whole buffer,
      where the intended clip is 0. */
  lemma ClipUnderflow(len: nat, off: nat, size: nat)
    requires size < off < LOFF_T_RANGE
    requires len + off < SIZE_T_RANGE
    ensures ClipAsWritten(len, off, size) == SIZE_T_RANGE - (off - size)
    ensures ClipAsWritten(len, off, size) > size
    ensures Clip(len, off, size) == 0
  {
  }

  // ---------------------------------------------------------------------
  // The kernel buffer after a write
  // ---------------------------------------------------------------------

  /** The kernel buffer after a write whose clipped length is n copied the
      first |data| of those bytes in at `off`: they land at off ..
      off + |data| - 1, the rest of the n bytes are zero-filled by
      copy_from_user, a NUL follows the copied bytes when that index is
      inside the buffer, and every other byte is kept. */
  function Stored(buf: seq<byte>, off: nat, data: seq<byte>, n: nat): (r: seq<byte>)
    requires |data| <= n && (n == 0 || off + n <= |buf|)
    ensures |r| == |buf|
    ensures forall i :: 0 <= i < |buf| ==>
      r[i] == if off <= i < off + |data| then data[i - off]
              else if off + |data| <= i < off + n || i == off + |data| then 0
              else buf[i]
  {
    var w := Overwrite(buf, off, data + Zeros(n - |data|));
    if off + |data| < |buf| then w[off + |data| := 0] else w
  }

  /** Outcome of the NUL store as written: either the updated buffer, or a
      store outside the allocation. */
  datatype Store = InBounds(buf: seq<byte>) | OutOfBounds

  /** The write's update as the C code makes it: the NUL is stored at the new
      position unconditionally, which is outside the buffer once the copied
      bytes reach its end, or when the write starts at or past the end. */
  function StoredAsWritten(buf: seq<byte>, off: nat, data: seq<byte>, n: nat): (r: Store)
    requires |data| <= n && (n == 0 || off + n <= |buf|)
    ensures r.OutOfBounds? <==> off + |data| >= |buf|
    ensures r.InBounds? ==> r.buf == Stored(buf, off, data, n)
  {
    var w := Overwrite(buf, off, data + Zeros(n - |data|));
    if off + |data| < |buf| then InBounds(w[off + |data| := 0]) else OutOfBounds
  }

  /** A write of at least MESSAGE_SIZE bytes at position 0 whose copy
      succeeds fills the buffer, and the NUL store that follows lands at
      index MESSAGE_SIZE, one past the allocation. */
  lemma FullWriteOverruns(buf: seq<byte>, user: seq<byte>, len: nat)
    requires 0 < |buf| <= len <= |user|
    ensures Transferred(Clip(len, 0, |buf|), |user|) == |buf|
    ensures StoredAsWritten(buf, 0, user[..|buf|], |buf|).OutOfBounds?
  {
  }

  /** Each successful write leaves the position right after its bytes, so two
      writes in a row lay their bytes side by side: the second overwrites the
      first's NUL terminator and nothing else of it. */
  lemma ConsecutiveWritesAppend(buf: seq<byte>, off: nat, d1: seq<byte>, d2: seq<byte>)
    requires off + |d1| + |d2| <= |buf|
    ensures Stored(Stored(buf, off, d1, |d1|), off + |d1|, d2, |d2|)[..off] == buf[..off]
    ensures Stored(Stored(buf, off, d1, |d1|), off + |d1|, d2, |d2|)[off..off + |d1| + |d2|] == d1 + d2
  {
  }

  // ---------------------------------------------------------------------
  // What a read hands to the user
  // ---------------------------------------------------------------------

  /** The user range after a read as cdev.c:104 makes it: the first bytes of
      the kernel buffer, from index 0, land at the caller's buffer plus the
      position, as far as the user range allows. */
  function ReadAsWritten(user: seq<byte>, pos: nat, kernel: seq<byte>, n: nat): (r: seq<byte>)
    requires n <= |kernel|
    ensures |r| == |user|
    ensures forall i :: 0 <= i < |user| ==>
      r[i] == if pos <= i < pos + Transferred(n, Room(|user|, pos)) then kernel[i - pos] else user[i]
  {
    Overwrite(user, pos, kernel[..Transferred(n, Room(|user|, pos))])
  }

  /** What a write at position 0 stores is what a read at position 0 hands
      back: as many written bytes as the read and the user range allow. */
  lemma WriteThenReadFromStart(buf: seq<byte>, data: seq<byte>, n: nat, user: seq<byte>, m: nat, k: nat)
    requires |data| <= n <= |buf| && m <= |buf|
    requires k <= |data| && k <= Transferred(m, |user|)
    ensures ReadAsWritten(user, 0, Stored(buf, 0, data, n), m)[..k] == data[..k]
  {
  }

  /** The user range after a read that takes its bytes from the position and
      hands them to the start of the caller's buffer. */
  function ReadFromPosition(user: seq<byte>, pos: nat, kernel: seq<byte>, n: nat): (r: seq<byte>)
    requires n == 0 || pos + n <= |kernel|
    ensures |r| == |user|
    ensures forall i :: 0 <= i < |user| ==>
      r[i] == if i < Transferred(n, |user|) then kernel[pos + i] else user[i]
  {
    var k := Transferred(n, |user|);
    if k == 0 then user else Overwrite(user, 0, kernel[pos..pos + k])
  }

  /** Two one-byte reads in a row, as written: the second read puts its byte
      at buffer + 1, outside the caller's one-byte buffer, and the byte is
      kernel[0] again, where reading from the position hands out kernel[1]
      at buffer[0]. */
  lemma SecondReadMisplaces(user: seq<byte>, kernel: seq<byte>)
    requires 2 <= |kernel| && 2 <= |user|
    ensures Clip(1, 1, |kernel|) == 1
    ensures ReadAsWritten(user, 1, kernel, 1)[0] == user[0]
    ensures ReadAsWritten(user, 1, kernel, 1)[1] == kernel[0]
    ensures ReadFromPosition(user, 1, kernel, 1)[0] == kernel[1]
  {
  }

  /** Reads that take their bytes from the position hand out the buffer in
      order: a read of n1 bytes and the read of n2 bytes that follows it
      deliver the n1 + n2 bytes that start at the first position. */
  lemma {:induction false} ConsecutiveReadsConcatenate(kernel: seq<byte>, u1: seq<byte>, u2: seq<byte>, pos: nat, n1: nat, n2: nat)
    requires pos + n1 + n2 <= |kernel| && n1 <= |u1| && n2 <= |u2|
    ensures ReadFromPosition(u1, pos, kernel, n1)[..n1] + ReadFromPosition(u2, pos + n1, kernel, n2)[..n2]
            == kernel[pos..pos + n1 + n2]
  {
    var r1 := ReadFromPosition(u1, pos, kernel, n1);
    var r2 := ReadFromPosition(u2, pos + n1, kernel, n2);
    forall i | 0 <= i < n1 + n2
      ensures (r1[..n1] + r2[..n2])[i] == kernel[pos + i]
    {
      if i >= n1 {
        assert r2[i - n1] == kernel[pos + n1 + (i - n1)];
      }
    }
  }

  // ---------------------------------------------------------------------
  // The driver
  // ---------------------------------------------------------------------

  /** The per-open file position (*offset), which the VFS starts at 0. */
  class File {
    var pos: nat

    constructor ()
      ensures pos == 0
    {
      pos := 0;
    }
  }

  /** The driver's global state: the kernel buffer msg_ptr and numberOpens. */
  class Device {
    const pageSize: nat
    const messageSize: nat
    const msg: array<byte>
    var numberOpens: int

    ghost predicate Valid()
      reads this
    {
      pageSize > 0 && messageSize == 10 * pageSize && msg.Length == messageSize
    }

    /** Load time: numberOpens starts at 0 and the buffer of MESSAGE_SIZE
        bytes is allocated once; its contents are unspecified. */
    constructor Init(pageSize: nat)
      requires pageSize > 0
      ensures Valid() && fresh(msg)
      ensures this.pageSize == pageSize && messageSize == 10 * pageSize
      ensures numberOpens == 0
    {
      this.pageSize := pageSize;
      messageSize := 10 * pageSize;
      msg := new byte[10 * pageSize];
      numberOpens := 0;
    }

    /** dev_open: one more user of the device. */
    method Open() returns (ret: int)
      modifies this`numberOpens
      ensures numberOpens == old(numberOpens) + 1
      ensures ret == 0
    {
      numberOpens := numberOpens + 1;
      ret := 0;
    }

    /** dev_release: one user fewer, so an open and its release cancel out. */
    method Release() returns (ret: int)
      modifies this`numberOpens
      ensures numberOpens == old(numberOpens) - 1
      ensures ret == 0
    {
      numberOpens := numberOpens - 1;
      ret := 0;
    }

    /** dev_write: clip the request to the room left after the position, copy
        the bytes the user range yields in at the position (zero-filling the
        rest of the clipped length on a short copy), advance the
        position by the count copied, NUL-terminate inside the buffer, and
        return the count copied (a short copy is not an error). */
    method Write(user: seq<byte>, len: nat, f: File) returns (ret: int)
      requires Valid()
      modifies msg, f
      ensures var n := Clip(len, old(f.pos), messageSize);
              var k := Transferred(n, |user|);
              ret == k
              && f.pos == old(f.pos) + k
              && msg[..] == Stored(old(msg[..]), old(f.pos), user[..k], n)
      ensures old(f.pos) >= messageSize ==> ret == 0 && f.pos == old(f.pos) && msg[..] == old(msg[..])
    {
      var n := Clip(len, f.pos, messageSize);
      var notCopied := CopyFromUser(msg, f.pos, user, n);
      var written := n - notCopied;
      f.pos := f.pos + written;
      if f.pos < messageSize {
        msg[f.pos] := 0;
      }
      ret := written;
    }

    /** dev_read: clip the request as write does, copy the first bytes of the
        kernel buffer (from index 0, whatever the position) to the user
        buffer at the position, advance the position by the count copied,
        and return that count, or -EFAULT after a short copy. The kernel
        buffer is left as it was. */
    method Read(user: array<byte>, len: nat, f: File) returns (ret: int)
      requires Valid() && user != msg
      modifies user, f
      ensures msg[..] == old(msg[..])
      ensures var n := Clip(len, old(f.pos), messageSize);
              var k := Transferred(n, Room(user.Length, old(f.pos)));
              user[..] == ReadAsWritten(old(user[..]), old(f.pos), msg[..], n)
              && f.pos == old(f.pos) + k
              && ret == (if k == n then k else -EFAULT)
      ensures old(f.pos) >= messageSize ==> ret == 0 && f.pos == old(f.pos) && user[..] == old(user[..])
    {
      var n := Clip(len, f.pos, messageSize);
      var notRead := CopyToUser(user, f.pos, msg[..], n);
      f.pos := f.pos + (n - notRead);
      if notRead == 0 {
        ret := n - notRead;
      } else {
        ret := -EFAULT;
      }
    }
  }
}
