# Character-device drivers: the `cdev` buffer and the `chardev` message slot

This project models, in Dafny, the two stateful Linux character-device
drivers of the repository's `fifo-device/` directory, and proves what their
file operations do.

- **`cdev`** (`fifo-device/cdev.c`, module `Cdev`). At load time the driver
  allocates one kernel buffer of `MESSAGE_SIZE = 10 * PAGE_SIZE` bytes.
  Every open file shares it.
  - A write clips the request to the room left after the file position.
    It copies the user's bytes in at the position, advances the position by
    the count copied and stores a NUL after them. It returns the count
    copied, and a short copy is not an error.
  - A read applies the same clip. It copies the first bytes of the kernel
    buffer, from index 0 and not from the position, to the user's buffer at
    the position. It advances the position by the count copied. It returns
    that count, or `-EFAULT` after a short copy, even though the position
    has already moved.
  - `numberOpens` goes up on open and down on release.
  - `PAGE_SIZE` is a positive parameter of the constructor.
- **`chardev`** (`fifo-device/chardev.c`, module `Chardev`). The driver holds
  a 256-character `message`, its stored length `size_of_message`, and an
  open counter.
  - A write formats `"%s(%zu chars)"` into `message` with `snprintf`: at
    most 255 characters and a NUL (C99 section 7.19.6.5). It records the
    stored length with `strlen` and returns `len`, even when the text was
    cut.
  - A read copies `size_of_message` characters, whatever `len` asks for.
    When the copy is complete it sets the length to 0 and returns 0. When
    it is short it returns `-EFAULT` and keeps the length. A read never
    changes `message`.
  - Open counts up. Release changes nothing.

The user/kernel copy primitives `copy_from_user` and `copy_to_user` are in
module `Uaccess`. A user range is represented by the part of it the kernel
may touch: an array for a destination, a sequence for a source. A copy of
`n` bytes moves the first `min(n, accessible)` of them and returns the number
not moved. Every result in `[0, n]` is reachable that way.

`fifo-device/fifodev.c` keeps reader/writer counters only as commented-out
lines. Neither driver modelled here has a ring buffer or clears its buffer
on the last close.

A C `char` is one byte. In module `Chardev` each Dafny `char` stands for one
such byte, so the 255-character limit and `strlen` count bytes.

Three places in `cdev.c` are defective (see "## Findings").
- Two have undefined behaviour in the kernel. The class `Cdev.Device` uses
  the corrected definitions `Cdev.Clip` and `Cdev.Stored`. The code as
  written is modelled by `Cdev.ClipAsWritten` and `Cdev.StoredAsWritten`,
  with lemmas that exhibit the fault and lemmas that show where as-written
  and corrected agree.
- The third is read's destination. Its effect is defined: the bytes land in
  user memory. So `Cdev.Device.Read` keeps the behaviour as written
  (`Cdev.ReadAsWritten`). The intended read is `Cdev.ReadFromPosition`, and
  `Cdev.ConsecutiveReadsConcatenate` proves that it hands the buffer out in
  order.

A `Cdev.File` stands for the file position `*offset` of one open file. The
kernel sets it to 0 when the file is opened.

## Model

| member | source | states |
|---|---|---|
| `Uaccess.Transferred` | fifo-device/cdev.c:120 | a user copy of n bytes moves at most n and at most the accessible bytes, and stops only at one of those two limits |
| `Uaccess.CopyFromUser` | fifo-device/cdev.c:120 | copy_from_user returns the count not copied, which is n minus the bytes moved; the first bytes moved land at the destination offset, the rest of the n destination bytes are zero-filled, and nothing else of the kernel array changes |
| `Uaccess.CopyToUser` | fifo-device/cdev.c:104 | copy_to_user moves the first bytes of the kernel source into the user range at the given offset, as far as the range allows, and returns the count not copied |
| `Cdev.Clip` | fifo-device/cdev.c:117-119 | the clipped length is at most len and never reaches past the end of the buffer; it is len when that fits, otherwise exactly the room up to the end; at or past the end it is 0 |
| `Cdev.ClipAsWritten` | fifo-device/cdev.c:101-103 | the guard as computed in 64-bit unsigned arithmetic always yields a size_t value |
| `Cdev.ClipAsWrittenAgrees` | fifo-device/cdev.c:117-119 | while the position is at most MESSAGE_SIZE and the sum does not wrap, the guard as written equals the intended clip |
| `Cdev.ClipUnderflow` | fifo-device/cdev.c:118 | for a position past MESSAGE_SIZE, when len + offset does not wrap, `MESSAGE_SIZE - *offset` wraps to 2^64 - (offset - MESSAGE_SIZE), which exceeds the whole buffer, where the intended clip is 0 |
| `Cdev.Stored` | fifo-device/cdev.c:120-122 | after a write with clipped length n the buffer keeps its length; the k copied bytes sit at offset .. offset+k-1, the bytes up to offset+n-1 that the copy could not fill are zero, a NUL follows the copied bytes when that index is inside the buffer, and all other bytes, in particular those before the offset, are unchanged |
| `Cdev.StoredAsWritten` | fifo-device/cdev.c:122 | the unconditional NUL store is out of bounds exactly when offset + k reaches MESSAGE_SIZE; otherwise it gives the same buffer as the corrected store |
| `Cdev.FullWriteOverruns` | fifo-device/cdev.c:117-122 | a write of MESSAGE_SIZE or more bytes at position 0 whose copy succeeds copies exactly MESSAGE_SIZE bytes, and the NUL store then lands outside the buffer |
| `Cdev.ConsecutiveWritesAppend` | fifo-device/cdev.c:120-121 | because a write advances the position by exactly the bytes it stored, two writes in a row leave their bytes side by side and keep everything before the first position |
| `Cdev.ReadAsWritten` | fifo-device/cdev.c:104 | copy_to_user(buffer + *offset, msg_ptr, len) puts the first kernel bytes, from index 0, at the caller's buffer plus the position, as far as the user range allows, and leaves the rest of the user range alone |
| `Cdev.ReadFromPosition` | fifo-device/cdev.c:104 | the intended read puts the kernel bytes that start at the position at the start of the caller's buffer |
| `Cdev.SecondReadMisplaces` | fifo-device/cdev.c:104 | two one-byte reads as written: the second puts kernel[0] again at buffer + 1, outside the caller's one-byte buffer, where the intended read puts kernel[1] at buffer[0] |
| `Cdev.ConsecutiveReadsConcatenate` | fifo-device/cdev.c:106 | with the intended read, a read of n1 bytes followed by a read of n2 bytes hands out the n1 + n2 bytes that start at the first position, in order |
| `Cdev.File.constructor` | fifo-device/cdev.c:99 | the file position `*offset` that read and write receive starts at 0 |
| `Cdev.WriteThenReadFromStart` | fifo-device/cdev.c:104 | after a write at position 0, a read at position 0 hands the user the written bytes, as many as the read length and the user range allow |
| `Cdev.Device.Init` | fifo-device/cdev.c:70 | the buffer is allocated once with MESSAGE_SIZE = 10 * PAGE_SIZE bytes, its contents unspecified, and numberOpens starts at 0 |
| `Cdev.Device.Open` | fifo-device/cdev.c:87-91 | open increments numberOpens and returns 0 |
| `Cdev.Device.Release` | fifo-device/cdev.c:93-97 | release decrements numberOpens and returns 0, so an open and its release cancel out |
| `Cdev.Device.Write` | fifo-device/cdev.c:116-126 | write returns the clipped length minus the bytes not copied, advances the position by exactly that value, and leaves the buffer as `Stored` describes, with the uncopied part of the clipped length zero-filled; at or past the end of the buffer it changes nothing and returns 0 |
| `Cdev.Device.Read` | fifo-device/cdev.c:99-114 | read copies buffer bytes from index 0 to the user range at the position, as `ReadAsWritten` describes, never changes the kernel buffer, advances the position by the bytes copied, and returns the clipped length or -EFAULT after a short copy; at or past the end of the buffer it changes nothing and returns 0 |
| `Chardev.CString` | fifo-device/chardev.c:138 | `%s` reads the prefix of the buffer up to its first NUL, or all of it when there is none, and that prefix contains no NUL |
| `Chardev.CStringOfTerminated` | fifo-device/chardev.c:139 | a text without NUL followed by a NUL reads back as exactly that text |
| `Chardev.Decimal` | fifo-device/chardev.c:138 | `%zu` prints a non-empty string of decimal digits with no leading zero; 0 prints as "0" |
| `Chardev.DecimalRoundTrip` | fifo-device/chardev.c:138 | the digits printed for len denote len |
| `Chardev.Formatted` | fifo-device/chardev.c:138 | the formatted text contains no NUL and begins with the user's string |
| `Chardev.Snprintf` | fifo-device/chardev.c:138 | snprintf writes min(length, size-1) characters of the text, then a NUL, and leaves the rest of the array alone; a NUL-free text reads back truncated to size-1 characters |
| `Chardev.Strlen` | fifo-device/chardev.c:139 | strlen returns the index of the first NUL, and the characters before it are what `%s` would read from the array |
| `Chardev.Device.constructor` | fifo-device/chardev.c:18-20 | the message starts as 256 NULs, size_of_message and numberOpens start at 0 |
| `Chardev.Device.Open` | fifo-device/chardev.c:100-104 | open increments numberOpens and returns 0 |
| `Chardev.Device.Release` | fifo-device/chardev.c:149-152 | release returns 0 and changes nothing, so numberOpens never decreases |
| `Chardev.Device.Read` | fifo-device/chardev.c:114-126 | read copies size_of_message characters and ignores len; a complete copy sets size_of_message to 0 and returns 0, so the next read copies nothing; a short copy returns -EFAULT and keeps size_of_message; message is never changed |
| `Chardev.Device.Write` | fifo-device/chardev.c:136-142 | write stores "<string>(<len> chars)" cut to at most 255 characters and NUL-terminated, sets size_of_message to the stored length (at most 255), and returns len |

## Left out

- Module load and unload registration (`register_chrdev`, `class_create`, `device_create` and their teardown; fifo-device/cdev.c:40-68, :74-85, fifo-device/chardev.c:50-93): calls into the kernel. The init code of chardev.c also uses `chardevClass` and `chardevDevice`, which the file never declares.
- `printk` logging throughout: it has no effect on driver state.
- Failure of `kmalloc` at fifo-device/cdev.c:70, which the code does not check: the allocation is assumed to succeed.
- fifo-device/fifodev.c is not part of this model. It refers to `message` and `size_of_message`, which it never declares. It allocates a fresh buffer into one global pointer on every open and frees it on every release. Its reader/writer logic is commented out.
- shared-library/dl.cpp, signal/sigint.c, loadable-kernel-module/lkm_example.c and lkm_example/lkm_example.c are not part of this model: foreign calls, signal handling and logging only.
- Concurrency: the drivers take no locks. Every operation is modelled as one sequential step.
- Cdev.Device.Write: lengths and positions are unbounded naturals. The wrap-around of `len + *offset` past 2^64 is modelled only by `Cdev.ClipAsWritten`. The VFS keeps requests far below that bound.
- Cdev.Device.Read: file positions are naturals. The VFS refuses negative `loff_t` positions before calling the driver.
- Cdev.Device.Open: numberOpens is an unbounded integer. The overflow of the C `int` after 2^31 opens is not modelled. The same holds for `Chardev.Device.Open`.
- Chardev.Device.Write: `%s` dereferences the user pointer directly. The model reads the user's buffer as a character sequence up to its first NUL or its end. It does not capture reading past the end into unrelated memory. The conversion of `len` to `ssize_t` for the return value is not modelled.

## Findings

| source | as written | input that shows it | evidently intended | confidence | as-written member | corrected member |
|---|---|---|---|---|---|---|
| fifo-device/cdev.c:117-119 (and :101-103 in read) | `len = MESSAGE_SIZE - *offset` is computed in size_t, so it wraps when the position is past the buffer | a write or read at position MESSAGE_SIZE + 1, reachable with pwrite/pread: the clipped length becomes 2^64 - 1. The copy itself most likely moves nothing, because the kernel refuses such a size. A write still stores its NUL at msg_ptr[MESSAGE_SIZE + 1], outside the buffer (`Cdev.StoredAsWritten` with nothing copied), and a read returns -EFAULT instead of 0 | transfer nothing once the position is at or past MESSAGE_SIZE | not executed; high | `Cdev.ClipUnderflow` (on `Cdev.ClipAsWritten`) | `Cdev.Clip` |
| fifo-device/cdev.c:122 | `msg_ptr[*offset] = '\0'` after the position has advanced, with no bound check | a write of MESSAGE_SIZE bytes at position 0 whose copy succeeds: the NUL goes to index MESSAGE_SIZE, one past the kmalloc'd buffer. Any write at position MESSAGE_SIZE, even of 0 bytes, stores out of bounds too | store the terminator only while the new position is inside the buffer | not executed; high | `Cdev.FullWriteOverruns` (on `Cdev.StoredAsWritten`) | `Cdev.Stored` |
| fifo-device/cdev.c:104 | `copy_to_user(buffer + *offset, msg_ptr, len)` adds the position to the user address and reads the kernel buffer from its start | two calls of read(fd, buf, 1) on a one-byte buf: the second writes msg_ptr[0] to buf + 1, outside the caller's buffer | copy_to_user(buffer, msg_ptr + *offset, len): hand out the bytes at the position to the start of the caller's buffer | not executed; high | `Cdev.SecondReadMisplaces` (on `Cdev.ReadAsWritten`) | `Cdev.ReadFromPosition` (`Cdev.ConsecutiveReadsConcatenate`) |
