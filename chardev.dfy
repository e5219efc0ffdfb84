/** The "chardev" character device (fifo-device/chardev.c): a single
    256-character message slot. A write replaces the slot with the user's
    string followed by "(<len> chars)", cut to fit as snprintf does, and
    records the stored length; a read hands the whole stored message out
    once and then forgets its length. Each `char` here stands for one C
    byte, so lengths count bytes. */
module Chardev {
  import opened Uaccess

  /** sizeof(message). */
  const MESSAGE_CAPACITY := 256

  function Min(a: nat, b: nat): nat
  {
    if a <= b then a else b
  }

  // ---------------------------------------------------------------------
  // Formatting "%s(%zu chars)"
  // ---------------------------------------------------------------------

  /** The string a `%s` conversion reads from a character buffer: everything
      before its first NUL, or all of it when there is none. */
  function CString(s: seq<char>): (r: string)
    ensures |r| <= |s| && r == s[..|r|]
    ensures forall i :: 0 <= i < |r| ==> r[i] != '\0'
    ensures |r| < |s| ==> s[|r|] == '\0'
  {
    if s == [] || s[0] == '\0' then [] else [s[0]] + CString(s[1..])
  }

  /** A string with no NUL, followed by a NUL, reads back as itself. */
  lemma {:induction false} CStringOfTerminated(t: string, rest: seq<char>)
    requires forall i :: 0 <= i < |t| ==> t[i] != '\0'
    ensures CString(t + ['\0'] + rest) == t
  {
    var s := t + ['\0'] + rest;
    assert s[..|t|] == t && s[|t|] == '\0';
  }

  predicate IsDigit(c: char)
  {
    '0' <= c <= '9'
  }

  function DigitChar(d: nat): (c: char)
    requires d < 10
    ensures IsDigit(c)
  {
    (48 + d) as char
  }

  function DigitValue(c: char): nat
    requires IsDigit(c)
  {
    c as int - 48
  }

  /** The `%zu` conversion: the decimal digits of n, without leading zeros. */
  function Decimal(n: nat): (r: string)
    ensures 0 < |r|
    ensures forall i :: 0 <= i < |r| ==> IsDigit(r[i])
    ensures r[0] == '0' ==> n == 0 && r == "0"
    decreases n
  {
    if n < 10 then [DigitChar(n)] else Decimal(n / 10) + [DigitChar(n % 10)]
  }

  /** The number a string of decimal digits denotes. */
  function DecimalValue(s: string): nat
    requires forall i :: 0 <= i < |s| ==> IsDigit(s[i])
  {
    if s == [] then 0 else DecimalValue(s[..|s| - 1]) * 10 + DigitValue(s[|s| - 1])
  }

  /** The digits printed for n denote n. */
  lemma {:induction false} DecimalRoundTrip(n: nat)
    ensures DecimalValue(Decimal(n)) == n
  {
    if n >= 10 {
      var r := Decimal(n);
      assert r[..|r| - 1] == Decimal(n / 10);
      DecimalRoundTrip(n / 10);
    }
  }

  /** The text "%s(%zu chars)" produces for the user's buffer and len. */
  function Formatted(buffer: seq<char>, len: nat): (r: string)
    ensures forall i :: 0 <= i < |r| ==> r[i] != '\0'
    ensures |CString(buffer)| < |r| && r[..|CString(buffer)|] == CString(buffer)
  {
    CString(buffer) + "(" + Decimal(len) + " chars)"
  }

  /** snprintf into a destination of `size` characters (C99 section
      7.19.6.5): for a positive size, the first size - 1 characters of the
      text at most, then a NUL; what follows the NUL is not touched, and a
      size of 0 writes nothing. A text without NUL reads back truncated. */
  function Snprintf(dst: seq<char>, size: nat, text: string): (r: seq<char>)
    requires size <= |dst|
    ensures |r| == |dst|
    ensures size == 0 ==> r == dst
    ensures size > 0 ==>
      var k := Min(|text|, size - 1);
      r[..k] == text[..k] && r[k] == '\0' && r[k + 1..] == dst[k + 1..]
    ensures size > 0 && (forall i :: 0 <= i < |text| ==> text[i] != '\0') ==>
      CString(r) == text[..Min(|text|, size - 1)]
  {
    if size == 0 then dst
    else
      var k := Min(|text|, size - 1);
      var r := text[..k] + ['\0'] + dst[k + 1..];
      if forall i :: 0 <= i < |text| ==> text[i] != '\0' then
        CStringOfTerminated(text[..k], dst[k + 1..]);
        r
      else
        r
  }

  /** strlen: the index of the first NUL in the array. */
  method Strlen(s: array<char>) returns (n: nat)
    requires exists i :: 0 <= i < s.Length && s[i] == '\0'
    ensures n < s.Length && s[n] == '\0'
    ensures forall i :: 0 <= i < n ==> s[i] != '\0'
    ensures s[..n] == CString(s[..])
  {
    ghost var z :| 0 <= z < s.Length && s[z] == '\0';
    n := 0;
    while s[n] != '\0'
      invariant n <= z
      invariant forall i :: 0 <= i < n ==> s[i] != '\0'
      decreases z - n
    {
      n := n + 1;
    }
    assert s[..] == s[..n] + ['\0'] + s[n + 1..];
    CStringOfTerminated(s[..n], s[n + 1..]);
  }

  // ---------------------------------------------------------------------
  // The driver
  // ---------------------------------------------------------------------

  /** The driver's global state: message, size_of_message and numberOpens. */
  class Device {
    const message: array<char>
    var sizeOfMessage: int
    var numberOpens: int

    ghost predicate Valid()
      reads this
    {
      message.Length == MESSAGE_CAPACITY && 0 <= sizeOfMessage < MESSAGE_CAPACITY
    }

    /** Load time: the message is all NULs and both counters are 0. */
    constructor ()
      ensures Valid() && fresh(message)
      ensures forall i :: 0 <= i < message.Length ==> message[i] == '\0'
      ensures sizeOfMessage == 0 && numberOpens == 0
    {
      message := new char[MESSAGE_CAPACITY](_ => '\0');
      sizeOfMessage := 0;
      numberOpens := 0;
    }

    /** dev_open: counts one more open; nothing ever counts down. */
    method Open() returns (ret: int)
      modifies this`numberOpens
      ensures numberOpens == old(numberOpens) + 1
      ensures ret == 0
    {
      numberOpens := numberOpens + 1;
      ret := 0;
    }

    /** dev_release: changes nothing, so the open count never decreases. */
    method Release() returns (ret: int)
      ensures ret == 0
    {
      ret := 0;
    }

    /** dev_read: copy size_of_message characters of the message to the
        user buffer, whatever len asks for. When all of them arrive, forget
        the length and return 0; otherwise return -EFAULT and keep it. The
        message itself is never changed. */
    method Read(user: array<char>, len: nat) returns (ret: int)
      requires Valid() && user != message
      modifies this`sizeOfMessage, user
      ensures Valid()
      ensures message[..] == old(message[..])
      ensures var k := Transferred(old(sizeOfMessage), user.Length);
              user[..] == Overwrite(old(user[..]), 0, message[..k])
              && (k == old(sizeOfMessage) ==> ret == 0 && sizeOfMessage == 0)
              && (k < old(sizeOfMessage) ==> ret == -EFAULT && sizeOfMessage == old(sizeOfMessage))
      ensures old(sizeOfMessage) == 0 ==> ret == 0 && user[..] == old(user[..])
    {
      var errorCount := CopyToUser(user, 0, message[..], sizeOfMessage);
      if errorCount == 0 {
        sizeOfMessage := 0;
        ret := sizeOfMessage;
      } else {
        ret := -EFAULT;
      }
    }

    /** dev_write: format "%s(%zu chars)" into the message as snprintf does,
        record the length of the stored text, and report all len characters
        as written even when the text was cut. */
    method Write(buffer: seq<char>, len: nat) returns (ret: int)
      requires Valid()
      modifies message, this`sizeOfMessage
      ensures Valid()
      ensures message[..] == Snprintf(old(message[..]), MESSAGE_CAPACITY, Formatted(buffer, len))
      ensures sizeOfMessage == Min(|Formatted(buffer, len)|, MESSAGE_CAPACITY - 1)
      ensures CString(message[..]) == Formatted(buffer, len)[..sizeOfMessage]
      ensures ret == len
    {
      var text := Formatted(buffer, len);
      var k := Min(|text|, MESSAGE_CAPACITY - 1);
      forall i | 0 <= i < k {
        message[i] := text[i];
      }
      message[k] := '\0';
      assert message[..] == Snprintf(old(message[..]), MESSAGE_CAPACITY, text);
      sizeOfMessage := Strlen(message);
      ret := len;
    }
  }
}
