/**
 The hex codec of the GDB stub: one ASCII hex digit to its nibble value
 (`get_hex`), and a run of hex digits in a NUL-terminated buffer to a 32-bit
 integer (`hex_to_int`).
 */
module Hex {

  /** A C `unsigned char`. */
  type Byte = b: int | 0 <= b < 256

  /** The bit pattern of a 32-bit C `int`, read as an unsigned number. */
  type Word = w: int | 0 <= w < 0x1_0000_0000


  /** The digit table the stub uses when it emits hex (`hex_chars`). */
  const HexChars: string := "0123456789abcdef"

  /** The upper-case spelling of the same digits, accepted on input. */
  const UpperHexChars: string := "0123456789ABCDEF"

  /** 16^n. */
  function Pow16(n: nat): (r: nat)
    ensures r >= 1
  {
    if n == 0 then 1 else 16 * Pow16(n - 1)
  }

  /** Value of one hex digit, or -1 for a byte that is not one (`get_hex`). */
  function GetHex(ch: Byte): (r: int)
    ensures -1 <= r < 16
  {
    if 'a' as int <= ch <= 'f' as int then ch - 'a' as int + 10
    else if '0' as int <= ch <= '9' as int then ch - '0' as int
    else if 'A' as int <= ch <= 'F' as int then ch - 'A' as int + 10
    else -1
  }

  /**
   `GetHex` against the two digit tables: a non-negative result is the table
   position that spells `ch` (lower or upper case), and -1 means that no
   position of either table spells it.
   */
  lemma GetHexTable(ch: Byte)
    ensures 0 <= GetHex(ch) ==> ch == HexChars[GetHex(ch)] as int || ch == UpperHexChars[GetHex(ch)] as int
    ensures GetHex(ch) == -1 ==> forall i :: 0 <= i < 16 ==> ch != HexChars[i] as int && ch != UpperHexChars[i] as int
  {
  }

  predicate IsHexDigit(ch: Byte) {
    GetHex(ch) >= 0
  }

  predicate AllHex(s: seq<Byte>) {
    forall i :: 0 <= i < |s| ==> IsHexDigit(s[i])
  }

  /** Decoding the digit the stub emits for a nibble gives that nibble back. */
  lemma HexCharsDecode(n: int)
    requires 0 <= n < 16
    ensures GetHex(HexChars[n] as int) == n
  {
    var ch: Byte := HexChars[n] as int;
    GetHexTable(ch);
    var r := GetHex(ch);
    assert r != -1;
    assert HexChars[r] as int == ch || UpperHexChars[r] as int == ch;
  }

  /**
   Length of the longest prefix of `s` made of hex digits. The NUL
   terminator is not a hex digit, so the run also ends at the first NUL.
   */
  function HexRun(s: seq<Byte>): (n: nat)
    ensures n <= |s|
    ensures forall i :: 0 <= i < n ==> IsHexDigit(s[i])
    ensures n < |s| ==> !IsHexDigit(s[n])
  {
    if s == [] || !IsHexDigit(s[0]) then 0 else 1 + HexRun(s[1..])
  }

  /** The base-16 value of a run of hex digits, most significant digit first. */
  function HexValue(d: seq<Byte>): (v: nat)
    requires AllHex(d)
    ensures v < Pow16(|d|)
  {
    if d == [] then 0
    else
      var v := HexValue(d[..|d| - 1]);
      assert v <= Pow16(|d| - 1) - 1;
      assert v * 16 <= Pow16(|d|) - 16;
      v * 16 + GetHex(d[|d| - 1])
  }

  /** Appending a digit shifts the value one place and adds the digit. */
  lemma HexValueSnoc(d: seq<Byte>, x: Byte)
    requires AllHex(d) && IsHexDigit(x)
    ensures AllHex(d + [x])
    ensures HexValue(d + [x]) == HexValue(d) * 16 + GetHex(x)
  {
    assert (d + [x])[..|d|] == d;
  }

  /** Shifting a nibble into a 32-bit word commutes with truncation to 32 bits. */
  lemma ShiftInWord(v: int, w: int, h: int)
    requires w == v % 0x1_0000_0000
    ensures (w * 16 + h) % 0x1_0000_0000 == (v * 16 + h) % 0x1_0000_0000
  {
    var q := v / 0x1_0000_0000;
    assert v == q * 0x1_0000_0000 + w;
    assert v * 16 + h == (w * 16 + h) + (q * 16) * 0x1_0000_0000;
  }

  /** The run of digits that stops at a non-digit is exactly the digits before it. */
  lemma {:induction false} HexRunOfDigits(d: seq<Byte>, stop: Byte, t: seq<Byte>)
    requires AllHex(d)
    requires !IsHexDigit(stop)
    ensures HexRun(d + [stop] + t) == |d|
  {
    if d != [] {
      assert (d + [stop] + t)[1..] == d[1..] + [stop] + t;
      HexRunOfDigits(d[1..], stop, t);
    }
  }

  /** A run of digits that is followed by a non-digit is the whole run. */
  lemma {:induction false} HexRunMaximal(s: seq<Byte>, n: nat)
    requires n < |s| && AllHex(s[..n]) && !IsHexDigit(s[n])
    ensures HexRun(s) == n
  {
    if n > 0 {
      assert s[1..][..n - 1] == s[..n][1..];
      HexRunMaximal(s[1..], n - 1);
    }
  }

  /**
   One step of `hex_to_int`: shifting the next digit into the 32-bit value
   of the digits before it gives the 32-bit value of the longer run.
   */
  lemma HexToIntStep(s: seq<Byte>, n: nat, value: int)
    requires n < |s| && IsHexDigit(s[n]) && AllHex(s[..n])
    requires value == HexValue(s[..n]) % 0x1_0000_0000
    ensures AllHex(s[..n + 1])
    ensures (value * 16 + GetHex(s[n])) % 0x1_0000_0000 == HexValue(s[..n + 1]) % 0x1_0000_0000
  {
    var v, h := HexValue(s[..n]), GetHex(s[n]);
    assert s[..n + 1] == s[..n] + [s[n]];
    HexValueSnoc(s[..n], s[n]);
    ShiftInWord(v, value, h);
  }

  /**
   `hex_to_int`: parse the hex digits of the NUL-terminated string at `pos`.
   Returns the number of digits consumed (the cursor moves to `pos + n`) and
   the value, accumulated as `(value << 4) | digit` in a 32-bit word. With no
   digit at `pos` it returns 0 digits and value 0.
   */
  method HexToInt(a: array<Byte>, pos: nat) returns (n: nat, value: Word)
    requires pos < a.Length
    requires exists k :: pos <= k < a.Length && a[k] == 0
    ensures pos + n < a.Length
    ensures n == HexRun(a[pos..])
    ensures value == HexValue(a[pos..][..n]) % 0x1_0000_0000
  {
    ghost var nul :| pos <= nul < a.Length && a[nul] == 0;
    ghost var s := a[pos..];
    n, value := 0, 0;
    while a[pos + n] != 0
      invariant pos + n <= nul
      invariant AllHex(s[..n])
      invariant value == HexValue(s[..n]) % 0x1_0000_0000
      decreases nul - (pos + n)
    {
      var h := GetHex(a[pos + n]);
      if h < 0 {
        break;
      }
      assert s[n] == a[pos + n];
      HexToIntStep(s, n, value);
      value := (value * 16 + h) % 0x1_0000_0000;
      n := n + 1;
    }
    assert s[n] == a[pos + n];
    HexRunMaximal(s, n);
  }
}
