/**
 The wire format of the GDB Remote Serial Protocol as the stub speaks it:
 the framing bytes, the 8-bit checksum and its two-digit encoding, and the
 frame `$payload#hh` that `put_packet` writes.
 */
module Wire {
  import opened Hex

  datatype Option<T> = None | Some(value: T)

  /** Start of a packet. */
  const Dollar: Byte := '$' as int
  /** End of a packet's payload; two checksum digits follow. */
  const Hash: Byte := '#' as int
  /** Acknowledgement. */
  const Plus: Byte := '+' as int
  /** Separates a two-byte sequence ID from the rest of a payload. */
  const Colon: Byte := ':' as int
  /** The one command the stub implements: continue execution. */
  const Continue: Byte := 'c' as int
  /** String terminator. */
  const Nul: Byte := 0

  /** A payload that can be framed: it holds neither framing byte. */
  predicate Plain(p: seq<Byte>) {
    forall i :: 0 <= i < |p| ==> p[i] != Dollar && p[i] != Hash
  }

  /** The plain arithmetic sum of the payload bytes. */
  function Total(p: seq<Byte>): nat {
    if p == [] then 0 else p[0] + Total(p[1..])
  }

  /**
   The checksum as an `unsigned char` accumulates it: the running sum
   truncated to 8 bits after every byte, which is the byte total mod 256.
   */
  function Sum(p: seq<Byte>): (s: Byte)
    ensures s == Total(p) % 256
  {
    if p == [] then 0
    else
      AddMod(p[0], Total(p[1..]));
      (p[0] + Sum(p[1..])) % 256
  }

  /** Adding one byte at the end of a payload adds it to the checksum. */
  lemma {:induction false} SumSnoc(p: seq<Byte>, b: Byte)
    ensures Sum(p + [b]) == (Sum(p) + b) % 256
  {
    if p != [] {
      DropFirst(p, [b]);
      SumSnoc(p[1..], b);
      AddMod(p[0], Sum(p[1..]) + b);
      AddMod(b, p[0] + Sum(p[1..]));
      assert (p[0] + Sum(p[1..]) + b) % 256 == (b + (p[0] + Sum(p[1..])) % 256) % 256;
    }
  }

  /** Adding a payload to a running checksum one byte at a time. */
  lemma SumCons(sum: int, p: seq<Byte>)
    requires p != []
    ensures ((sum + p[0]) % 256 + Sum(p[1..])) % 256 == (sum + Sum(p)) % 256
  {
    AddModAssoc(sum, p[0], Sum(p[1..]));
  }

  /** Adding three bytes mod 256 does not depend on where the truncation happens. */
  lemma AddModAssoc(a: int, b: int, c: int)
    ensures ((a + b) % 256 + c) % 256 == (a + (b + c) % 256) % 256
  {
    var x, y := a + b, b + c;
    assert x == (x / 256) * 256 + x % 256;
    assert y == (y / 256) * 256 + y % 256;
    var s := a + b + c;
    assert x % 256 + c == s - (x / 256) * 256;
    assert a + y % 256 == s - (y / 256) * 256;
    ModShift(s, x / 256);
    ModShift(s, y / 256);
  }

  /** Subtracting a multiple of 256 does not change a value mod 256. */
  lemma ModShift(s: int, k: int)
    ensures (s - k * 256) % 256 == s % 256
  {
    var t := s - k * 256;
    assert t == (t / 256) * 256 + t % 256;
    assert s == (s / 256) * 256 + s % 256;
    assert s % 256 - t % 256 == (t / 256 + k - s / 256) * 256;
  }

  /** Truncating an addend first does not change a sum taken mod 256. */
  lemma AddMod(x: int, y: int)
    ensures (x + y % 256) % 256 == (x + y) % 256
  {
    var q := y / 256;
    assert y == q * 256 + y % 256;
    assert x + y == (x + y % 256) + q * 256;
  }

  /** Concatenation regrouped. */
  lemma ConcatAssoc(a: seq<Byte>, b: seq<Byte>, c: seq<Byte>)
    ensures a + (b + c) == a + b + c
  {
  }

  /** Dropping the first byte of a concatenation with a non-empty head. */
  lemma DropFirst(a: seq<Byte>, b: seq<Byte>)
    requires a != []
    ensures (a + b)[0] == a[0] && (a + b)[1..] == a[1..] + b
  {
  }

  /** The two lower-case digits the stub sends for a checksum, high nibble first. */
  function ChecksumDigits(c: Byte): (d: seq<Byte>)
    ensures |d| == 2 && IsHexDigit(d[0]) && IsHexDigit(d[1])
    ensures d[0] != Dollar && d[0] != Hash && d[1] != Dollar && d[1] != Hash
  {
    HexCharsDecode(c / 16);
    HexCharsDecode(c % 16);
    [HexChars[c / 16] as int, HexChars[c % 16] as int]
  }

  /**
   The checksum the receiver reconstructs from two received bytes: the
   high digit shifted left by four plus the low digit, stored in an
   `unsigned char`. A byte that is not a digit counts as -1.
   */
  function XmitSum(hi: Byte, lo: Byte): (c: Byte)
    ensures IsHexDigit(hi) && IsHexDigit(lo) ==> c == GetHex(hi) * 16 + GetHex(lo)
  {
    (GetHex(hi) * 16 + GetHex(lo)) % 256
  }

  /** Decoding the two digits the sender writes gives back the checksum. */
  lemma ChecksumRoundTrip(c: Byte)
    ensures XmitSum(ChecksumDigits(c)[0], ChecksumDigits(c)[1]) == c
  {
    HexCharsDecode(c / 16);
    HexCharsDecode(c % 16);
  }

  /** One transmission attempt: `$`, the payload, `#` and the checksum digits. */
  function Frame(p: seq<Byte>): (f: seq<Byte>)
    ensures |f| == |p| + 4 && f[0] == Dollar && f[|p| + 1] == Hash
    ensures f[|p| + 2] == ChecksumDigits(Sum(p))[0] && f[|p| + 3] == ChecksumDigits(Sum(p))[1]
  {
    [Dollar] + p + [Hash] + ChecksumDigits(Sum(p))
  }

  /** The frame of the empty payload is `$#00`. */
  lemma EmptyFrame()
    ensures Frame([]) == [Dollar, Hash, '0' as int, '0' as int]
  {
  }
}
