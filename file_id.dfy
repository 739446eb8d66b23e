/**
 * Identifier generation (`generateFileID`). Sixteen bytes are read from
 * the strong random source, hex-encoded with lower-case digits, and the
 * encoding is cut to twelve characters. If the random source reports an
 * error, the identifier is the `%d` rendering of the Unix time in
 * nanoseconds instead. The bytes read and the clock reading are
 * parameters here, so generation is a function of them.
 */
module FileId {
  import opened Bytes

  /** Length of the buffer handed to the random source. */
  const RandomLength := 16

  /** Length of an identifier on the strong-random path. */
  const IdLength := 12

  /** What the random source yields: the filled buffer, or an error. */
  datatype RandomRead = Filled(bytes: seq<byte>) | Failed

  // ---------------------------------------------------------------------
  // Hexadecimal encoding, as `hex.EncodeToString` does it

  /** The lower-case hex digit of a nibble. */
  function HexDigit(n: nat): (c: byte)
    requires n < 16
    ensures IsLowerHex(c)
  {
    if n < 10 then '0' as int + n else 'a' as int + (n - 10)
  }

  /** The nibble a lower-case hex digit stands for. */
  function HexValue(c: byte): (n: nat)
    requires IsLowerHex(c)
    ensures n < 16 && HexDigit(n) == c
  {
    if IsDigit(c) then c - '0' as int else c - 'a' as int + 10
  }

  lemma HexValueOfDigit(n: nat)
    requires n < 16
    ensures HexValue(HexDigit(n)) == n
  {
  }

  /** Two digits per byte, high nibble first. */
  function HexEncode(b: seq<byte>): (s: seq<byte>)
    ensures |s| == 2 * |b|
    ensures forall i :: 0 <= i < |s| ==> IsLowerHex(s[i])
  {
    if b == [] then [] else [HexDigit(b[0] / 16), HexDigit(b[0] % 16)] + HexEncode(b[1..])
  }

  /** The inverse of HexEncode: one byte from each pair of digits. */
  function HexDecode(s: seq<byte>): (b: seq<byte>)
    requires |s| % 2 == 0
    requires forall i :: 0 <= i < |s| ==> IsLowerHex(s[i])
    ensures |b| == |s| / 2
  {
    if s == [] then [] else [HexValue(s[0]) * 16 + HexValue(s[1])] + HexDecode(s[2..])
  }

  /** Hex encoding loses nothing: decoding it gives back the bytes. */
  lemma {:induction false} HexRoundTrip(b: seq<byte>)
    ensures HexDecode(HexEncode(b)) == b
  {
    if b != [] {
      var s := HexEncode(b);
      assert s[2..] == HexEncode(b[1..]);
      HexValueOfDigit(b[0] / 16);
      HexValueOfDigit(b[0] % 16);
      HexRoundTrip(b[1..]);
    }
  }

  /** The first `2 * n` digits of an encoding encode the first `n` bytes. */
  lemma {:induction false} HexEncodePrefix(b: seq<byte>, n: nat)
    requires n <= |b|
    ensures HexEncode(b)[..2 * n] == HexEncode(b[..n])
  {
    if n > 0 {
      assert b[..n][1..] == b[1..][..n - 1];
      HexEncodePrefix(b[1..], n - 1);
    }
  }

  // ---------------------------------------------------------------------
  // Decimal rendering, as `fmt.Sprintf("%d", ...)` does it

  /** The ASCII digit of a value below ten. */
  function DecimalDigit(n: nat): (c: byte)
    requires n < 10
    ensures IsDigit(c)
  {
    '0' as int + n
  }

  /** The decimal digits of a natural number, most significant first. */
  function NatString(n: nat): (s: seq<byte>)
    ensures |s| > 0
    ensures forall i :: 0 <= i < |s| ==> IsDigit(s[i])
  {
    if n < 10 then [DecimalDigit(n)] else NatString(n / 10) + [DecimalDigit(n % 10)]
  }

  /** `%d` of an integer: a minus sign before the digits of a negative one. */
  function DecimalString(n: int): (s: seq<byte>)
  {
    if n < 0 then [Minus] + NatString(-n) else NatString(n)
  }

  /** The value of a digit; any other byte counts as zero. */
  function DigitValue(c: byte): nat
  {
    if IsDigit(c) then c - '0' as int else 0
  }

  /** The value of a string of digits, read most significant first. */
  function ParseNat(s: seq<byte>): nat
  {
    if s == [] then 0 else 10 * ParseNat(s[..|s| - 1]) + DigitValue(s[|s| - 1])
  }

  /** The inverse of DecimalString: an optional minus sign, then digits. */
  function ParseDecimal(s: seq<byte>): int
  {
    if |s| > 0 && s[0] == Minus then -(ParseNat(s[1..]) as int) else ParseNat(s)
  }

  lemma {:induction false} NatRoundTrip(n: nat)
    ensures ParseNat(NatString(n)) == n
  {
    if n >= 10 {
      var s := NatString(n);
      assert s[..|s| - 1] == NatString(n / 10);
      NatRoundTrip(n / 10);
    } else {
      assert NatString(n)[..0] == [];
    }
  }

  /** `%d` loses nothing: reading the rendering back gives the number. */
  lemma {:induction false} DecimalRoundTrip(n: int)
    ensures ParseDecimal(DecimalString(n)) == n
  {
    if n < 0 {
      assert DecimalString(n)[1..] == NatString(-n);
      NatRoundTrip(-n);
    } else {
      assert IsDigit(NatString(n)[0]);
      NatRoundTrip(n);
    }
  }

  // ---------------------------------------------------------------------
  // The generator

  /**
   * `generateFileID`, given what the random source and the clock returned.
   * On the strong path the identifier is the hex encoding of the first six
   * random bytes: twelve lower-case hex digits. On the fallback path it is
   * the decimal rendering of the timestamp, digits only when the timestamp
   * is not negative. On both paths it never holds the separator `_`.
   */
  function GenerateFileID(r: RandomRead, nanos: int64): (id: seq<byte>)
    requires r.Filled? ==> |r.bytes| == RandomLength
    ensures r.Filled? ==> |id| == IdLength && id == HexEncode(r.bytes[..IdLength / 2])
    ensures r.Filled? ==> HexDecode(id) == r.bytes[..IdLength / 2]
    ensures r.Filled? ==> forall i :: 0 <= i < |id| ==> IsLowerHex(id[i])
    ensures r.Failed? ==> ParseDecimal(id) == nanos
    ensures r.Failed? && nanos >= 0 ==> forall i :: 0 <= i < |id| ==> IsDigit(id[i])
    ensures id != [] && Underscore !in id
  {
    match r
    case Failed =>
      DecimalRoundTrip(nanos);
      DecimalString(nanos)
    case Filled(bytes) =>
      HexEncodePrefix(bytes, IdLength / 2);
      HexRoundTrip(bytes[..IdLength / 2]);
      HexEncode(bytes)[..IdLength]
  }
}
