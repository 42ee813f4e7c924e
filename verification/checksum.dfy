/** SHA-256 package checksums as they appear in a Cargo.lock: parsing a hex
    string into a 32-byte digest (zero-padded when short) and formatting the
    digest back as lower- or upper-case hex. */
module Checksum {
  import opened Common

  /** Bytes in a SHA-256 digest. */
  const DigestLength: nat := 32
  /** Hex characters that fit in a digest. */
  const MaxHexLength: nat := 2 * DigestLength
  /** The shortest accepted checksum: 8 hex characters (4 bytes). */
  const MinHexLength: nat := 8

  /** `Checksum::Sha256([u8; 32])`. */
  type Digest = d: seq<Byte> | |d| == DigestLength witness seq(32, _ => 0)

  /** `InvalidChecksum` is the "invalid_checksum" error; `IndexOutOfBounds`
      is the panic of writing past the end of the digest array. */
  datatype ChecksumError = InvalidChecksum | IndexOutOfBounds

  // ---------------------------------------------------------------------
  // Hex digits
  // ---------------------------------------------------------------------

  /** `char::is_ascii_hexdigit`. */
  predicate IsHexDigit(c: char)
  {
    '0' <= c <= '9' || 'a' <= c <= 'f' || 'A' <= c <= 'F'
  }

  predicate AllHex(s: string)
  {
    forall i :: 0 <= i < |s| ==> IsHexDigit(s[i])
  }

  function HexValue(c: char): (v: nat)
    requires IsHexDigit(c)
    ensures v < 16
  {
    if '0' <= c <= '9' then c as int - '0' as int
    else if 'a' <= c <= 'f' then c as int - 'a' as int + 10
    else c as int - 'A' as int + 10
  }

  /** The digit for `v` (`{:x}` when `upper` is false, `{:X}` when true). */
  function Digit(v: nat, upper: bool): (c: char)
    requires v < 16
    ensures IsHexDigit(c) && HexValue(c) == v
    ensures upper ==> !('a' <= c <= 'f')
    ensures !upper ==> !('A' <= c <= 'F')
  {
    if v < 10 then ('0' as int + v) as char
    else if upper then ('A' as int + v - 10) as char
    else ('a' as int + v - 10) as char
  }

  /** `u8::from_str_radix` on two hex digits. */
  function PairValue(hi: char, lo: char): Byte
    requires IsHexDigit(hi) && IsHexDigit(lo)
  {
    16 * HexValue(hi) + HexValue(lo)
  }

  // ---------------------------------------------------------------------
  // Parsing
  // ---------------------------------------------------------------------

  /** The checks `from_str` makes before decoding: non-empty, even length,
      at least 8 characters, hex digits only.  Nothing bounds the length
      from above. */
  predicate PassesValidation(s: string)
  {
    !(|s| == 0 || |s| % 2 != 0 || |s| < MinHexLength) && AllHex(s)
  }

  /** The first |s| / 2 bytes decoded from consecutive pairs, the rest zero. */
  function DecodePadded(s: string): Digest
    requires PassesValidation(s) && |s| <= MaxHexLength
  {
    seq(DigestLength, i requires 0 <= i < DigestLength =>
      if i < |s| / 2 then PairValue(s[2 * i], s[2 * i + 1]) else 0)
  }

  /** `Checksum::from_str` as written: the decoding loop writes `digest[i]`
      for every pair of the input, so a valid input longer than 64
      characters runs past the 32-byte array. */
  method FromStrAsWritten(s: string) returns (r: Result<Digest, ChecksumError>)
    ensures r == Err(InvalidChecksum) <==> !PassesValidation(s)
    ensures r == Err(IndexOutOfBounds) <==> PassesValidation(s) && |s| > MaxHexLength
    ensures PassesValidation(s) && |s| <= MaxHexLength ==> r == FromStr(s)
  {
    if |s| == 0 || |s| % 2 != 0 || |s| < MinHexLength {
      return Err(InvalidChecksum);
    }
    if !AllHex(s) {
      return Err(InvalidChecksum);
    }
    var digest: seq<Byte> := seq(DigestLength, _ => 0);
    var bytes := |s| / 2;
    var i := 0;
    while i < bytes
      invariant 0 <= i <= bytes && i <= DigestLength
      invariant |digest| == DigestLength
      invariant forall k :: 0 <= k < i ==> digest[k] == PairValue(s[2 * k], s[2 * k + 1])
      invariant forall k :: i <= k < DigestLength ==> digest[k] == 0
    {
      if i >= DigestLength {
        return Err(IndexOutOfBounds);
      }
      digest := digest[i := PairValue(s[2 * i], s[2 * i + 1])];
      i := i + 1;
    }
    var j := bytes;
    while j < DigestLength
      invariant bytes <= j
      invariant |digest| == DigestLength
      invariant forall k :: 0 <= k < bytes ==> digest[k] == PairValue(s[2 * k], s[2 * k + 1])
      invariant forall k :: bytes <= k < DigestLength ==> digest[k] == 0
    {
      digest := digest[j := 0];
      j := j + 1;
    }
    assert digest == DecodePadded(s);
    return Ok(digest);
  }

  /** `Checksum::from_str` with the evident intent: an input that does not
      fit in the digest is rejected as "invalid_checksum" like any other
      malformed checksum. */
  function FromStr(s: string): (r: Result<Digest, ChecksumError>)
    ensures r.Err? <==> !PassesValidation(s) || |s| > MaxHexLength
    ensures r.Err? ==> r.error == InvalidChecksum
    ensures r.Ok? ==> forall i :: 0 <= i < |s| / 2 ==> r.value[i] == 16 * HexValue(s[2 * i]) + HexValue(s[2 * i + 1])
    ensures r.Ok? ==> forall i :: |s| / 2 <= i < DigestLength ==> r.value[i] == 0
  {
    if !PassesValidation(s) || |s| > MaxHexLength then Err(InvalidChecksum)
    else Ok(DecodePadded(s))
  }

  /** 66 hex digits pass every check of the as-written parser, which then
      panics on them, while the corrected parser rejects them. */
  lemma OverlongChecksumPassesValidation()
    ensures var s := seq(MaxHexLength + 2, _ => 'a');
      PassesValidation(s) && |s| > MaxHexLength && FromStr(s) == Err(InvalidChecksum)
  {
  }

  // ---------------------------------------------------------------------
  // Formatting
  // ---------------------------------------------------------------------

  /** `{:02x}` (or `{:02X}` when `upper`) for each byte, concatenated. */
  function Format(d: seq<Byte>, upper: bool): (s: string)
    ensures |s| == 2 * |d|
    ensures forall i :: 0 <= i < |d| ==> s[2 * i] == Digit(d[i] / 16, upper) && s[2 * i + 1] == Digit(d[i] % 16, upper)
  {
    if d == [] then ""
    else
      var rest := Format(d[1..], upper);
      var s := [Digit(d[0] / 16, upper), Digit(d[0] % 16, upper)] + rest;
      assert forall i :: 1 <= i < |d| ==> d[i] == d[1..][i - 1] && s[2 * i] == rest[2 * (i - 1)];
      s
  }

  /** `LowerHex for Checksum` (also its `Display`). */
  function LowerHex(d: Digest): (s: string)
    ensures |s| == MaxHexLength
    ensures Lower(s) == s
    ensures FromStr(s) == Ok(d)
  {
    var s := Format(d, false);
    ParseFormatRoundTrip(d, false);
    forall j | 0 <= j < |s|
      ensures Lower(s)[j] == s[j]
    {
      FormatCaseAt(d, j);
    }
    s
  }

  /** `UpperHex for Checksum`. */
  function UpperHex(d: Digest): (s: string)
    ensures |s| == MaxHexLength
    ensures Lower(s) == LowerHex(d)
    ensures FromStr(s) == Ok(d)
  {
    var s := Format(d, true);
    ParseFormatRoundTrip(d, true);
    forall j | 0 <= j < |s|
      ensures Lower(s)[j] == Format(d, false)[j]
    {
      FormatCaseAt(d, j);
    }
    s
  }

  /** Lower-casing a character of either format gives the `{:x}` character. */
  lemma FormatCaseAt(d: seq<Byte>, j: nat)
    requires j < 2 * |d|
    ensures LowerChar(Format(d, true)[j]) == Format(d, false)[j]
    ensures LowerChar(Format(d, false)[j]) == Format(d, false)[j]
  {
    FormatAt(d, true, j);
    FormatAt(d, false, j);
  }

  /** The character of `Format` at index `j` is the digit of byte j / 2:
      its high nibble at even `j`, its low nibble at odd `j`. */
  lemma FormatAt(d: seq<Byte>, upper: bool, j: nat)
    requires j < 2 * |d|
    ensures Format(d, upper)[j] == Digit(if j % 2 == 0 then d[j / 2] / 16 else d[j / 2] % 16, upper)
  {
    var i := j / 2;
    if j % 2 == 0 {
      assert j == 2 * i;
    } else {
      assert j == 2 * i + 1;
    }
  }

  /** Both formats emit exactly 64 hex digits, lower-case for `{:x}` and
      upper-case for `{:X}`. */
  lemma HexShape(d: Digest)
    ensures |LowerHex(d)| == MaxHexLength && |UpperHex(d)| == MaxHexLength
    ensures forall j :: 0 <= j < MaxHexLength ==> IsHexDigit(LowerHex(d)[j]) && !('A' <= LowerHex(d)[j] <= 'F')
    ensures forall j :: 0 <= j < MaxHexLength ==> IsHexDigit(UpperHex(d)[j]) && !('a' <= UpperHex(d)[j] <= 'f')
  {
    forall j | 0 <= j < MaxHexLength
      ensures IsHexDigit(LowerHex(d)[j]) && !('A' <= LowerHex(d)[j] <= 'F')
      ensures IsHexDigit(UpperHex(d)[j]) && !('a' <= UpperHex(d)[j] <= 'f')
    {
      FormatAt(d, false, j);
      FormatAt(d, true, j);
    }
  }

  lemma PairValueSplits(hi: char, lo: char)
    requires IsHexDigit(hi) && IsHexDigit(lo)
    ensures PairValue(hi, lo) / 16 == HexValue(hi) && PairValue(hi, lo) % 16 == HexValue(lo)
  {
  }

  /** Parsing either format of a digest gives the digest back. */
  lemma ParseFormatRoundTrip(d: Digest, upper: bool)
    ensures FromStr(Format(d, upper)) == Ok(d)
  {
    var s := Format(d, upper);
    assert AllHex(s) by {
      forall j | 0 <= j < |s|
        ensures IsHexDigit(s[j])
      {
        FormatAt(d, upper, j);
      }
    }
    var e := FromStr(s).value;
    forall i | 0 <= i < DigestLength
      ensures e[i] == d[i]
    {
      assert e[i] == 16 * HexValue(s[2 * i]) + HexValue(s[2 * i + 1]);
    }
    assert e == d;
  }

  /** The lower-case digit of a hex digit is its ASCII lower-case. */
  lemma DigitOfHexValue(c: char)
    requires IsHexDigit(c)
    ensures Digit(HexValue(c), false) == LowerChar(c)
  {
  }

  /** Formatting a parsed checksum gives the input lower-cased and padded
      with '0' to 64 characters. */
  lemma FormatParseRoundTrip(s: string)
    requires FromStr(s).Ok?
    ensures LowerHex(FromStr(s).value) == Lower(s) + seq(MaxHexLength - |s|, _ => '0')
  {
    var d := FromStr(s).value;
    var out := LowerHex(d);
    assert out == Format(d, false);
    var expected := Lower(s) + seq(MaxHexLength - |s|, _ => '0');
    forall j | 0 <= j < MaxHexLength
      ensures out[j] == expected[j]
    {
      FormatParseAt(s, j);
      if j < |s| {
        assert expected[j] == Lower(s)[j];
      }
    }
  }

  /** One character of `FormatParseRoundTrip`. */
  lemma FormatParseAt(s: string, j: nat)
    requires FromStr(s).Ok? && j < MaxHexLength
    ensures j < |s| ==> Format(FromStr(s).value, false)[j] == LowerChar(s[j])
    ensures j >= |s| ==> Format(FromStr(s).value, false)[j] == '0'
  {
    var d := FromStr(s).value;
    FormatAt(d, false, j);
    var i := j / 2;
    if j < |s| {
      ParsedNibbles(s, i);
      DigitOfHexValue(s[j]);
      if j % 2 == 0 {
        assert j == 2 * i;
      } else {
        assert j == 2 * i + 1;
      }
    } else {
      assert i >= |s| / 2;
    }
  }

  /** Byte `i` of a parsed checksum has the nibbles of hex pair `i`. */
  lemma ParsedNibbles(s: string, i: nat)
    requires FromStr(s).Ok? && i < |s| / 2
    ensures FromStr(s).value[i] / 16 == HexValue(s[2 * i])
    ensures FromStr(s).value[i] % 16 == HexValue(s[2 * i + 1])
  {
    PairValueSplits(s[2 * i], s[2 * i + 1]);
  }
}
