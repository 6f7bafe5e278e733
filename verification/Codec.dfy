/** Text forms the service depends on: trimming, the decimal CRL counter,
    and the hexadecimal spelling of certificate serial numbers. */
module Codec {
  import opened Wrappers

  // ---------------------------------------------------------------- trimming

  /** The Unicode White_Space property, which `str::trim` removes. */
  predicate IsWhitespace(c: char) {
    var n := c as int;
    || 0x09 <= n <= 0x0D || n == 0x20 || n == 0x85 || n == 0xA0 || n == 0x1680
    || 0x2000 <= n <= 0x200A || n == 0x2028 || n == 0x2029 || n == 0x202F
    || n == 0x205F || n == 0x3000
  }

  function TrimStart(s: string): string {
    if s != [] && IsWhitespace(s[0]) then TrimStart(s[1..]) else s
  }

  function TrimEnd(s: string): string {
    if s != [] && IsWhitespace(s[|s| - 1]) then TrimEnd(s[..|s| - 1]) else s
  }

  function Trim(s: string): string {
    TrimEnd(TrimStart(s))
  }

  predicate IsBlank(s: string) {
    Trim(s) == []
  }

  /** The 25 code points with the White_Space property. */
  const WHITE_SPACE: seq<int> :=
    [9, 10, 11, 12, 13, 32, 133, 160, 5760, 8192, 8193, 8194, 8195, 8196, 8197, 8198, 8199, 8200, 8201, 8202,
     8232, 8233, 8239, 8287, 12288]

  lemma WhitespaceExactly(c: char)
    ensures IsWhitespace(c) <==> c as int in WHITE_SPACE
  {
  }

  predicate AllTrimmed(s: string) {
    forall k :: 0 <= k < |s| ==> IsWhitespace(s[k])
  }

  lemma {:induction false} TrimStartExactly(s: string) returns (i: nat)
    ensures i <= |s| && TrimStart(s) == s[i..] && AllTrimmed(s[..i])
    ensures i < |s| ==> !IsWhitespace(s[i])
    decreases |s|
  {
    if s == [] || !IsWhitespace(s[0]) {
      i := 0;
    } else {
      var j := TrimStartExactly(s[1..]);
      i := j + 1;
      assert s[..i] == [s[0]] + s[1..][..j];
    }
  }

  lemma {:induction false} TrimEndExactly(s: string) returns (j: nat)
    ensures j <= |s| && TrimEnd(s) == s[..j] && AllTrimmed(s[j..])
    ensures j > 0 ==> !IsWhitespace(s[j - 1])
    decreases |s|
  {
    if s == [] || !IsWhitespace(s[|s| - 1]) {
      j := |s|;
    } else {
      var init := s[..|s| - 1];
      j := TrimEndExactly(init);
      assert s[..j] == init[..j];
      assert s[j..] == init[j..] + [s[|s| - 1]];
    }
  }

  /** Trimming cuts white space off both ends and nothing else. */
  lemma TrimExactly(s: string) returns (i: nat, j: nat)
    ensures i <= j <= |s| && Trim(s) == s[i..j]
    ensures forall k :: 0 <= k < i || j <= k < |s| ==> s[k] as int in WHITE_SPACE
    ensures i < j ==> s[i] as int !in WHITE_SPACE && s[j - 1] as int !in WHITE_SPACE
  {
    i := TrimStartExactly(s);
    var rest := s[i..];
    var n := TrimEndExactly(rest);
    j := i + n;
    assert rest[..n] == s[i..j];
    forall k | 0 <= k < i || j <= k < |s| ensures s[k] as int in WHITE_SPACE {
      assert if k < i then s[..i][k] == s[k] else rest[n..][k - j] == s[k];
      WhitespaceExactly(s[k]);
    }
    if i < j {
      WhitespaceExactly(s[i]);
      WhitespaceExactly(s[j - 1]);
    }
  }

  /** A text is blank exactly when it is white space throughout. */
  lemma BlankExactly(s: string)
    ensures IsBlank(s) <==> forall k :: 0 <= k < |s| ==> s[k] as int in WHITE_SPACE
  {
    var i, j := TrimExactly(s);
  }

  /** The number of bytes of a string's UTF-8 form, which is what `len` counts. */
  function ByteLength(s: string): nat {
    if s == [] then 0
    else
      var n := s[0] as int;
      (if n < 0x80 then 1 else if n < 0x800 then 2 else if n < 0x1_0000 then 3 else 4)
      + ByteLength(s[1..])
  }

  lemma {:induction false} ByteLengthAtLeastLength(s: string)
    ensures ByteLength(s) >= |s|
  {
    if s == [] {
    } else {
      ByteLengthAtLeastLength(s[1..]);
    }
  }

  function CountFrom(s: string, n: int): nat {
    if s == [] then 0 else (if s[0] as int >= n then 1 else 0) + CountFrom(s[1..], n)
  }

  /** One byte a character, one more from U+0080, U+0800 and U+10000 on. */
  lemma {:induction false} ByteLengthExactly(s: string)
    ensures ByteLength(s) == |s| + CountFrom(s, 0x80) + CountFrom(s, 0x800) + CountFrom(s, 0x1_0000)
  {
    if s == [] {
    } else {
      ByteLengthExactly(s[1..]);
    }
  }

  /** `to_ascii_lowercase`, and the key of `eq_ignore_ascii_case`. */
  function LowerAscii(s: string): string {
    seq(|s|, i requires 0 <= i < |s| =>
      if 'A' <= s[i] <= 'Z' then (s[i] as int - 'A' as int + 'a' as int) as char else s[i])
  }

  /** Equal, or the same ASCII letter as a capital and as a small letter. */
  predicate SameLetter(a: char, b: char) {
    || a == b
    || (65 <= a as int <= 90 && b as int == a as int + 32)
    || (65 <= b as int <= 90 && a as int == b as int + 32)
  }

  predicate SameIgnoringCase(s: string, t: string) {
    |s| == |t| && forall i :: 0 <= i < |s| ==> SameLetter(s[i], t[i])
  }

  /** Lower-casing changes nothing but the case of ASCII letters, and leaves no capital. */
  lemma LowerAsciiExactly(s: string)
    ensures SameIgnoringCase(LowerAscii(s), s)
    ensures forall i :: 0 <= i < |s| ==> !(65 <= LowerAscii(s)[i] as int <= 90)
  {
  }

  /** Comparing lower-cased texts is comparing letter by letter regardless of ASCII case. */
  lemma SameIgnoringCaseExactly(s: string, t: string)
    ensures LowerAscii(s) == LowerAscii(t) <==> SameIgnoringCase(s, t)
  {
    if LowerAscii(s) == LowerAscii(t) {
      assert |LowerAscii(s)| == |s| && |LowerAscii(t)| == |t|;
      forall i | 0 <= i < |s| ensures SameLetter(s[i], t[i]) {
        assert LowerAscii(s)[i] == LowerAscii(t)[i];
      }
    }
  }

  // ---------------------------------------------------------- decimal counter

  const U64_MAX: nat := 0xFFFF_FFFF_FFFF_FFFF

  function DecimalDigit(d: nat): char
    requires d < 10
  {
    ('0' as int + d) as char
  }

  function DigitValue(c: char): Option<nat> {
    if '0' <= c <= '9' then Some(c as int - '0' as int) else None
  }

  /** `u64::to_string`. */
  function PrintDecimal(n: nat): string {
    if n < 10 then [DecimalDigit(n)] else PrintDecimal(n / 10) + [DecimalDigit(n % 10)]
  }

  /** Digits are consumed left to right with overflow checked at every step. */
  function ParseDigits(s: string, acc: nat): Option<nat> {
    if s == [] then Some(acc)
    else
      match DigitValue(s[0])
      case None => None
      case Some(d) =>
        var next := acc * 10 + d;
        if next > U64_MAX then None else ParseDigits(s[1..], next)
  }

  /** `str::parse::<u64>`: one leading '+' is allowed, an empty digit string is not. */
  function ParseU64(s: string): Option<nat> {
    var digits := if s != [] && s[0] == '+' then s[1..] else s;
    if digits == [] then None else ParseDigits(digits, 0)
  }

  lemma {:induction false} ParseDigitsAppend(s: string, c: char, acc: nat)
    ensures ParseDigits(s + [c], acc)
         == match ParseDigits(s, acc)
            case None => None
            case Some(v) => ParseDigits([c], v)
  {
    if s == [] {
      assert s + [c] == [c];
    } else {
      assert (s + [c])[1..] == s[1..] + [c];
      match DigitValue(s[0])
      case None =>
      case Some(d) =>
        if acc * 10 + d <= U64_MAX {
          ParseDigitsAppend(s[1..], c, acc * 10 + d);
        }
    }
  }

  lemma {:induction false} PrintedDigitsParse(n: nat)
    requires n <= U64_MAX
    ensures PrintDecimal(n) != []
    ensures forall i :: 0 <= i < |PrintDecimal(n)| ==> '0' <= PrintDecimal(n)[i] <= '9'
    ensures ParseDigits(PrintDecimal(n), 0) == Some(n)
  {
    if n < 10 {
      assert PrintDecimal(n)[1..] == [];
    } else {
      PrintedDigitsParse(n / 10);
      ParseDigitsAppend(PrintDecimal(n / 10), DecimalDigit(n % 10), 0);
      assert [DecimalDigit(n % 10)][1..] == [];
    }
  }

  lemma {:induction false} TrimKeepsSolidText(s: string)
    requires s != [] && !IsWhitespace(s[0]) && !IsWhitespace(s[|s| - 1])
    ensures Trim(s) == s
  {
  }

  /** What the counter file is written with is what the next start reads back. */
  lemma CounterRoundTrip(n: nat)
    requires n <= 18_446_744_073_709_551_615
    ensures ParseU64(Trim(PrintDecimal(n))) == Some(n)
  {
    PrintedDigitsParse(n);
    TrimKeepsSolidText(PrintDecimal(n));
  }

  lemma {:induction false} ParseDigitsBounded(s: string, acc: nat)
    requires acc <= U64_MAX
    ensures ParseDigits(s, acc).Some? ==> ParseDigits(s, acc).value <= U64_MAX
  {
    if s != [] {
      match DigitValue(s[0])
      case None =>
      case Some(d) =>
        if acc * 10 + d <= U64_MAX {
          ParseDigitsBounded(s[1..], acc * 10 + d);
        }
    }
  }

  predicate AllDigits(s: string) {
    forall i :: 0 <= i < |s| ==> 48 <= s[i] as int <= 57
  }

  /** The number a decimal text denotes. */
  function DecimalValue(s: string): (n: nat)
    requires AllDigits(s)
  {
    if s == [] then 0 else DecimalValue(s[..|s| - 1]) * 10 + (s[|s| - 1] as int - 48)
  }

  lemma {:induction false} ParseDigitsExactly(s: string)
    ensures ParseDigits(s, 0)
         == if AllDigits(s) && DecimalValue(s) <= 18_446_744_073_709_551_615 then Some(DecimalValue(s)) else None
  {
    if s == [] {
    } else {
      var init, last := s[..|s| - 1], s[|s| - 1];
      assert s == init + [last];
      ParseDigitsExactly(init);
      ParseDigitsAppend(init, last, 0);
      assert [last][1..] == [];
    }
  }

  /** A u64 is read from exactly the nonempty digit texts in range, with or without a plus sign. */
  lemma ParseU64Exactly(s: string)
    ensures var digits := if s != [] && s[0] == '+' then s[1..] else s;
            ParseU64(s) ==
            if digits != [] && AllDigits(digits) && DecimalValue(digits) <= 18_446_744_073_709_551_615
            then Some(DecimalValue(digits)) else None
  {
    ParseDigitsExactly(if s != [] && s[0] == '+' then s[1..] else s);
  }

  // ------------------------------------------------------------ hexadecimal

  type Byte = n: int | 0 <= n < 256

  function HexDigit(v: nat): char
    requires v < 16
  {
    if v < 10 then ('0' as int + v) as char else ('a' as int + (v - 10)) as char
  }

  function HexValue(c: char): Option<nat> {
    if '0' <= c <= '9' then Some(c as int - '0' as int)
    else if 'a' <= c <= 'f' then Some(c as int - 'a' as int + 10)
    else if 'A' <= c <= 'F' then Some(c as int - 'A' as int + 10)
    else None
  }

  /** `{byte:02x}` for every byte, concatenated. */
  function HexPrint(bytes: seq<Byte>): string {
    if bytes == [] then [] else [HexDigit(bytes[0] / 16), HexDigit(bytes[0] % 16)] + HexPrint(bytes[1..])
  }

  /** `u8::from_str_radix` on two characters: the first may be a '+' sign. */
  function HexPair(a: char, b: char): Option<Byte> {
    match HexValue(b)
    case None => None
    case Some(low) =>
      if a == '+' then Some(low)
      else
        match HexValue(a)
        case None => None
        case Some(high) => Some(16 * high + low)
  }

  function HexPairs(s: string): Option<seq<Byte>>
    requires |s| % 2 == 0
  {
    if s == [] then Some([])
    else
      match HexPair(s[0], s[1])
      case None => None
      case Some(b) =>
        match HexPairs(s[2..])
        case None => None
        case Some(rest) => Some([b] + rest)
  }

  function HexToBytes(s: string): Option<seq<Byte>> {
    if s == [] || |s| % 2 != 0 then None else HexPairs(s)
  }

  /** The number a big-endian byte string denotes. */
  function Value(bytes: seq<Byte>): nat {
    if bytes == [] then 0 else Value(bytes[..|bytes| - 1]) * 256 + bytes[|bytes| - 1]
  }

  /** `BigUint::to_bytes_be`: no leading zero byte, except that zero is one zero byte. */
  function ToBytesBe(n: nat): seq<Byte> {
    if n < 256 then [n] else ToBytesBe(n / 256) + [n % 256]
  }

  /** Contents of the DER INTEGER for a nonnegative number (section 8.3 of X.690):
      a zero byte is put in front when the top bit would read as a sign. */
  function DerInteger(n: nat): seq<Byte> {
    var bytes := ToBytesBe(n);
    if bytes != [] && bytes[0] >= 128 then [0] + bytes else bytes
  }

  /** The serial text that issuance stores. */
  function StoredSerial(n: nat): string {
    HexPrint(ToBytesBe(n))
  }

  /** The serial text of a client identity, taken from the raw certificate bytes. */
  function RawSerial(n: nat): string {
    HexPrint(DerInteger(n))
  }

  lemma {:induction false} HexPrintLength(bytes: seq<Byte>)
    ensures |HexPrint(bytes)| == 2 * |bytes|
  {
    if bytes != [] {
      HexPrintLength(bytes[1..]);
    }
  }

  lemma {:induction false} HexPairsInvertsPrint(bytes: seq<Byte>)
    ensures |HexPrint(bytes)| % 2 == 0 && HexPairs(HexPrint(bytes)) == Some(bytes)
  {
    HexPrintLength(bytes);
    if bytes != [] {
      HexPairsInvertsPrint(bytes[1..]);
      assert HexPrint(bytes)[2..] == HexPrint(bytes[1..]);
      assert bytes == [bytes[0]] + bytes[1..];
    }
  }

  lemma {:induction false} ToBytesBeValue(n: nat)
    ensures ToBytesBe(n) != [] && Value(ToBytesBe(n)) == n
    ensures ToBytesBe(n)[0] == 0 <==> n == 0
  {
    if n < 256 {
      assert ToBytesBe(n)[..0] == [];
      assert Value([n]) == Value([n][..0]) * 256 + n;
    } else {
      ToBytesBeValue(n / 256);
      var bytes := ToBytesBe(n);
      assert bytes[..|bytes| - 1] == ToBytesBe(n / 256);
    }
  }

  lemma {:induction false} ValueIgnoresLeadingZero(bytes: seq<Byte>)
    ensures Value([0] + bytes) == Value(bytes)
  {
    if bytes == [] {
      assert ([0] + bytes)[..0] == [];
    } else {
      var all := [0] + bytes;
      assert all[..|all| - 1] == [0] + bytes[..|bytes| - 1];
      ValueIgnoresLeadingZero(bytes[..|bytes| - 1]);
    }
  }

  /** The serial stored at issuance is the serial the CRL builder decodes, for every
      serial number, and different numbers are never spelled alike. */
  lemma StoredSerialRoundTrip(n: nat)
    ensures HexToBytes(StoredSerial(n)) == Some(ToBytesBe(n))
    ensures Value(HexToBytes(StoredSerial(n)).value) == n
  {
    ToBytesBeValue(n);
    HexPrintLength(ToBytesBe(n));
    HexPairsInvertsPrint(ToBytesBe(n));
  }

  lemma StoredSerialInjective(m: nat, n: nat)
    requires StoredSerial(m) == StoredSerial(n)
    ensures m == n
  {
    StoredSerialRoundTrip(m);
    StoredSerialRoundTrip(n);
  }

  /** The raw spelling denotes the same integer, but it is the same text exactly
      when the leading byte leaves the sign bit clear. */
  lemma RawSerialDenotesSameNumber(n: nat)
    ensures HexToBytes(RawSerial(n)) == Some(DerInteger(n))
    ensures Value(DerInteger(n)) == n
    ensures RawSerial(n) == StoredSerial(n) <==> ToBytesBe(n)[0] < 128
  {
    ToBytesBeValue(n);
    ValueIgnoresLeadingZero(ToBytesBe(n));
    HexPrintLength(DerInteger(n));
    HexPrintLength(ToBytesBe(n));
    HexPairsInvertsPrint(DerInteger(n));
  }

  predicate LowerHex(s: string) {
    forall i :: 0 <= i < |s| ==> '0' <= s[i] <= '9' || 'a' <= s[i] <= 'f'
  }

  lemma LowerHexPair(a: char, b: char)
    requires LowerHex([a, b])
    ensures HexPair(a, b).Some?
    ensures HexDigit(HexPair(a, b).value / 16) == a && HexDigit(HexPair(a, b).value % 16) == b
  {
    assert [a, b][0] == a && [a, b][1] == b;
  }

  /** Decoding then printing gives the text back for every even, nonempty lower-case
      hexadecimal string. */
  lemma {:induction false} LowerHexRoundTrip(s: string)
    requires |s| % 2 == 0 && LowerHex(s)
    ensures HexPairs(s).Some? && HexPrint(HexPairs(s).value) == s
  {
    if s != [] {
      assert s == [s[0], s[1]] + s[2..];
      assert LowerHex([s[0], s[1]]) && LowerHex(s[2..]);
      LowerHexPair(s[0], s[1]);
      LowerHexRoundTrip(s[2..]);
      var b, rest := HexPair(s[0], s[1]).value, HexPairs(s[2..]).value;
      assert ([b] + rest)[1..] == rest;
    }
  }

  /** The character is this hexadecimal digit, small or capital. */
  predicate Spells(c: char, digit: nat)
    requires digit < 16
  {
    c == "0123456789abcdef"[digit] || c == "0123456789ABCDEF"[digit]
  }

  /** Two hexadecimal digits, or a plus sign and one. */
  predicate PairSpells(a: char, b: char, v: Byte) {
    Spells(b, v % 16) && (Spells(a, v / 16) || (a == '+' && v < 16))
  }

  lemma HexValueExactly(c: char, digit: nat)
    requires digit < 16
    ensures HexValue(c) == Some(digit) <==> Spells(c, digit)
    ensures HexValue(c).Some? ==> HexValue(c).value < 16
  {
  }

  lemma HexPairExactly(a: char, b: char, v: Byte)
    ensures HexPair(a, b) == Some(v) <==> PairSpells(a, b, v)
  {
    HexValueExactly(b, v % 16);
    HexValueExactly(a, v / 16);
  }

  /** Pair by pair the text spells the bytes. */
  predicate AllSpell(s: string, bytes: seq<Byte>)
    requires |s| == 2 * |bytes|
  {
    forall i :: 0 <= i < |bytes| ==> PairSpells(s[2 * i], s[2 * i + 1], bytes[i])
  }

  lemma AllSpellSplits(s: string, bytes: seq<Byte>)
    requires |s| == 2 * |bytes| && s != []
    ensures AllSpell(s, bytes) <==> PairSpells(s[0], s[1], bytes[0]) && AllSpell(s[2..], bytes[1..])
  {
    if AllSpell(s, bytes) {
      assert PairSpells(s[2 * 0], s[2 * 0 + 1], bytes[0]);
      forall i | 0 <= i < |bytes[1..]| ensures PairSpells(s[2..][2 * i], s[2..][2 * i + 1], bytes[1..][i]) {
        assert PairSpells(s[2 * (i + 1)], s[2 * (i + 1) + 1], bytes[i + 1]);
      }
    }
    if PairSpells(s[0], s[1], bytes[0]) && AllSpell(s[2..], bytes[1..]) {
      forall i | 0 <= i < |bytes| ensures PairSpells(s[2 * i], s[2 * i + 1], bytes[i]) {
        if i > 0 {
          assert PairSpells(s[2..][2 * (i - 1)], s[2..][2 * (i - 1) + 1], bytes[1..][i - 1]);
        }
      }
    }
  }

  lemma {:induction false} HexPairsExactly(s: string, bytes: seq<Byte>)
    requires |s| == 2 * |bytes|
    ensures HexPairs(s) == Some(bytes) <==> AllSpell(s, bytes)
    decreases |s|
  {
    if s == [] {
    } else {
      AllSpellSplits(s, bytes);
      HexPairExactly(s[0], s[1], bytes[0]);
      HexPairsExactly(s[2..], bytes[1..]);
      assert bytes == [bytes[0]] + bytes[1..];
    }
  }

  lemma {:induction false} HexPairsLength(s: string)
    requires |s| % 2 == 0 && HexPairs(s).Some?
    ensures |s| == 2 * |HexPairs(s).value|
  {
    if s != [] {
      HexPairsLength(s[2..]);
    }
  }

  /** A text decodes to these bytes exactly when it is nonempty and each pair of characters spells
      one of them: two hexadecimal digits of either case, or a plus sign and one digit. */
  lemma HexToBytesExactly(s: string, bytes: seq<Byte>)
    ensures HexToBytes(s) == Some(bytes) <==>
              s != [] && |s| == 2 * |bytes| && AllSpell(s, bytes)
  {
    if HexToBytes(s).Some? {
      HexPairsLength(s);
    }
    if |s| == 2 * |bytes| {
      HexPairsExactly(s, bytes);
    }
  }

  lemma {:induction false} PrintIsLowerHex(bytes: seq<Byte>)
    ensures LowerHex(HexPrint(bytes))
  {
    if bytes != [] {
      PrintIsLowerHex(bytes[1..]);
    }
  }

  /** Printing gives a decodable text back exactly when it was lower-case hexadecimal:
      capitals and a plus sign, which the decoder takes too, do not come back. */
  lemma TextRoundTripsExactly(s: string)
    requires HexToBytes(s).Some?
    ensures HexPrint(HexToBytes(s).value) == s <==> LowerHex(s)
  {
    PrintIsLowerHex(HexToBytes(s).value);
    if LowerHex(s) {
      LowerHexRoundTrip(s);
    }
  }

  /** A signed pair decodes, to its digit alone. */
  lemma SignedPairDecodes(c: char)
    requires HexValue(c).Some?
    ensures HexToBytes(['+', c]) == Some([HexValue(c).value]) && !LowerHex(['+', c])
  {
    var s := ['+', c];
    assert s[0] == '+' && s[1] == c && s[2..] == [];
    assert HexPairs(s[2..]) == Some([]);
    assert HexPair(s[0], s[1]) == Some(HexValue(c).value);
    var b: Byte := HexValue(c).value;
    assert [b] + [] == [b];
  }
}
