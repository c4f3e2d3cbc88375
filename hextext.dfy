/** Character classes and the hex pair decoding shared by both versions of
    `HexToBytes`. A Dafny `char` stands for one C++ `char` of the
    configuration text (one byte); no text encoding is modelled. */
module HexText {

  import opened Engine

  /** C `isspace` in the "C" locale: space, and tab through carriage return. */
  predicate IsSpace(c: char)
  {
    c == ' ' || 9 <= c as int <= 13
  }

  /** C `isxdigit`. */
  predicate IsHexDigit(c: char)
  {
    ('0' <= c <= '9') || ('a' <= c <= 'f') || ('A' <= c <= 'F')
  }

  predicate AllHexDigits(h: string)
  {
    forall i :: 0 <= i < |h| ==> IsHexDigit(h[i])
  }

  /** Value of one hex digit, either case. */
  function HexValue(c: char): (v: nat)
    requires IsHexDigit(c)
    ensures v < 16
    ensures '0' <= c <= '9' ==> v == c as int - '0' as int
  {
    if '0' <= c <= '9' then c as int - '0' as int
    else if 'a' <= c <= 'f' then c as int - 'a' as int + 10
    else c as int - 'A' as int + 10
  }

  /** The value of the longest prefix of hex digits of `u`, after the value
      `acc` of the digits before it. */
  function DigitsValue(u: string, acc: nat): (v: nat)
    ensures acc <= v
    ensures u == [] || !IsHexDigit(u[0]) ==> v == acc
    ensures |u| <= 1 ==> v <= 16 * acc + 15
    ensures |u| <= 2 ==> v <= 256 * acc + 255
    decreases |u|
  {
    if u == [] || !IsHexDigit(u[0]) then acc
    else DigitsValue(u[1..], 16 * acc + HexValue(u[0]))
  }

  /** `strtol(pair, NULL, 16)` on a string of at most two characters: leading
      white space skipped, an optional sign, then as many hex digits as there
      are. In two characters a `0x` prefix is never followed by a digit, so
      it reads as the digit 0, and nothing overflows. */
  function Strtol16(pair: string): (v: int)
    requires |pair| <= 2
    ensures -15 <= v <= 255
    ensures v < 0 ==> '-' in pair
    ensures |pair| == 1 && IsHexDigit(pair[0]) ==> v == HexValue(pair[0])
  {
    var u := if pair != [] && IsSpace(pair[0]) then pair[1..] else pair;
    var u' := if u != [] && IsSpace(u[0]) then u[1..] else u;
    var neg := u' != [] && u'[0] == '-';
    var d := if u' != [] && (u'[0] == '-' || u'[0] == '+') then u'[1..] else u';
    var v: int := DigitsValue(d, 0);
    if neg then -v else v
  }

  /** `(uint8_t)strtol(pair, NULL, 16)`: the parsed value modulo 256. */
  function PairByte(pair: string): (b: byte)
    requires |pair| <= 2
    ensures 0 <= Strtol16(pair) ==> b as int == Strtol16(pair)
    ensures Strtol16(pair) < 0 ==> b as int == 256 + Strtol16(pair)
  {
    (Strtol16(pair) % 256) as byte
  }

  /** On hex digits the pair reads as its value: two digits as high and low
      nibble, a lone digit as itself. */
  lemma PairByteOfHexDigits(pair: string)
    requires 1 <= |pair| <= 2 && AllHexDigits(pair)
    ensures |pair| == 1 ==> PairByte(pair) as nat == HexValue(pair[0])
    ensures |pair| == 2 ==> PairByte(pair) as nat == 16 * HexValue(pair[0]) + HexValue(pair[1])
  {
    assert IsHexDigit(pair[0]) && !IsSpace(pair[0]) && pair[0] != '-' && pair[0] != '+';
    var v0 := HexValue(pair[0]);
    assert Strtol16(pair) == DigitsValue(pair, 0);
    assert DigitsValue(pair, 0) == DigitsValue(pair[1..], v0);
    if |pair| == 2 {
      assert IsHexDigit(pair[1..][0]);
      assert DigitsValue(pair[1..], v0) == DigitsValue([], 16 * v0 + HexValue(pair[1]));
    }
  }

  /** How `strtol` reads a pair that is not two hex digits: a leading
      white space character is skipped, a leading `-` negates (modulo 256),
      reading stops at the first character that is not a hex digit, and a
      pair that starts with none reads as 0. */
  lemma PairByteCases(pair: string)
    requires |pair| == 2
    ensures IsSpace(pair[0]) && IsHexDigit(pair[1]) ==> PairByte(pair) as nat == HexValue(pair[1])
    ensures pair[0] == '-' && IsHexDigit(pair[1]) ==> PairByte(pair) as nat == (256 - HexValue(pair[1])) % 256
    ensures IsHexDigit(pair[0]) && !IsHexDigit(pair[1]) ==> PairByte(pair) as nat == HexValue(pair[0])
    ensures !IsHexDigit(pair[0]) && !IsSpace(pair[0]) && pair[0] != '-' && pair[0] != '+' ==> PairByte(pair) == 0
  {
    var tail := pair[1..];
    assert tail[1..] == [];
    if IsHexDigit(pair[1]) {
      assert DigitsValue(tail, 0) == DigitsValue([], HexValue(pair[1]));
    }
    if IsHexDigit(pair[0]) {
      assert !IsSpace(pair[0]) && pair[0] != '-' && pair[0] != '+';
      assert DigitsValue(pair, 0) == DigitsValue(tail, HexValue(pair[0]));
    }
  }

  /** The characters of pair `k` of a text: `substr(2k, 2)`, which is a
      lone character at the end of a text of odd length. */
  function PairAt(h: string, k: nat): (pair: string)
    requires 2 * k < |h|
    ensures 1 <= |pair| <= 2
  {
    h[2 * k..Min(2 * k + 2, |h|)]
  }

  /** The bytes of a text read two characters at a time from the start
      (`substr(i, 2)` for `i = 0, 2, 4, ...`): `ceil(n/2)` bytes for `n`
      characters, byte `k` read from pair `k` by `PairByte`. */
  function DecodeHex(h: string): (bytes: seq<byte>)
    ensures |bytes| == (|h| + 1) / 2
  {
    seq((|h| + 1) / 2, k requires 0 <= k < (|h| + 1) / 2 => PairByte(PairAt(h, k)))
  }

  /** The upper-case hex digit of a value below 16. */
  function Digit(v: nat): (c: char)
    requires v < 16
    ensures IsHexDigit(c) && HexValue(c) == v
  {
    if v < 10 then ('0' as int + v) as char else ('A' as int + v - 10) as char
  }

  /** Hex text of a byte string, two digits per byte: a reference encoder
      of what a configuration author writes in a hex field. */
  function EncodeHex(bytes: seq<byte>): (h: string)
    ensures |h| == 2 * |bytes| && AllHexDigits(h)
  {
    if bytes == [] then []
    else [Digit(bytes[0] as nat / 16), Digit(bytes[0] as nat % 16)] + EncodeHex(bytes[1..])
  }

  /** Pair `k` of the encoding is the two digits of byte `k`. */
  lemma {:induction false} EncodeHexAt(bytes: seq<byte>, k: nat)
    requires k < |bytes|
    ensures PairAt(EncodeHex(bytes), k) == [Digit(bytes[k] as nat / 16), Digit(bytes[k] as nat % 16)]
    decreases k
  {
    var h := EncodeHex(bytes);
    var h' := EncodeHex(bytes[1..]);
    assert h == [Digit(bytes[0] as nat / 16), Digit(bytes[0] as nat % 16)] + h';
    if k > 0 {
      EncodeHexAt(bytes[1..], k - 1);
      assert PairAt(h, k) == PairAt(h', k - 1);
    }
  }

  /** Every byte string can be written as hex text that decodes back to it. */
  lemma HexRoundTrip(bytes: seq<byte>)
    ensures DecodeHex(EncodeHex(bytes)) == bytes
  {
    var h := EncodeHex(bytes);
    forall k | 0 <= k < |bytes| ensures DecodeHex(h)[k] == bytes[k] {
      EncodeHexAt(bytes, k);
      DigitsByte(bytes[k]);
    }
  }

  /** The two digits of a byte read back as that byte. */
  lemma DigitsByte(b: byte)
    ensures PairByte([Digit(b as nat / 16), Digit(b as nat % 16)]) == b
  {
    var pair := [Digit(b as nat / 16), Digit(b as nat % 16)];
    PairByteOfHexDigits(pair);
  }
}
