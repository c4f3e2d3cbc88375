/** The text decoding of the current version (`src/patcher.cpp`): a
    configuration field is hex when it holds only hex digits and white space,
    and is then decoded two digits per byte after the white space is removed;
    any other field stands for its own characters. */
module PatcherText {

  import opened Engine
  import opened HexText

  /** `hex.erase(remove_if(..., isspace), ...)`: the text without its white
      space, the other characters kept in order. */
  function StripSpace(s: string): (t: string)
    ensures |t| <= |s|
    ensures forall i :: 0 <= i < |t| ==> !IsSpace(t[i])
  {
    if s == [] then []
    else (if IsSpace(s[0]) then [] else [s[0]]) + StripSpace(s[1..])
  }

  /** Removing white space distributes over concatenation. */
  lemma {:induction false} StripSpaceAppend(a: string, b: string)
    ensures StripSpace(a + b) == StripSpace(a) + StripSpace(b)
    decreases |a|
  {
    if a == [] {
      assert a + b == b;
    } else {
      assert (a + b)[0] == a[0];
      assert (a + b)[1..] == a[1..] + b;
      StripSpaceAppend(a[1..], b);
    }
  }

  /** Text without white space is left as it is. */
  lemma {:induction false} StripSpaceNoSpace(s: string)
    requires forall i :: 0 <= i < |s| ==> !IsSpace(s[i])
    ensures StripSpace(s) == s
    decreases |s|
  {
    if s != [] {
      StripSpaceNoSpace(s[1..]);
    }
  }

  /** What `IsThisStringAHexNumber` accepts: every character is a hex digit
      or white space (the empty text included). */
  predicate HexNumberText(s: string)
  {
    forall i :: 0 <= i < |s| ==> IsHexDigit(s[i]) || IsSpace(s[i])
  }

  /** A text is hex exactly when what is left of it without white space is
      all hex digits. */
  lemma {:induction false} HexNumberIff(s: string)
    ensures HexNumberText(s) <==> AllHexDigits(StripSpace(s))
    decreases |s|
  {
    if s != [] {
      HexNumberIff(s[1..]);
      var head := if IsSpace(s[0]) then [] else [s[0]];
      assert StripSpace(s) == head + StripSpace(s[1..]);
      if HexNumberText(s) {
        assert HexNumberText(s[1..]) by {
          forall i | 0 <= i < |s[1..]| ensures IsHexDigit(s[1..][i]) || IsSpace(s[1..][i]) {
            assert s[1..][i] == s[i + 1];
          }
        }
      }
      if AllHexDigits(StripSpace(s)) {
        assert AllHexDigits(StripSpace(s[1..])) by {
          forall i | 0 <= i < |StripSpace(s[1..])| ensures IsHexDigit(StripSpace(s[1..])[i]) {
            assert StripSpace(s)[|head| + i] == StripSpace(s[1..])[i];
          }
        }
        if !IsSpace(s[0]) {
          assert StripSpace(s)[0] == s[0];
        }
        forall i | 0 <= i < |s| ensures IsHexDigit(s[i]) || IsSpace(s[i]) {
          if i > 0 {
            assert s[i] == s[1..][i - 1];
          }
        }
      }
    }
  }

  /** `IsThisStringAHexNumber`: the scan that stops at the first character
      that is neither a hex digit nor white space. */
  method IsThisStringAHexNumber(str: string) returns (b: bool)
    ensures b <==> HexNumberText(str)
  {
    var i := 0;
    while i < |str|
      invariant 0 <= i <= |str|
      invariant forall k :: 0 <= k < i ==> IsHexDigit(str[k]) || IsSpace(str[k])
    {
      if !IsHexDigit(str[i]) && !IsSpace(str[i]) {
        return false;
      }
      i := i + 1;
    }
    return true;
  }

  /** `HexToBytes`: the white space removed, then one byte per `substr(i, 2)`
      read by `strtol`. */
  method HexToBytes(hex_: string) returns (bytes: seq<byte>)
    ensures bytes == DecodeHex(StripSpace(hex_))
  {
    var hex := StripSpace(hex_);
    bytes := [];
    var i := 0;
    while i < |hex|
      invariant i == 2 * |bytes| && i <= |hex| + 1
      invariant forall k :: 0 <= k < |bytes| ==> bytes[k] == PairByte(PairAt(hex, k))
    {
      var byteString := hex[i..Min(i + 2, |hex|)];
      assert byteString == PairAt(hex, |bytes|);
      bytes := bytes + [PairByte(byteString)];
      i := i + 2;
    }
  }

  /** A hex field decodes to `ceil(n/2)` bytes for its `n` digits, byte `k`
      holding digits `2k` and `2k+1` as high and low nibble (a trailing lone
      digit as a byte of its own value). */
  lemma HexFieldBytes(text: string)
    requires HexNumberText(text)
    ensures var h := StripSpace(text);
      var bytes := DecodeHex(h);
      AllHexDigits(h) && |bytes| == (|h| + 1) / 2 &&
      (forall k :: 0 <= k < |bytes| && 2 * k + 1 < |h| ==>
        bytes[k] as nat == 16 * HexValue(h[2 * k]) + HexValue(h[2 * k + 1])) &&
      (forall k :: 0 <= k < |bytes| && 2 * k + 1 == |h| ==> bytes[k] as nat == HexValue(h[2 * k]))
  {
    var h := StripSpace(text);
    HexNumberIff(text);
    forall k | 0 <= k < |DecodeHex(h)|
      ensures 2 * k + 1 < |h| ==> DecodeHex(h)[k] as nat == 16 * HexValue(h[2 * k]) + HexValue(h[2 * k + 1])
      ensures 2 * k + 1 == |h| ==> DecodeHex(h)[k] as nat == HexValue(h[2 * k])
    {
      var pair := PairAt(h, k);
      assert AllHexDigits(pair) by {
        forall j | 0 <= j < |pair| ensures IsHexDigit(pair[j]) {
          assert pair[j] == h[2 * k + j];
        }
      }
      PairByteOfHexDigits(pair);
    }
  }

  /** A C++ `char` of the configuration text as the byte it stores. */
  function CharByte(c: char): (b: byte)
    ensures c as int < 256 ==> b as int == c as int
    ensures b as int == c as int - 256 * (c as int / 256)
  {
    (c as int % 256) as byte
  }

  /** `StringToBytes`: the vector of the text's own bytes. */
  function StringToBytes(str: string): (bytes: seq<byte>)
    ensures |bytes| == |str|
    ensures forall i :: 0 <= i < |str| && str[i] as int < 256 ==> bytes[i] as int == str[i] as int
  {
    seq(|str|, i requires 0 <= i < |str| => CharByte(str[i]))
  }

  /** The text whose characters are the given bytes. */
  function BytesText(bytes: seq<byte>): string
  {
    seq(|bytes|, i requires 0 <= i < |bytes| => bytes[i] as int as char)
  }

  /** A text field stands for exactly its own bytes: every byte string is the
      decoding of some text, and a text of 8-bit characters is the text of
      its decoding. */
  lemma StringBytesRoundTrip(bytes: seq<byte>, str: string)
    requires forall i :: 0 <= i < |str| ==> str[i] as int < 256
    ensures StringToBytes(BytesText(bytes)) == bytes
    ensures BytesText(StringToBytes(str)) == str
  {
    assert forall i :: 0 <= i < |bytes| ==> CharByte(BytesText(bytes)[i]) == bytes[i];
    assert forall i :: 0 <= i < |str| ==> StringToBytes(str)[i] as int as char == str[i];
  }

  /** The decoding of a `search`, `replace` or `validate` field by
      `parse_json`: hex when the text is a hex number, its own bytes
      otherwise. */
  method FieldBytes(text: string) returns (bytes: seq<byte>)
    ensures HexNumberText(text) ==> bytes == DecodeHex(StripSpace(text))
    ensures !HexNumberText(text) ==> bytes == StringToBytes(text)
  {
    var hex := IsThisStringAHexNumber(text);
    if hex {
      bytes := HexToBytes(text);
    } else {
      bytes := StringToBytes(text);
    }
  }

  /** Hex text written by `EncodeHex`, with white space before and after
      it, is a hex field that decodes back to the bytes. */
  lemma FieldRoundTrip(bytes: seq<byte>, a: string, b: string)
    requires forall i :: 0 <= i < |a| ==> IsSpace(a[i])
    requires forall i :: 0 <= i < |b| ==> IsSpace(b[i])
    ensures HexNumberText(a + EncodeHex(bytes) + b)
    ensures DecodeHex(StripSpace(a + EncodeHex(bytes) + b)) == bytes
  {
    var h := EncodeHex(bytes);
    var t := a + h + b;
    StripPadded(a, h, b);
    StripHexDigits(h);
    HexNumberIff(t);
    HexRoundTrip(bytes);
  }

  /** Hex digits are not white space. */
  lemma StripHexDigits(h: string)
    requires AllHexDigits(h)
    ensures StripSpace(h) == h
  {
    assert forall i :: 0 <= i < |h| ==> !IsSpace(h[i]);
    StripSpaceNoSpace(h);
  }

  /** White space around a text strips away. */
  lemma StripPadded(a: string, h: string, b: string)
    requires forall i :: 0 <= i < |a| ==> IsSpace(a[i])
    requires forall i :: 0 <= i < |b| ==> IsSpace(b[i])
    ensures StripSpace(a + h + b) == StripSpace(h)
  {
    StripSpaceAppend(a + h, b);
    StripSpaceAppend(a, h);
    StripAllSpace(a);
    StripAllSpace(b);
    assert [] + StripSpace(h) + [] == StripSpace(h);
  }

  /** White space alone strips to nothing. */
  lemma {:induction false} StripAllSpace(s: string)
    requires forall i :: 0 <= i < |s| ==> IsSpace(s[i])
    ensures StripSpace(s) == []
    decreases |s|
  {
    if s != [] {
      StripAllSpace(s[1..]);
    }
  }
}
