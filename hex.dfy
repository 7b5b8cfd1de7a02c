/** Hex decoding of cell values: `decode_byte` (rust/cubestore/src/sql/mod.rs)
    and the pairwise decoding that `Vec::from_hex` performs on a hex string
    literal such as X'deADbeef'. Both work on the UTF-8 bytes of the text. */
module Hex {
  import opened Wrappers
  import opened Text

  /** The `decode_char` closure: the value of one ASCII hex digit, either case. */
  function DecodeHexDigit(c: Byte): (r: Option<Byte>)
    ensures r.Some? <==> (48 <= c <= 57 || 65 <= c <= 70 || 97 <= c <= 102)
    ensures r.Some? ==> r.value < 16
  {
    if 97 <= c <= 102 then Some(10 + c - 97)
    else if 65 <= c <= 70 then Some(10 + c - 65)
    else if 48 <= c <= 57 then Some(c - 48)
    else None
  }

  predicate IsHexDigit(c: char) {
    '0' <= c <= '9' || 'a' <= c <= 'f' || 'A' <= c <= 'F'
  }

  /** The digit value of a hex digit character, as a reader would state it. */
  function HexValue(c: char): (r: nat)
    requires IsHexDigit(c)
    ensures r < 16
  {
    if '0' <= c <= '9' then c as int - '0' as int
    else if 'a' <= c <= 'f' then c as int - 'a' as int + 10
    else c as int - 'A' as int + 10
  }

  /** `decode_byte`: exactly two bytes, each a hex digit, give `16 * hi + lo`. */
  function DecodeByte(s: string): Option<Byte> {
    var v := Utf8String(s);
    if |v| != 2 then None
    else
      var v0 :- DecodeHexDigit(v[0]);
      var v1 :- DecodeHexDigit(v[1]);
      Some(v0 * 16 + v1)
  }

  /** `decode_byte` succeeds exactly on two ASCII hex digits (either case)
      and then yields 16 * hi + lo. */
  lemma DecodeByteSpec(s: string)
    ensures DecodeByte(s).Some? <==> |s| == 2 && IsHexDigit(s[0]) && IsHexDigit(s[1])
    ensures DecodeByte(s).Some? ==> DecodeByte(s).value == 16 * HexValue(s[0]) + HexValue(s[1])
  {
    var v := Utf8String(s);
    if |s| == 2 && s[0] as int < 0x80 && s[1] as int < 0x80 {
      assert IsAscii(s);
      Utf8StringAscii(s);
      assert v == [s[0] as int, s[1] as int];
    }
    if DecodeByte(s).Some? {
      Utf8TwoAsciiBytes(s);
    }
  }

  const Digits: string := "0123456789abcdef"

  /** Two lower-case hex digits, high nibble first. */
  function EncodeByte(b: Byte): (r: string)
    ensures |r| == 2
  {
    [Digits[b / 16], Digits[b % 16]]
  }

  lemma DigitsAt(k: nat)
    requires k < 16
    ensures IsHexDigit(Digits[k]) && HexValue(Digits[k]) == k
    ensures 'A' <= Digits[k] <= 'Z' ==> false
  {
  }

  /** Decoding inverts two-digit hex encoding. */
  lemma DecodeEncodeByte(b: Byte)
    ensures DecodeByte(EncodeByte(b)) == Some(b)
  {
    var s := EncodeByte(b);
    DigitsAt(b / 16);
    DigitsAt(b % 16);
    DecodeByteSpec(s);
  }

  /** Every string `decode_byte` accepts is the encoding of its result,
      once upper-case digits are lowered. */
  lemma EncodeDecodeByte(s: string)
    requires DecodeByte(s).Some?
    ensures ToLower(s) == EncodeByte(DecodeByte(s).value)
  {
    DecodeByteSpec(s);
    var b := DecodeByte(s).value;
    var hi, lo := HexValue(s[0]), HexValue(s[1]);
    assert b / 16 == hi && b % 16 == lo;
    DigitLower(s[0]);
    DigitLower(s[1]);
  }

  lemma DigitLower(c: char)
    requires IsHexDigit(c)
    ensures AsciiLower(c) == Digits[HexValue(c)]
  {
  }

  /** The error `from_hex` reports. */
  datatype HexError = OddLength | InvalidHexCharacter(c: Byte, index: nat)

  /** `Vec::<u8>::from_hex`: an odd length is rejected first; otherwise each
      pair of bytes is one output byte, and the first non-digit is reported
      with its position. */
  function FromHex(v: seq<Byte>): (r: Result<seq<Byte>, HexError>)
    ensures r == Err(OddLength) <==> |v| % 2 != 0
    ensures r.Ok? ==> 2 * |r.value| == |v|
    ensures r.Err? && r.error.InvalidHexCharacter? ==>
              r.error.index < |v| && v[r.error.index] == r.error.c && DecodeHexDigit(r.error.c).None?
  {
    if |v| % 2 != 0 then Err(OddLength) else FromHexPairs(v, 0)
  }

  /** Decodes consecutive pairs; `FromHex` calls it on even-length input only,
      so a lone trailing byte never reaches it. */
  function FromHexPairs(v: seq<Byte>, offset: nat): (r: Result<seq<Byte>, HexError>)
    ensures r.Ok? ==> |r.value| == |v| / 2
    ensures r.Err? ==> r.error.InvalidHexCharacter? && offset <= r.error.index < offset + |v|
    ensures r.Err? ==> v[r.error.index - offset] == r.error.c && DecodeHexDigit(r.error.c).None?
    decreases |v|
  {
    if |v| < 2 then Ok([])
    else
      var hi := DecodeHexDigit(v[0]);
      var lo := DecodeHexDigit(v[1]);
      if hi.None? then Err(InvalidHexCharacter(v[0], offset))
      else if lo.None? then Err(InvalidHexCharacter(v[1], offset + 1))
      else
        match FromHexPairs(v[2..], offset + 2)
        case Err(e) => Err(e)
        case Ok(rest) => Ok([hi.value * 16 + lo.value] + rest)
  }

  function ToHex(bytes: seq<Byte>): (r: string)
    ensures |r| == 2 * |bytes| && IsAscii(r)
  {
    if bytes == [] then [] else EncodeByte(bytes[0]) + ToHex(bytes[1..])
  }

  /** The ASCII code of hex digit `k`. */
  function DigitByte(k: nat): (r: Byte)
    requires k < 16
    ensures r == Digits[k] as int
  {
    Digits[k] as int
  }

  /** The UTF-8 bytes of `ToHex(bytes)`. */
  function HexBytes(bytes: seq<Byte>): (r: seq<Byte>)
    ensures |r| == 2 * |bytes|
  {
    if bytes == [] then []
    else [Digits[bytes[0] / 16] as int, Digits[bytes[0] % 16] as int] + HexBytes(bytes[1..])
  }

  lemma EncodeByteBytes(b: Byte)
    ensures Utf8String(EncodeByte(b)) == [DigitByte(b / 16), DigitByte(b % 16)]
  {
    var e := EncodeByte(b);
    DigitsAt(b / 16);
    DigitsAt(b % 16);
    assert Utf8String(e) == Utf8(e[0]) + Utf8String(e[1..]);
    assert Utf8String(e[1..]) == Utf8(e[1]) + Utf8String(e[2..]);
  }

  lemma {:induction false} Utf8ToHex(bytes: seq<Byte>)
    ensures Utf8String(ToHex(bytes)) == HexBytes(bytes)
  {
    if bytes != [] {
      var e := EncodeByte(bytes[0]);
      assert ToHex(bytes) == e + ToHex(bytes[1..]);
      Utf8StringAppend(e, ToHex(bytes[1..]));
      EncodeByteBytes(bytes[0]);
      Utf8ToHex(bytes[1..]);
    }
  }

  lemma DigitCode(k: nat)
    requires k < 16
    ensures DecodeHexDigit(DigitByte(k)) == Some(k)
  {
  }

  lemma {:induction false} FromHexPairsHexBytes(bytes: seq<Byte>, offset: nat)
    ensures FromHexPairs(HexBytes(bytes), offset) == Ok(bytes)
  {
    if bytes != [] {
      var hi, lo := bytes[0] / 16, bytes[0] % 16;
      DigitCode(hi);
      DigitCode(lo);
      FromHexPairsHexBytes(bytes[1..], offset + 2);
      FromHexPairsCons(DigitByte(hi), DigitByte(lo), HexBytes(bytes[1..]), offset, bytes[1..]);
      DivMod16(bytes[0]);
      assert [bytes[0]] + bytes[1..] == bytes;
    }
  }

  lemma DivMod16(b: Byte)
    ensures 16 * (b / 16) + b % 16 == b
  {
  }

  lemma FromHexHexBytes(bytes: seq<Byte>)
    ensures FromHex(HexBytes(bytes)) == Ok(bytes)
  {
    var v := HexBytes(bytes);
    EvenDouble(|bytes|);
    assert |v| % 2 == 0;
    FromHexPairsHexBytes(bytes, 0);
  }

  lemma EvenDouble(n: nat)
    ensures (2 * n) % 2 == 0
  {
  }

  /** A hex literal written with `ToHex` decodes back to its bytes. */
  lemma FromHexToHex(bytes: seq<Byte>)
    ensures FromHex(Utf8String(ToHex(bytes))) == Ok(bytes)
  {
    Utf8ToHex(bytes);
    FromHexHexBytes(bytes);
  }

  /** One step of `FromHexPairs` on a pair of valid digits. */
  lemma FromHexPairsCons(hi: Byte, lo: Byte, tail: seq<Byte>, offset: nat, rest: seq<Byte>)
    requires DecodeHexDigit(hi).Some? && DecodeHexDigit(lo).Some?
    requires FromHexPairs(tail, offset + 2) == Ok(rest)
    ensures FromHexPairs([hi, lo] + tail, offset) == Ok([16 * DecodeHexDigit(hi).value + DecodeHexDigit(lo).value] + rest)
  {
    assert ([hi, lo] + tail)[2..] == tail;
  }

  lemma DeadBeefBytes()
    ensures FromHex([100, 101, 65, 68, 98, 101, 101, 102]) == Ok([0xde, 0xad, 0xbe, 0xef])
  {
    assert DecodeHexDigit(101) == Some(14) && DecodeHexDigit(102) == Some(15);
    FromHexPairsCons(101, 102, [], 6, []);
    assert [101, 102] + [] == [101, 102] && [16 * 14 + 15] + [] == [0xef];
    assert DecodeHexDigit(98) == Some(11);
    FromHexPairsCons(98, 101, [101, 102], 4, [0xef]);
    assert [98, 101] + [101, 102] == [98, 101, 101, 102] && [16 * 11 + 14] + [0xef] == [0xbe, 0xef];
    assert DecodeHexDigit(65) == Some(10) && DecodeHexDigit(68) == Some(13);
    FromHexPairsCons(65, 68, [98, 101, 101, 102], 2, [0xbe, 0xef]);
    assert [65, 68] + [98, 101, 101, 102] == [65, 68, 98, 101, 101, 102];
    assert [16 * 10 + 13] + [0xbe, 0xef] == [0xad, 0xbe, 0xef];
    assert DecodeHexDigit(100) == Some(13);
    FromHexPairsCons(100, 101, [65, 68, 98, 101, 101, 102], 0, [0xad, 0xbe, 0xef]);
    assert [100, 101] + [65, 68, 98, 101, 101, 102] == [100, 101, 65, 68, 98, 101, 101, 102];
    assert [16 * 13 + 14] + [0xad, 0xbe, 0xef] == [0xde, 0xad, 0xbe, 0xef];
  }

  /** X'deADbeef' gives the four bytes de ad be ef. */
  lemma FromHexMixedCase()
    ensures FromHex(Utf8String("deADbeef")) == Ok([0xde, 0xad, 0xbe, 0xef])
  {
    Utf8StringAscii("deADbeef");
    assert Utf8String("deADbeef") == [100, 101, 65, 68, 98, 101, 101, 102];
    DeadBeefBytes();
  }
}
