/** `generateResetCode`: four random bytes written as lower-case hexadecimal
    (Node's `Buffer.toString('hex')`). The random bytes are a parameter. */
module ResetCodes {
  import opened Options

  type Byte = b: int | 0 <= b < 256

  const HexAlphabet := "0123456789abcdef"

  predicate IsLowerHex(c: char) {
    '0' <= c <= '9' || 'a' <= c <= 'f'
  }

  function HexDigit(n: int): (c: char)
    requires 0 <= n < 16
    ensures IsLowerHex(c)
  {
    HexAlphabet[n]
  }

  /** The value of one lower-case hexadecimal digit; the inverse of `HexDigit`. */
  function HexValue(c: char): (n: int)
    requires IsLowerHex(c)
    ensures 0 <= n < 16 && HexDigit(n) == c
  {
    if c <= '9' then c as int - '0' as int else c as int - 'a' as int + 10
  }

  lemma HexValueOfDigit(n: int)
    requires 0 <= n < 16
    ensures HexValue(HexDigit(n)) == n
  {
  }

  /** `Buffer.toString('hex')`: two digits per byte, high half first. */
  function HexEncode(bytes: seq<Byte>): (s: string)
    ensures |s| == 2 * |bytes|
    ensures forall i :: 0 <= i < |s| ==> IsLowerHex(s[i])
  {
    if bytes == [] then ""
    else [HexDigit(bytes[0] / 16), HexDigit(bytes[0] % 16)] + HexEncode(bytes[1..])
  }

  /** Reading lower-case hexadecimal back into bytes; `None` for an odd length
      or a character outside `0-9a-f`. */
  function HexDecode(s: string): (r: Option<seq<Byte>>)
    ensures r.Some? ==> 2 * |r.value| == |s|
  {
    if s == [] then Some([])
    else if |s| == 1 || !IsLowerHex(s[0]) || !IsLowerHex(s[1]) then None
    else match HexDecode(s[2..])
      case None => None
      case Some(rest) => Some([HexValue(s[0]) * 16 + HexValue(s[1])] + rest)
  }

  /** Decoding undoes encoding. */
  lemma {:induction false} DecodeEncode(bytes: seq<Byte>)
    ensures HexDecode(HexEncode(bytes)) == Some(bytes)
  {
    if bytes != [] {
      var s := HexEncode(bytes);
      var hi, lo := bytes[0] / 16, bytes[0] % 16;
      assert s == [HexDigit(hi), HexDigit(lo)] + HexEncode(bytes[1..]);
      assert s[0] == HexDigit(hi) && s[1] == HexDigit(lo) && s[2..] == HexEncode(bytes[1..]);
      DecodeEncode(bytes[1..]);
      HexValueOfDigit(hi);
      HexValueOfDigit(lo);
      assert hi * 16 + lo == bytes[0];
      assert HexDecode(s) == Some([bytes[0]] + bytes[1..]);
      assert [bytes[0]] + bytes[1..] == bytes;
    }
  }

  /** A byte built from two hexadecimal digits splits back into them. */
  lemma SplitByte(hi: int, lo: int)
    requires 0 <= hi < 16 && 0 <= lo < 16
    ensures (hi * 16 + lo) / 16 == hi && (hi * 16 + lo) % 16 == lo
  {
  }

  /** Encoding undoes decoding: the only strings that decode are encodings. */
  lemma {:induction false} EncodeDecode(s: string)
    requires HexDecode(s).Some?
    ensures HexEncode(HexDecode(s).value) == s
  {
    if s != [] {
      var tail := s[2..];
      var rest := HexDecode(tail).value;
      EncodeDecode(tail);
      var hi, lo := HexValue(s[0]), HexValue(s[1]);
      SplitByte(hi, lo);
      var b: Byte := hi * 16 + lo;
      var bytes := [b] + rest;
      assert HexDecode(s).value == bytes;
      assert bytes[0] == b && bytes[1..] == rest;
      assert HexEncode(bytes) == [HexDigit(hi), HexDigit(lo)] + HexEncode(rest);
      assert s == [s[0], s[1]] + tail;
    }
  }

  /** Every string of lower-case hexadecimal digits of even length decodes. */
  lemma {:induction false} HexStringsDecode(s: string)
    requires |s| % 2 == 0
    requires forall i :: 0 <= i < |s| ==> IsLowerHex(s[i])
    ensures HexDecode(s).Some?
  {
    if s != [] {
      HexStringsDecode(s[2..]);
    }
  }

  /** `generateResetCode`, given the four bytes `crypto.randomBytes(4)` returned. */
  function GenerateResetCode(random: seq<Byte>): (code: string)
    requires |random| == 4
    ensures |code| == 8
    ensures forall i :: 0 <= i < |code| ==> IsLowerHex(code[i])
  {
    HexEncode(random)
  }

  /** Different random bytes give different codes. */
  lemma ResetCodeInjective(a: seq<Byte>, b: seq<Byte>)
    requires |a| == 4 && |b| == 4
    requires GenerateResetCode(a) == GenerateResetCode(b)
    ensures a == b
  {
    DecodeEncode(a);
    DecodeEncode(b);
  }

  /** The possible codes are exactly the 8-character lower-case hexadecimal strings. */
  lemma ResetCodeRange(code: string)
    ensures (exists random: seq<Byte> :: |random| == 4 && GenerateResetCode(random) == code)
        <==> (|code| == 8 && forall i :: 0 <= i < |code| ==> IsLowerHex(code[i]))
  {
    if |code| == 8 && forall i :: 0 <= i < |code| ==> IsLowerHex(code[i]) {
      HexStringsDecode(code);
      EncodeDecode(code);
      var random := HexDecode(code).value;
      assert GenerateResetCode(random) == code;
    }
  }
}
