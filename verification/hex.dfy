/**
  Commons Codec's `Hex.encodeHex(byte[])` with its lower-case alphabet:
  every byte becomes two characters, the high nibble first. `Decode` is a
  reference inverse showing that the hexadecimal form keeps every bit.
*/
module Hex {
  import opened JavaText
  import opened Wrappers

  /** One of '0'..'9' or 'a'..'f'. */
  predicate IsLowerHexDigit(u: CodeUnit)
  {
    '0' as int <= u <= '9' as int || 'a' as int <= u <= 'f' as int
  }

  /** The lower-case hexadecimal digit of a nibble. */
  function Digit(n: int): (u: CodeUnit)
    requires 0 <= n < 16
    ensures IsLowerHexDigit(u)
  {
    if n < 10 then '0' as int + n else 'a' as int + (n - 10)
  }

  /** The nibble a lower-case hexadecimal digit stands for. */
  function DigitValue(u: CodeUnit): (n: int)
    requires IsLowerHexDigit(u)
    ensures 0 <= n < 16 && Digit(n) == u
  {
    if u <= '9' as int then u - '0' as int else u - 'a' as int + 10
  }

  /** `new String(Hex.encodeHex(data))`. */
  function Encode(data: seq<Byte>): (r: JString)
    ensures |r| == 2 * |data|
    ensures forall i :: 0 <= i < |r| ==> IsLowerHexDigit(r[i])
  {
    if |data| == 0 then []
    else [Digit(data[0] / 16), Digit(data[0] % 16)] + Encode(data[1..])
  }

  /** Reads pairs of lower-case hexadecimal digits back into bytes; `None` on anything else. */
  function Decode(text: JString): Option<seq<Byte>>
  {
    if |text| == 0 then Some([])
    else if |text| == 1 || !IsLowerHexDigit(text[0]) || !IsLowerHexDigit(text[1]) then None
    else Prepend([DigitValue(text[0]) * 16 + DigitValue(text[1])], Decode(text[2..]))
  }

  /** Decoding the hexadecimal form of some bytes gives the bytes back. */
  lemma {:induction false} DecodeEncode(data: seq<Byte>)
    ensures Decode(Encode(data)) == Some(data)
  {
    if |data| != 0 {
      var b := data[0];
      var text := Encode(data);
      DecodeEncode(data[1..]);
      assert text[2..] == Encode(data[1..]);
      assert DigitValue(text[0]) * 16 + DigitValue(text[1]) == b;
      assert data == [b] + data[1..];
    }
  }

  /** Distinct byte strings have distinct hexadecimal forms. */
  lemma EncodeInjective(a: seq<Byte>, b: seq<Byte>)
    ensures Encode(a) == Encode(b) ==> a == b
  {
    DecodeEncode(a);
    DecodeEncode(b);
  }
}
