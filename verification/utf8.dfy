/**
  `String.getBytes("UTF-8")`: the bytes the key normaliser feeds to SHA-1.
  Java encodes each code unit outside the surrogate range as one to three
  bytes, a high surrogate followed by a low surrogate as the four bytes of
  the supplementary code point they form, and every unpaired surrogate as
  the replacement byte '?'. `Decode` is a strict reference decoder; the two
  round trips show that `Encode` is the one standard UTF-8 encoding of a
  well-formed string and that no information is lost on such strings.
*/
module Utf8 {
  import opened JavaText
  import opened Wrappers

  predicate IsHighSurrogate(u: CodeUnit) { 0xD800 <= u < 0xDC00 }

  predicate IsLowSurrogate(u: CodeUnit) { 0xDC00 <= u < 0xE000 }

  /** The byte Java's UTF-8 encoder writes for an unpaired surrogate: '?'. */
  const Replacement: Byte := '?' as int

  /** `Character.toCodePoint`: the supplementary code point a surrogate pair stands for. */
  function CodePoint(hi: CodeUnit, lo: CodeUnit): (cp: int)
    requires IsHighSurrogate(hi) && IsLowSurrogate(lo)
    ensures 0x1_0000 <= cp <= 0x10_FFFF
    ensures hi == 0xD800 + (cp - 0x1_0000) / 0x400 && lo == 0xDC00 + (cp - 0x1_0000) % 0x400
  {
    0x1_0000 + (hi - 0xD800) * 0x400 + (lo - 0xDC00)
  }

  /** The UTF-8 bytes of one code point. */
  function EncodeCodePoint(cp: int): (r: seq<Byte>)
    requires 0 <= cp <= 0x10_FFFF
    ensures 1 <= |r| <= 4
    ensures |r| == 1 <==> cp < 0x80
    ensures |r| <= 3 <==> cp < 0x1_0000
  {
    if cp < 0x80 then [cp]
    else if cp < 0x800 then [0xC0 + cp / 64, 0x80 + cp % 64]
    else if cp < 0x1_0000 then [0xE0 + cp / 4096, 0x80 + cp / 64 % 64, 0x80 + cp % 64]
    else [0xF0 + cp / 0x4_0000, 0x80 + cp / 4096 % 64, 0x80 + cp / 64 % 64, 0x80 + cp % 64]
  }

  /** The string has no unpaired surrogate, so every code unit belongs to a code point. */
  predicate WellFormed(s: JString)
    decreases |s|
  {
    if |s| == 0 then true
    else if IsHighSurrogate(s[0]) then |s| >= 2 && IsLowSurrogate(s[1]) && WellFormed(s[2..])
    else !IsLowSurrogate(s[0]) && WellFormed(s[1..])
  }

  /** `s.getBytes("UTF-8")`. */
  function Encode(s: JString): (r: seq<Byte>)
    ensures |s| <= |r| <= 3 * |s|
    ensures (forall i :: 0 <= i < |s| ==> s[i] < 0x80) ==>
              |r| == |s| && forall i :: 0 <= i < |s| ==> r[i] == s[i]
    decreases |s|
  {
    if |s| == 0 then []
    else if IsHighSurrogate(s[0]) && |s| >= 2 && IsLowSurrogate(s[1]) then
      EncodeCodePoint(CodePoint(s[0], s[1])) + Encode(s[2..])
    else if IsHighSurrogate(s[0]) || IsLowSurrogate(s[0]) then
      [Replacement] + Encode(s[1..])
    else
      EncodeCodePoint(s[0]) + Encode(s[1..])
  }

  predicate IsContinuation(b: Byte) { 0x80 <= b < 0xC0 }

  /**
    A strict UTF-8 decoder into UTF-16 code units, as RFC 3629 defines
    well-formed UTF-8: `None` on a stray continuation byte, a truncated
    sequence, an overlong form (a value encodable in fewer bytes), a
    three-byte form of a surrogate, or a value beyond U+10FFFF.
  */
  function Decode(b: seq<Byte>): Option<JString>
    decreases |b|
  {
    if |b| == 0 then Some([])
    else if b[0] < 0x80 then Prepend([b[0]], Decode(b[1..]))
    else if b[0] < 0xC0 then None
    else if b[0] < 0xE0 then
      if |b| < 2 || !IsContinuation(b[1]) then None
      else
        var u := (b[0] as int - 0xC0) * 64 + (b[1] as int - 0x80);
        if u < 0x80 then None
        else Prepend([u], Decode(b[2..]))
    else if b[0] < 0xF0 then
      if |b| < 3 || !IsContinuation(b[1]) || !IsContinuation(b[2]) then None
      else
        var u := (b[0] as int - 0xE0) * 4096 + (b[1] as int - 0x80) * 64 + (b[2] as int - 0x80);
        if u < 0x800 || IsHighSurrogate(u) || IsLowSurrogate(u) then None
        else Prepend([u], Decode(b[3..]))
    else
      if |b| < 4 || !IsContinuation(b[1]) || !IsContinuation(b[2]) || !IsContinuation(b[3]) then None
      else
        var cp := (b[0] as int - 0xF0) * 0x4_0000 + (b[1] as int - 0x80) * 4096 + (b[2] as int - 0x80) * 64 + (b[3] as int - 0x80);
        if cp < 0x1_0000 || 0x10_FFFF < cp then None
        else Prepend([0xD800 + (cp - 0x1_0000) / 0x400, 0xDC00 + (cp - 0x1_0000) % 0x400], Decode(b[4..]))
  }

  /** The decoder refuses the encodings other UTF-8 variants use: CESU-8 surrogate halves and overlong forms. */
  lemma RejectsCesuAndOverlong()
    ensures Decode([0xED, 0xA0, 0x80, 0xED, 0xB0, 0x80]) == None
    ensures Decode([0xC0, 0x80]) == None
    ensures Decode([0xE0, 0x80, 0x80]) == None
    ensures Decode([0xF0, 0x80, 0x80, 0x80]) == None
  {
  }

  /** Decoding the bytes of one BMP code unit that is not a surrogate gives the unit back. */
  lemma DecodeUnit(u: CodeUnit, rest: seq<Byte>)
    requires !IsHighSurrogate(u) && !IsLowSurrogate(u)
    ensures Decode(EncodeCodePoint(u) + rest) == Prepend([u], Decode(rest))
  {
    var e := EncodeCodePoint(u);
    var b := e + rest;
    assert b[|e|..] == rest;
    if 0x800 <= u {
      assert u / 64 == u / 4096 * 64 + u / 64 % 64;
    }
  }

  /** A supplementary code point is the sum of its four UTF-8 payload fields. */
  lemma SplitFourFields(cp: int)
    requires 0x1_0000 <= cp <= 0x10_FFFF
    ensures cp / 0x4_0000 < 8
    ensures cp / 0x4_0000 * 0x4_0000 + cp / 4096 % 64 * 4096 + cp / 64 % 64 * 64 + cp % 64 == cp
  {
    assert cp == cp / 64 * 64 + cp % 64;
    assert cp / 64 == cp / 4096 * 64 + cp / 64 % 64;
    assert cp / 4096 == cp / 0x4_0000 * 64 + cp / 4096 % 64;
  }

  /** Decoding the four bytes of a supplementary code point gives the surrogate pair back. */
  lemma DecodePair(hi: CodeUnit, lo: CodeUnit, rest: seq<Byte>)
    requires IsHighSurrogate(hi) && IsLowSurrogate(lo)
    ensures Decode(EncodeCodePoint(CodePoint(hi, lo)) + rest) == Prepend([hi, lo], Decode(rest))
  {
    var cp := CodePoint(hi, lo);
    var e := EncodeCodePoint(cp);
    var b := e + rest;
    assert b[4..] == rest;
    SplitFourFields(cp);
    assert b[0] as int - 0xF0 == cp / 0x4_0000;
    assert b[1] as int - 0x80 == cp / 4096 % 64;
    assert b[2] as int - 0x80 == cp / 64 % 64;
    assert b[3] as int - 0x80 == cp % 64;
  }

  /** Decoding the bytes Java produces for a well-formed string gives the string back. */
  lemma {:induction false} DecodeEncode(s: JString)
    requires WellFormed(s)
    ensures Decode(Encode(s)) == Some(s)
    decreases |s|
  {
    if |s| == 0 {
    } else if IsHighSurrogate(s[0]) {
      DecodeEncode(s[2..]);
      DecodePair(s[0], s[1], Encode(s[2..]));
      assert s == [s[0], s[1]] + s[2..];
    } else {
      DecodeEncode(s[1..]);
      DecodeUnit(s[0], Encode(s[1..]));
      assert s == [s[0]] + s[1..];
    }
  }

  /** Re-encoding the bytes of a one-, two- or three-byte form gives those bytes back. */
  lemma EncodeShortForm(b: seq<Byte>, u: CodeUnit)
    requires 1 <= |b| <= 3
    requires |b| == 1 ==> b[0] < 0x80 && u == b[0]
    requires |b| == 2 ==> 0xC0 <= b[0] < 0xE0 && IsContinuation(b[1]) && 0x80 <= u
                          && u == (b[0] as int - 0xC0) * 64 + (b[1] as int - 0x80)
    requires |b| == 3 ==> 0xE0 <= b[0] < 0xF0 && IsContinuation(b[1]) && IsContinuation(b[2]) && 0x800 <= u
                          && u == (b[0] as int - 0xE0) * 4096 + (b[1] as int - 0x80) * 64 + (b[2] as int - 0x80)
    ensures EncodeCodePoint(u) == b
  {
    if |b| == 3 {
      assert u / 64 == (b[0] as int - 0xE0) * 64 + (b[1] as int - 0x80);
    }
  }

  /** Dividing by 64 recovers the quotient and remainder a number was built from. */
  lemma DivMod64(x: int, q: int, r: int)
    requires 0 <= r < 64 && x == q * 64 + r
    ensures x / 64 == q && x % 64 == r
  {
  }

  /** Dividing by 4096 recovers the quotient and remainder a number was built from. */
  lemma DivMod4096(x: int, q: int, r: int)
    requires 0 <= r < 4096 && x == q * 4096 + r
    ensures x / 4096 == q && x % 4096 == r
  {
  }

  /** Dividing by 0x4_0000 recovers the quotient and remainder a number was built from. */
  lemma DivMod40000(x: int, q: int, r: int)
    requires 0 <= r < 0x4_0000 && x == q * 0x4_0000 + r
    ensures x / 0x4_0000 == q && x % 0x4_0000 == r
  {
  }

  /** The four payload fields of a four-byte form are recovered by the divisions `EncodeCodePoint` performs. */
  lemma FieldsOfFour(f0: int, f1: int, f2: int, f3: int)
    requires 0 <= f1 < 64 && 0 <= f2 < 64 && 0 <= f3 < 64
    ensures var cp := f0 * 0x4_0000 + f1 * 4096 + f2 * 64 + f3;
            cp / 0x4_0000 == f0 && cp / 4096 % 64 == f1 && cp / 64 % 64 == f2 && cp % 64 == f3
  {
    var cp := f0 * 0x4_0000 + f1 * 4096 + f2 * 64 + f3;
    DivMod64(cp, f0 * 4096 + f1 * 64 + f2, f3);
    DivMod4096(cp, f0 * 64 + f1, f2 * 64 + f3);
    DivMod40000(cp, f0, f1 * 4096 + f2 * 64 + f3);
    DivMod64(f0 * 4096 + f1 * 64 + f2, f0 * 64 + f1, f2);
    DivMod64(f0 * 64 + f1, f0, f1);
  }

  /** Re-encoding the surrogate pair a four-byte form decodes to gives those four bytes back. */
  lemma EncodeFourByteForm(b: seq<Byte>, cp: int)
    requires |b| == 4 && 0xF0 <= b[0] && IsContinuation(b[1]) && IsContinuation(b[2]) && IsContinuation(b[3])
    requires cp == (b[0] as int - 0xF0) * 0x4_0000 + (b[1] as int - 0x80) * 4096 + (b[2] as int - 0x80) * 64 + (b[3] as int - 0x80)
    requires 0x1_0000 <= cp <= 0x10_FFFF
    ensures var hi, lo := 0xD800 + (cp - 0x1_0000) / 0x400, 0xDC00 + (cp - 0x1_0000) % 0x400;
            IsHighSurrogate(hi) && IsLowSurrogate(lo) && EncodeCodePoint(CodePoint(hi, lo)) == b
  {
    var hi, lo := 0xD800 + (cp - 0x1_0000) / 0x400, 0xDC00 + (cp - 0x1_0000) % 0x400;
    assert CodePoint(hi, lo) == cp;
    FieldsOfFour(b[0] as int - 0xF0, b[1] as int - 0x80, b[2] as int - 0x80, b[3] as int - 0x80);
  }

  /** One step of the converse round trip: a decoded BMP unit in front of a tail that already round-trips. */
  lemma UnitStep(b: seq<Byte>, n: nat, u: CodeUnit)
    requires 1 <= n <= |b| && EncodeCodePoint(u) == b[..n]
    requires !IsHighSurrogate(u) && !IsLowSurrogate(u)
    requires Decode(b[n..]).Some? ==> WellFormed(Decode(b[n..]).value) && Encode(Decode(b[n..]).value) == b[n..]
    ensures var d := Prepend([u], Decode(b[n..])); d.Some? ==> WellFormed(d.value) && Encode(d.value) == b
  {
    var d := Prepend([u], Decode(b[n..]));
    if d.Some? {
      assert d.value[1..] == Decode(b[n..]).value;
      assert b == b[..n] + b[n..];
    }
  }

  /** One step of the converse round trip: a decoded surrogate pair in front of a tail that already round-trips. */
  lemma PairStep(b: seq<Byte>, hi: CodeUnit, lo: CodeUnit)
    requires 4 <= |b| && IsHighSurrogate(hi) && IsLowSurrogate(lo)
    requires EncodeCodePoint(CodePoint(hi, lo)) == b[..4]
    requires Decode(b[4..]).Some? ==> WellFormed(Decode(b[4..]).value) && Encode(Decode(b[4..]).value) == b[4..]
    ensures var d := Prepend([hi, lo], Decode(b[4..])); d.Some? ==> WellFormed(d.value) && Encode(d.value) == b
  {
    var d := Prepend([hi, lo], Decode(b[4..]));
    if d.Some? {
      assert d.value[2..] == Decode(b[4..]).value;
      assert b == b[..4] + b[4..];
    }
  }

  /** An accepted four-byte form decodes to the surrogate pair of its code point, followed by the rest. */
  lemma DecodeFourByteStep(b: seq<Byte>) returns (cp: int)
    requires |b| > 0 && 0xF0 <= b[0] && Decode(b).Some?
    ensures |b| >= 4 && IsContinuation(b[1]) && IsContinuation(b[2]) && IsContinuation(b[3])
    ensures cp == (b[0] as int - 0xF0) * 0x4_0000 + (b[1] as int - 0x80) * 4096 + (b[2] as int - 0x80) * 64 + (b[3] as int - 0x80)
    ensures 0x1_0000 <= cp <= 0x10_FFFF
    ensures Decode(b) == Prepend([0xD800 + (cp - 0x1_0000) / 0x400, 0xDC00 + (cp - 0x1_0000) % 0x400], Decode(b[4..]))
  {
    cp := (b[0] as int - 0xF0) * 0x4_0000 + (b[1] as int - 0x80) * 4096 + (b[2] as int - 0x80) * 64 + (b[3] as int - 0x80);
  }

  /**
    The converse round trip: whatever the strict decoder accepts is a
    well-formed string whose UTF-8 bytes are exactly the input.
  */
  lemma {:induction false} EncodeDecode(b: seq<Byte>)
    ensures Decode(b).Some? ==> WellFormed(Decode(b).value) && Encode(Decode(b).value) == b
    decreases |b|
  {
    if |b| == 0 || Decode(b).None? {
    } else if b[0] < 0x80 {
      EncodeDecode(b[1..]);
      EncodeShortForm(b[..1], b[0]);
      UnitStep(b, 1, b[0]);
      assert Decode(b) == Prepend([b[0]], Decode(b[1..]));
    } else if b[0] < 0xE0 {
      var u := (b[0] as int - 0xC0) * 64 + (b[1] as int - 0x80);
      EncodeDecode(b[2..]);
      EncodeShortForm(b[..2], u);
      UnitStep(b, 2, u);
      assert Decode(b) == Prepend([u], Decode(b[2..]));
    } else if b[0] < 0xF0 {
      var u := (b[0] as int - 0xE0) * 4096 + (b[1] as int - 0x80) * 64 + (b[2] as int - 0x80);
      EncodeDecode(b[3..]);
      EncodeShortForm(b[..3], u);
      UnitStep(b, 3, u);
      assert Decode(b) == Prepend([u], Decode(b[3..]));
    } else {
      var cp := DecodeFourByteStep(b);
      EncodeDecode(b[4..]);
      EncodeFourByteForm(b[..4], cp);
      PairStep(b, 0xD800 + (cp - 0x1_0000) / 0x400, 0xDC00 + (cp - 0x1_0000) % 0x400);
    }
  }

  /**
    The UTF-8 bytes of a well-formed string are the only bytes that decode
    to it, so the round trip fixes `Encode` completely on such strings.
  */
  lemma EncodingUnique(s: JString, b: seq<Byte>)
    requires WellFormed(s)
    ensures Decode(b) == Some(s) <==> b == Encode(s)
  {
    DecodeEncode(s);
    EncodeDecode(b);
  }

  /** Distinct well-formed strings have distinct UTF-8 bytes. */
  lemma EncodeInjective(s: JString, t: JString)
    requires WellFormed(s) && WellFormed(t)
    ensures Encode(s) == Encode(t) ==> s == t
  {
    DecodeEncode(s);
    DecodeEncode(t);
  }

  /** An unpaired surrogate encodes to the same byte as '?', so on malformed strings the encoding loses information. */
  lemma UnpairedSurrogateCollides()
    ensures var lone: JString, mark: JString := [0xD800], ['?' as int]; lone != mark && Encode(lone) == Encode(mark)
  {
  }
}
