/** The UTF-8 codec of the XML engine: the bytes `ConvertUTF32ToUTF8` writes for a
    code and the table that gives the length of a sequence from its first byte,
    against section 3 of RFC 3629. */
module Utf8 {
  import opened XmlChars

  type Byte = bv8
  type Code = bv64

  // ----- RFC 3629

  /** A Unicode scalar value. */
  predicate IsScalar(c: Code) {
    c < 0xD800 || 0xDFFF < c <= 0x10FFFF
  }

  predicate IsTail(b: Byte) {
    0x80 <= b <= 0xBF
  }

  function Bits(b: Byte, mask: Byte): Code {
    (b & mask) as Code
  }

  /** Groups of six bits, the last ones last. */
  function Join(a: Code, b: Code): Code {
    (a << 6) | b
  }

  /** What a sequence of bytes stands for, by the syntax of the RFC: no overlong forms, no surrogates, nothing
      past 10FFFF. */
  function Decode(s: seq<Byte>): Option<Code> {
    if |s| == 1 && s[0] <= 0x7F then Some(s[0] as Code)
    else if |s| == 2 && 0xC2 <= s[0] <= 0xDF && IsTail(s[1]) then
      Some(Join(Bits(s[0], 0x1F), Bits(s[1], 0x3F)))
    else if |s| == 3 && 0xE0 <= s[0] <= 0xEF && IsTail(s[1]) && IsTail(s[2])
         && (s[0] == 0xE0 ==> 0xA0 <= s[1]) && (s[0] == 0xED ==> s[1] <= 0x9F) then
      Some(Join(Join(Bits(s[0], 0x0F), Bits(s[1], 0x3F)), Bits(s[2], 0x3F)))
    else if |s| == 4 && 0xF0 <= s[0] <= 0xF4 && IsTail(s[1]) && IsTail(s[2]) && IsTail(s[3])
         && (s[0] == 0xF0 ==> 0x90 <= s[1]) && (s[0] == 0xF4 ==> s[1] <= 0x8F) then
      Some(Join(Join(Join(Bits(s[0], 0x07), Bits(s[1], 0x3F)), Bits(s[2], 0x3F)), Bits(s[3], 0x3F)))
    else None
  }

  // ----- the engine

  /** The number of bytes for a code, 0 when it is too big. */
  function Length(c: Code): nat {
    if c < 0x80 then 1 else if c < 0x800 then 2 else if c < 0x10000 then 3 else if c < 0x200000 then 4 else 0
  }

  /** The byte `(input | BYTE_MARK) & BYTE_MASK`. */
  function TailByte(c: Code): Byte {
    ((c | 0x80) & 0xBF) as Byte
  }

  /** The first byte of a sequence of `length` bytes, truncated to a `char`. */
  function LeadByte(c: Code, length: nat): Byte {
    var mark: Code := if length == 2 then 0xC0 else if length == 3 then 0xE0 else if length == 4 then 0xF0 else 0;
    ((c | mark) & 0xFF) as Byte
  }

  /** The code without its last six bits. */
  function Upper(c: Code): Code {
    c >> 6
  }

  function Encode(c: Code): (s: seq<Byte>)
    ensures |s| == Length(c)
  {
    var n, u := Length(c), Upper(c);
    if n == 0 then []
    else if n == 1 then [LeadByte(c, 1)]
    else if n == 2 then [LeadByte(u, 2), TailByte(c)]
    else if n == 3 then [LeadByte(Upper(u), 3), TailByte(u), TailByte(c)]
    else [LeadByte(Upper(Upper(u)), 4), TailByte(Upper(u)), TailByte(u), TailByte(c)]
  }

  /** `ConvertUTF32ToUTF8`, with its fall-through cases: from the last byte back to the first. */
  method ConvertUTF32ToUTF8(code: Code, output: array<Byte>) returns (length: nat)
    requires output.Length >= 4
    modifies output
    ensures length == Length(code) && output[..length] == Encode(code)
    ensures forall i :: length <= i < output.Length ==> output[i] == old(output[i])
  {
    var input := code;
    if input < 0x80 {
      length := 1;
    } else if input < 0x800 {
      length := 2;
    } else if input < 0x10000 {
      length := 3;
    } else if input < 0x200000 {
      length := 4;
    } else {
      length := 0;
    }
    assert length == Length(code);
    hide Length;
    hide LeadByte;
    hide TailByte;
    hide Upper;
    if length == 0 {
      return;
    }
    var at := length;
    if length == 4 {
      at := at - 1;
      output[at] := TailByte(input);
      input := Upper(input);
    }
    if length >= 3 {
      at := at - 1;
      output[at] := TailByte(input);
      input := Upper(input);
    }
    if length >= 2 {
      at := at - 1;
      output[at] := TailByte(input);
      input := Upper(input);
    }
    at := at - 1;
    output[at] := LeadByte(input, length);
  }

  /** `utf8ByteTable`. */
  function ByteTable(b: Byte): nat {
    if b < 0xC2 then 1 else if b < 0xE0 then 2 else if b < 0xF0 then 3 else if b < 0xF5 then 4 else 1
  }

  // ----- agreement

  function Low(c: Code): Code {
    c & 0x3F
  }

  lemma Rejoin(c: Code)
    ensures Join(Upper(c), Low(c)) == c
  {
  }

  lemma TailFacts(c: Code)
    ensures IsTail(TailByte(c)) && Bits(TailByte(c), 0x3F) == Low(c)
    ensures TailByte(c) >= 0x90 <==> Low(c) >= 0x10
    ensures TailByte(c) >= 0xA0 <==> Low(c) >= 0x20
  {
  }

  lemma OneByte(c: Code)
    requires c < 0x80
    ensures LeadByte(c, 1) <= 0x7F && LeadByte(c, 1) as Code == c
  {
  }

  lemma LeadOfTwo(c: Code)
    requires 2 <= c < 0x20
    ensures 0xC2 <= LeadByte(c, 2) <= 0xDF && Bits(LeadByte(c, 2), 0x1F) == c
  {
  }

  lemma LeadOfThree(c: Code)
    requires c < 0x10
    ensures 0xE0 <= LeadByte(c, 3) <= 0xEF && Bits(LeadByte(c, 3), 0x0F) == c
    ensures (LeadByte(c, 3) == 0xE0 <==> c == 0) && (LeadByte(c, 3) == 0xED <==> c == 0xD)
  {
  }

  lemma LeadOfFour(c: Code)
    requires c < 8
    ensures 0xF0 <= LeadByte(c, 4) <= 0xF7 && Bits(LeadByte(c, 4), 0x07) == c
    ensures (LeadByte(c, 4) == 0xF0 <==> c == 0) && (LeadByte(c, 4) == 0xF4 <==> c == 4) && (LeadByte(c, 4) < 0xF5 <==> c < 5)
  {
  }

  lemma RangeOfTwo(c: Code)
    requires 0x80 <= c < 0x800
    ensures 2 <= Upper(c) < 0x20
  {
  }

  lemma RangeOfThree(c: Code, u: Code, v: Code)
    requires 0x800 <= c < 0x10000 && u == Upper(c) && v == Upper(u)
    ensures v < 0x10 && (v == 0 ==> Low(u) >= 0x20)
    ensures v == 0xD && Low(u) >= 0x20 <==> !IsScalar(c)
  {
  }

  lemma RangeOfFour(c: Code, u: Code, v: Code, w: Code)
    requires 0x10000 <= c < 0x200000 && u == Upper(c) && v == Upper(u) && w == Upper(v)
    ensures w < 8 && (w == 0 ==> Low(v) >= 0x10) && (w < 5 <==> c < 0x140000)
  {
  }

  lemma ScalarsOfFour(c: Code, u: Code, v: Code, w: Code)
    requires 0x10000 <= c < 0x200000 && u == Upper(c) && v == Upper(u) && w == Upper(v)
    ensures IsScalar(c) <==> w < 4 || (w == 4 && Low(v) < 0x10)
  {
  }

  /** Decoding undoes the conversion for exactly the scalar values, and the table gives its length by its first
      byte for exactly the codes below 140000. */
  lemma DecodeUndoesEncodeIff(c: Code)
    ensures Decode(Encode(c)) == Some(c) <==> IsScalar(c)
    ensures c < 0x200000 ==> (ByteTable(Encode(c)[0]) == |Encode(c)| <==> c < 0x140000)
  {
    if c < 0x80 {
      OneByte(c);
    } else if c < 0x800 {
      OfTwo(c);
    } else if c < 0x10000 {
      OfThree(c);
    } else if c < 0x200000 {
      OfFour(c);
    }
  }

  lemma OfTwo(c: Code)
    requires 0x80 <= c < 0x800
    ensures Decode(Encode(c)) == Some(c) && ByteTable(Encode(c)[0]) == 2
  {
    var u := Upper(c);
    RangeOfTwo(c);
    Rejoin(c);
    LeadOfTwo(u);
    TailFacts(c);
    hide LeadByte, TailByte, Upper, Bits, Join, Low;
  }

  lemma OfThree(c: Code)
    requires 0x800 <= c < 0x10000
    ensures (Decode(Encode(c)) == Some(c) <==> IsScalar(c)) && ByteTable(Encode(c)[0]) == 3
  {
    var u := Upper(c);
    var v := Upper(u);
    RangeOfThree(c, u, v);
    Rejoin(c);
    Rejoin(u);
    LeadOfThree(v);
    TailFacts(u);
    TailFacts(c);
    hide LeadByte, TailByte, Upper, Bits, Join, Low, IsScalar;
  }

  lemma OfFour(c: Code)
    requires 0x10000 <= c < 0x200000
    ensures (Decode(Encode(c)) == Some(c) <==> IsScalar(c)) && (ByteTable(Encode(c)[0]) == 4 <==> c < 0x140000)
  {
    var u := Upper(c);
    var v := Upper(u);
    var w := Upper(v);
    RangeOfFour(c, u, v, w);
    ScalarsOfFour(c, u, v, w);
    Rejoin(c);
    Rejoin(u);
    Rejoin(v);
    LeadOfFour(w);
    TailFacts(v);
    TailFacts(u);
    TailFacts(c);
    hide LeadByte, TailByte, Upper, Bits, Join, Low, IsScalar;
  }

  // ----- the other way round

  lemma Parted(a: Code, t: Byte)
    requires a < 0x10000 && IsTail(t)
    ensures Upper(Join(a, Bits(t, 0x3F))) == a && TailByte(Join(a, Bits(t, 0x3F))) == t
  {
  }

  lemma LeadBack(b: Byte)
    ensures 0xC2 <= b <= 0xDF ==> LeadByte(Bits(b, 0x1F), 2) == b
    ensures 0xE0 <= b <= 0xEF ==> LeadByte(Bits(b, 0x0F), 3) == b
    ensures 0xF0 <= b <= 0xF4 ==> LeadByte(Bits(b, 0x07), 4) == b
  {
  }

  lemma JoinedTwo(b: Byte, t: Byte)
    requires 0xC2 <= b <= 0xDF && IsTail(t)
    ensures var c := Join(Bits(b, 0x1F), Bits(t, 0x3F)); 0x80 <= c < 0x800 && Bits(b, 0x1F) < 0x20
  {
  }

  lemma JoinedThree(b: Byte, t: Byte, u: Byte)
    requires 0xE0 <= b <= 0xEF && IsTail(t) && IsTail(u) && (b == 0xE0 ==> 0xA0 <= t) && (b == 0xED ==> t <= 0x9F)
    ensures var d := Join(Bits(b, 0x0F), Bits(t, 0x3F));
            d < 0x400 && Bits(b, 0x0F) < 0x10 && 0x800 <= Join(d, Bits(u, 0x3F)) < 0x10000
    ensures IsScalar(Join(Join(Bits(b, 0x0F), Bits(t, 0x3F)), Bits(u, 0x3F)))
  {
  }

  lemma JoinedFour(b: Byte, t: Byte, u: Byte, v: Byte)
    requires 0xF0 <= b <= 0xF4 && IsTail(t) && IsTail(u) && IsTail(v) && (b == 0xF0 ==> 0x90 <= t) && (b == 0xF4 ==> t <= 0x8F)
    ensures var d := Join(Bits(b, 0x07), Bits(t, 0x3F));
            d < 0x200 && Bits(b, 0x07) < 8 && Join(d, Bits(u, 0x3F)) < 0x8000
    ensures 0x10000 <= Join(Join(Join(Bits(b, 0x07), Bits(t, 0x3F)), Bits(u, 0x3F)), Bits(v, 0x3F)) <= 0x10FFFF
  {
  }

  /** A well-formed sequence is what its code is converted to, so no two of them stand for the same code. */
  lemma EncodeUndoesDecode(s: seq<Byte>)
    requires Decode(s).Some?
    ensures IsScalar(Decode(s).value) && Encode(Decode(s).value) == s
  {
    if |s| == 1 {
      EncodedOne(s[0]);
    } else if |s| == 2 {
      JoinedTwo(s[0], s[1]);
      LeadBack(s[0]);
      Parted(Bits(s[0], 0x1F), s[1]);
      hide LeadByte, TailByte, Upper, Bits, Join;
    } else if |s| == 3 {
      JoinedThree(s[0], s[1], s[2]);
      LeadBack(s[0]);
      Parted(Bits(s[0], 0x0F), s[1]);
      Parted(Join(Bits(s[0], 0x0F), Bits(s[1], 0x3F)), s[2]);
      hide LeadByte, TailByte, Upper, Bits, Join, IsScalar;
    } else {
      JoinedFour(s[0], s[1], s[2], s[3]);
      LeadBack(s[0]);
      var a := Bits(s[0], 0x07);
      var d := Join(a, Bits(s[1], 0x3F));
      Parted(a, s[1]);
      Parted(d, s[2]);
      Parted(Join(d, Bits(s[2], 0x3F)), s[3]);
      hide LeadByte, TailByte, Upper, Bits, Join;
    }
  }

  lemma EncodedOne(b: Byte)
    requires b <= 0x7F
    ensures (b as Code) < 0x80 && LeadByte(b as Code, 1) == b
  {
  }

  /** No two codes that are converted at all have the same bytes, scalar values or not. */
  lemma EncodeInjective(c: Code, d: Code)
    requires c < 0x200000 && d < 0x200000 && Encode(c) == Encode(d)
    ensures c == d
  {
    Groups(c);
    Groups(d);
    hide Encode, Join, Bits;
  }

  /** A code can be put together again from its bytes alone. */
  lemma Groups(c: Code)
    requires c < 0x200000
    ensures c == FromBytes(Encode(c))
  {
    var u := Upper(c);
    var v := Upper(u);
    Rejoin(c);
    Rejoin(u);
    Rejoin(v);
    TailFacts(c);
    TailFacts(u);
    TailFacts(v);
    if c < 0x80 {
      OneByte(c);
    } else if c < 0x800 {
      RangeOfTwo(c);
      LeadOfTwo(u);
    } else if c < 0x10000 {
      RangeOfThree(c, u, v);
      LeadOfThree(v);
    } else {
      RangeOfFour(c, u, v, Upper(v));
      LeadOfFour(Upper(v));
    }
    hide LeadByte, TailByte, Upper, Bits, Join, Low;
  }

  function FromBytes(s: seq<Byte>): Code {
    if |s| == 1 then s[0] as Code
    else if |s| == 2 then Join(Bits(s[0], 0x1F), Bits(s[1], 0x3F))
    else if |s| == 3 then Join(Join(Bits(s[0], 0x0F), Bits(s[1], 0x3F)), Bits(s[2], 0x3F))
    else if |s| == 4 then Join(Join(Join(Bits(s[0], 0x07), Bits(s[1], 0x3F)), Bits(s[2], 0x3F)), Bits(s[3], 0x3F))
    else 0
  }
}
