/** Character data: the entity decoder, the text reader and `EncodeString`,
    first as functions on the text left to read, then as the loops of the source. */
module XmlText {
  import opened XmlChars

  const WORD32: nat := 0x1_0000_0000
  const WORD64: nat := 0x1_0000_0000_0000_0000

  // ----- entities

  /** The index of the first `c`, as `strchr`; `|r|` when there is none. */
  function IndexOf(r: string, c: char): (k: nat)
    ensures k <= |r|
    ensures forall i :: 0 <= i < k ==> r[i] != c
    ensures k < |r| ==> r[k] == c
  {
    if r == "" || r[0] == c then 0 else 1 + IndexOf(r[1..], c)
  }

  function DigitValue(c: char, base: nat): Option<nat> {
    if '0' <= c <= '9' then Some(c as int - '0' as int)
    else if base == 16 && 'a' <= c <= 'f' then Some(c as int - 'a' as int + 10)
    else if base == 16 && 'A' <= c <= 'F' then Some(c as int - 'A' as int + 10)
    else None
  }

  /** The right-to-left accumulation over `body` down to the nearest `stop`:
      `mult` is a 32-bit and `ucs` a 64-bit unsigned number, and both wrap. */
  function Accumulate(body: string, stop: char, base: nat, mult: nat, ucs: nat): Option<nat>
    requires body != "" && body[0] == stop
    decreases |body|
  {
    var last := |body| - 1;
    if body[last] == stop then Some(ucs)
    else match DigitValue(body[last], base)
      case None => None
      case Some(d) =>
        Accumulate(body[..last], stop, base, (mult * base) % WORD32, (ucs + (mult * d) % WORD32) % WORD64)
  }

  /** A numeric character reference: its code and the characters it takes. */
  datatype NumericRef = NumericRef(code: nat, length: nat)

  predicate IsNumeric(r: string) {
    |r| >= 3 && r[0] == '&' && r[1] == '#'
  }

  function ReadNumericRef(r: string): (n: Option<NumericRef>)
    requires IsNumeric(r)
    ensures n.Some? ==> 0 < n.value.length <= |r|
  {
    var stop := if r[2] == 'x' then 'x' else '#';
    var from := if r[2] == 'x' then 3 else 2;
    var k := from + IndexOf(r[from..], ';');
    if k == |r| then None
    else match Accumulate(r[from - 1..k], stop, if r[2] == 'x' then 16 else 10, 1, 0)
      case None => None
      case Some(code) => Some(NumericRef(code, k + 1))
  }

  /** What one call of `GetChar` appends (nothing or one character) and where it leaves the pointer. */
  datatype CharRead = CharRead(out: string, rest: Ptr)

  const AMP := "&amp;"
  const LT := "&lt;"
  const GT := "&gt;"
  const QUOT := "&quot;"
  const APOS := "&apos;"

  function GetEntity(r: string): (c: CharRead)
    requires r != "" && r[0] == '&'
    ensures |c.out| <= 1
    ensures c.rest.Some? ==> |c.rest.value| < |r|
  {
    if IsNumeric(r) then
      match ReadNumericRef(r)
      case None => CharRead("", None)
      case Some(n) => CharRead([(n.code % 256) as char], Some(r[n.length..]))
    else if AMP <= r then CharRead("&", Some(r[5..]))
    else if LT <= r then CharRead("<", Some(r[4..]))
    else if GT <= r then CharRead(">", Some(r[4..]))
    else if QUOT <= r then CharRead("\"", Some(r[6..]))
    else if APOS <= r then CharRead("'", Some(r[6..]))
    else CharRead("", Some(r[1..]))
  }

  function GetChar(r: string): (c: CharRead)
    requires r != ""
    ensures |c.out| <= 1
    ensures c.rest.Some? ==> |c.rest.value| < |r|
  {
    if r[0] == '&' then GetEntity(r) else CharRead([r[0]], Some(r[1..]))
  }

  // ----- text up to an end tag

  datatype TextRead = TextRead(text: string, rest: Ptr)

  /** The loop of `ReadText` that keeps white space: stops in front of `end`. */
  function ReadKeep(r: string, end: string): (t: TextRead)
    ensures t.rest.Some? ==> |t.rest.value| <= |r|
    ensures t.rest.Some? && r != "" && !(end <= r) ==> |t.rest.value| < |r|
    ensures Readable(t.rest) ==> end <= t.rest.value
    decreases |r|
  {
    if r == "" || end <= r then TextRead("", Some(r))
    else
      var c := GetChar(r);
      if c.rest.None? then TextRead(c.out, None)
      else
        var t := ReadKeep(c.rest.value, end);
        TextRead(c.out + t.text, t.rest)
  }

  /** The loop of `ReadText` that condenses: `gap` says that white space is waiting to become one blank. */
  function ReadTrim(r: string, gap: bool, end: string): (t: TextRead)
    ensures t.rest.Some? ==> |t.rest.value| <= |r|
    ensures t.rest.Some? && r != "" && !(end <= r) ==> |t.rest.value| < |r|
    ensures Readable(t.rest) ==> end <= t.rest.value
    decreases |r|
  {
    if r == "" || end <= r then TextRead("", Some(r))
    else if IsWhite(r[0]) then ReadTrim(r[1..], true, end)
    else
      var blank := if gap then " " else "";
      var c := GetChar(r);
      if c.rest.None? then TextRead(blank + c.out, None)
      else
        var t := ReadTrim(c.rest.value, false, end);
        TextRead(blank + c.out + t.text, t.rest)
  }

  /** Steps over the end tag; the end of the input then counts as failure. */
  function PastEnd(p: Ptr, end: string): (q: Ptr)
    requires Readable(p) ==> end <= p.value
    ensures q.Some? ==> Readable(p) && q.value == p.value[|end|..] && q.value != ""
  {
    if Readable(p) && p.value[|end|..] != "" then Some(p.value[|end|..]) else None
  }

  /** `ReadText`: white space is condensed only when both `trim` and the global switch ask for it. */
  function ReadText(r: string, trim: bool, condense: bool, end: string): (t: TextRead)
    ensures t.rest.Some? ==> |t.rest.value| + |end| <= |r| && t.rest.value != ""
    ensures t.rest.Some? && !(end <= r) && !(end <= SkipWhite(r)) ==> |t.rest.value| + |end| < |r|
  {
    if !trim || !condense then
      var t := ReadKeep(r, end);
      TextRead(t.text, PastEnd(t.rest, end))
    else if r == "" then TextRead("", None)
    else
      var t := ReadTrim(SkipWhite(r), false, end);
      TextRead(t.text, PastEnd(t.rest, end))
  }

  // ----- EncodeString

  function HexDigit(d: nat): char
    requires d < 16
  {
    if d < 10 then (d + '0' as int) as char else (d - 10 + 'A' as int) as char
  }

  function EncodeChar(c: char): (e: string)
    ensures e != ""
  {
    if c == '&' then AMP
    else if c == '<' then LT
    else if c == '>' then GT
    else if c == '"' then QUOT
    else if c == '\'' then APOS
    else if c as int < 32 then ['&', '#', 'x', HexDigit(c as int / 16), HexDigit(c as int % 16), ';']
    else [c]
  }

  /** How far the pass-through of `&#x...` reaches: up to the next `;`, or to the last character. */
  function PassLength(r: string): (k: nat)
    requires "&#x" <= r
    ensures 2 <= k < |r|
  {
    var k := IndexOf(r, ';');
    assert r[0] == '&' && r[1] == '#' && r[2] == 'x';
    if k < |r| then k else |r| - 1
  }

  function Encode(r: string): string
    decreases |r|
  {
    if r == "" then ""
    else if "&#x" <= r then
      var k := PassLength(r);
      r[..k] + Encode(r[k..])
    else EncodeChar(r[0]) + Encode(r[1..])
  }

  // ----- encoded characters

  /** `&#x` does not occur. */
  predicate NoHexRef(s: string) {
    forall i :: 0 <= i < |s| ==> !("&#x" <= s[i..])
  }

  lemma NoHexRefTail(s: string)
    requires NoHexRef(s) && s != ""
    ensures !("&#x" <= s) && NoHexRef(s[1..])
  {
    assert s[0..] == s;
    forall i | 0 <= i < |s[1..]| ensures !("&#x" <= s[1..][i..]) {
      assert s[1..][i..] == s[i + 1..];
    }
  }

  lemma AccumulateStop(stop: char, base: nat, mult: nat, ucs: nat)
    ensures Accumulate([stop], stop, base, mult, ucs) == Some(ucs)
  {
  }

  lemma AccumulateHexDigit(body: string, d: nat, mult: nat, ucs: nat)
    requires body != "" && body[0] == 'x' && d < 16
    ensures Accumulate(body + [HexDigit(d)], 'x', 16, mult, ucs)
         == Accumulate(body, 'x', 16, (mult * 16) % WORD32, (ucs + (mult * d) % WORD32) % WORD64)
  {
    HexDigitValue(d);
    hide HexDigit, DigitValue;
    assert (body + [HexDigit(d)])[..|body|] == body;
  }

  lemma PairSum(a: nat, b: nat)
    requires a < 16 && b < 16
    ensures (0 + (1 * b) % WORD32) % WORD64 == b && (1 * 16) % WORD32 == 16 && (16 * 16) % WORD32 == 256
    ensures (b + (16 * a) % WORD32) % WORD64 == 16 * a + b
  {
  }

  /** Two hexadecimal digits accumulate to the code they spell. */
  lemma HexPairValue(v: nat)
    requires v < 32
    ensures Accumulate(['x', HexDigit(v / 16), HexDigit(v % 16)], 'x', 16, 1, 0) == Some(v)
  {
    hide *;
    var a, b := v / 16, v % 16;
    var h, l := HexDigit(a), HexDigit(b);
    AccumulateHexDigit(['x', h], b, 1, 0);
    AccumulateHexDigit(['x'], a, 16, b);
    AccumulateStop('x', 16, 256, v);
    PairSum(a, b);
    assert v == 16 * a + b;
    assert ['x', h] + [l] == ['x', h, l] && ['x'] + [h] == ['x', h];
  }

  lemma HexDigitValue(d: nat)
    requires d < 16
    ensures DigitValue(HexDigit(d), 16) == Some(d) && HexDigit(d) != 'x' && HexDigit(d) != ';'
  {
  }

  lemma HexPairReference(h: char, l: char, x: string)
    requires h != ';' && l != ';'
    ensures var r := ['&', '#', 'x', h, l, ';'] + x;
            ReadNumericRef(r) == match Accumulate(['x', h, l], 'x', 16, 1, 0)
                                 case None => None
                                 case Some(code) => Some(NumericRef(code, 6))
  {
    hide Accumulate;
    var r := ['&', '#', 'x', h, l, ';'] + x;
    assert r[3..][0] == h && r[3..][1] == l && r[3..][2] == ';';
    assert IndexOf(r[3..], ';') == 2;
    assert r[2..5] == ['x', h, l];
  }

  lemma HexPairRead(c: char, x: string)
    requires c as int < 32
    ensures GetEntity(EncodeChar(c) + x) == CharRead([c], Some(x))
  {
    hide Accumulate;
    hide ReadNumericRef;
    var h, l := HexDigit(c as int / 16), HexDigit(c as int % 16);
    var r := ['&', '#', 'x', h, l, ';'] + x;
    HexPairValue(c as int);
    HexPairReference(h, l, x);
    assert r[6..] == x;
  }

  lemma EntityRead(e: string, c: char, x: string)
    requires (e, c) in {(AMP, '&'), (LT, '<'), (GT, '>'), (QUOT, '"'), (APOS, '\'')}
    ensures GetEntity(e + x) == CharRead([c], Some(x))
  {
    var r := e + x;
    assert r[..|e|] == e;
    assert r[|e|..] == x;
    assert r[0] == e[0] && r[1] == e[1] && r[2] == e[2] && r[3] == e[3];
  }

  /** A character is changed exactly when it has an entity or is a control character; then it becomes its entity, or
      a reference of two hexadecimal digits. */
  lemma EncodedIff(c: char)
    ensures EncodeChar(c) != [c] <==> c in "&<>\"'" || c as int < 32
    ensures c as int < 32 ==> |EncodeChar(c)| == 6 && "&#x" <= EncodeChar(c)
    ensures EncodeChar(c) != [c] && c as int >= 32 ==> EncodeChar(c) in ["&amp;", "&lt;", "&gt;", "&quot;", "&apos;"]
  {
    assert "&<>\"'" == ['&', '<', '>', '"', '\''];
  }

  lemma EncodedCharRead(c: char, x: string)
    ensures GetChar(EncodeChar(c) + x) == CharRead([c], Some(x))
  {
    if c == '&' || c == '<' || c == '>' || c == '"' || c == '\'' {
      EntityRead(EncodeChar(c), c, x);
    } else if c as int < 32 {
      HexPairRead(c, x);
    } else {
      assert ([c] + x)[1..] == x;
    }
  }

  /** The delimiters that end a text or an attribute value. */
  predicate IsDelimiter(end: string) {
    end == "<" || end == "\"" || end == "'"
  }

  lemma EncodedCharStart(c: char, x: string, end: string)
    requires IsDelimiter(end)
    ensures !(end <= EncodeChar(c) + x)
    ensures IsWhite((EncodeChar(c) + x)[0]) <==> c == ' '
    ensures c == ' ' ==> EncodeChar(c) == " "
  {
    assert (EncodeChar(c) + x)[0] == EncodeChar(c)[0];
  }

  // ----- what an encoded string reads back as

  /** Every `&#x` that `EncodeString` copies through is closed by a `;`, has no terminator inside and spells a number. */
  predicate Legible(s: string)
    decreases |s|
  {
    if s == "" then true
    else if "&#x" <= s then
      var k := IndexOf(s, ';');
      k < |s| && NUL !in s[..k] && SpellsNumber(s) && Legible(s[k + 1..])
    else Legible(s[1..])
  }

  predicate SpellsNumber(s: string)
    requires "&#x" <= s
  {
    assert s[0] == '&' && s[1] == '#';
    ReadNumericRef(s).Some?
  }

  /** The character of a reference at the front. */
  function RefChar(s: string): char
    requires "&#x" <= s && SpellsNumber(s)
  {
    assert s[0] == '&' && s[1] == '#';
    (ReadNumericRef(s).value.code % 256) as char
  }

  /** The string with every reference replaced by its character. */
  function Reading(s: string): string
    requires Legible(s)
    decreases |s|
  {
    if s == "" then ""
    else if "&#x" <= s then [RefChar(s)] + Reading(s[IndexOf(s, ';') + 1..])
    else [s[0]] + Reading(s[1..])
  }

  /** The same with its blanks condensed: leading and trailing ones dropped, runs made single. The character of a
      reference is kept, whatever it is. */
  function TrimReading(s: string, gap: bool): string
    requires Legible(s)
    decreases |s|
  {
    var blank := if gap then " " else "";
    if s == "" then ""
    else if "&#x" <= s then blank + [RefChar(s)] + TrimReading(s[IndexOf(s, ';') + 1..], false)
    else if s[0] == ' ' then TrimReading(s[1..], true)
    else blank + [s[0]] + TrimReading(s[1..], false)
  }

  function DropBlanks(s: string): (t: string)
    ensures t != "" ==> t[0] != ' '
    ensures Legible(s) ==> Legible(t)
    ensures NoHexRef(s) ==> NoHexRef(t)
  {
    if s != "" && s[0] == ' ' then
      assert NoHexRef(s) ==> NoHexRef(s[1..]) by {
        if NoHexRef(s) {
          NoHexRefTail(s);
        }
      }
      DropBlanks(s[1..])
    else s
  }

  /** What a plain text reads back as. */
  function TextReading(s: string): string
    requires Legible(s)
  {
    TrimReading(DropBlanks(s), false)
  }

  /** A reference means the same whatever follows its `;`. */
  lemma ReferenceAlone(s: string, k: nat, x: string)
    requires "&#x" <= s && k == IndexOf(s, ';') && k < |s|
    ensures var r := s[..k + 1] + x;
            IsNumeric(s) && IsNumeric(r) && "&#x" <= r && ReadNumericRef(r) == ReadNumericRef(s)
            && (ReadNumericRef(s).Some? ==> ReadNumericRef(s).value.length == k + 1)
  {
    hide Accumulate;
    assert s[0] == '&' && s[1] == '#' && s[2] == 'x' && s[k] == ';';
    var r := s[..k + 1] + x;
    assert forall i :: 0 <= i <= k ==> r[i] == s[i];
    ClosedAt(s, 3, k);
    ClosedAt(r, 3, k);
    assert r[2..k] == s[2..k];
  }

  lemma ClosedAt(r: string, from: nat, k: nat)
    requires from <= k < |r| && r[k] == ';' && forall i :: from <= i < k ==> r[i] != ';'
    ensures IndexOf(r[from..], ';') == k - from
  {
    var j := IndexOf(r[from..], ';');
    assert r[from..][k - from] == ';';
    assert j < |r[from..]| ==> r[from + j] == ';';
  }

  lemma ReferenceRead(s: string, k: nat, x: string)
    requires "&#x" <= s && k == IndexOf(s, ';') && k < |s| && SpellsNumber(s)
    ensures GetChar(s[..k + 1] + x) == CharRead([RefChar(s)], Some(x))
  {
    ReferenceAlone(s, k, x);
    hide ReadNumericRef;
    var r := s[..k + 1] + x;
    assert r[0] == '&' && r[k + 1..] == x;
  }

  /** One step of reading an encoded string: what is read first, and the string behind it. */
  lemma EncodedStep(s: string, x: string) returns (c: string, t: string)
    requires s != "" && Legible(s)
    ensures |t| < |s| && Legible(t)
    ensures var r := Encode(s) + x;
            && r != "" && GetChar(r) == CharRead(c, Some(Encode(t) + x)) && |c| == 1
            && (IsWhite(r[0]) <==> s[0] == ' ') && (s[0] == ' ' ==> r[1..] == Encode(t) + x)
            && forall end | IsDelimiter(end) :: !(end <= r)
    ensures t == (if "&#x" <= s then s[IndexOf(s, ';') + 1..] else s[1..])
    ensures c == (if "&#x" <= s then [RefChar(s)] else [s[0]])
  {
    hide GetChar;
    hide EncodeChar;
    hide RefChar;
    if "&#x" <= s {
      var k := IndexOf(s, ';');
      c, t := [RefChar(s)], s[k + 1..];
      EncodeClosedReference(s, k);
      hide Encode;
      ConcatAssoc(s[..k + 1], Encode(t), x);
      ReferenceRead(s, k, Encode(t) + x);
      assert (s[..k + 1] + (Encode(t) + x))[0] == '&';
    } else {
      c, t := [s[0]], s[1..];
      ConcatAssoc(EncodeChar(s[0]), Encode(t), x);
      var y := Encode(t) + x;
      EncodedCharRead(s[0], y);
      EncodedCharStart(s[0], y, "<");
      EncodedCharStart(s[0], y, "'");
      EncodedCharStart(s[0], y, "\"");
      assert s[0] == ' ' ==> (EncodeChar(s[0]) + y)[1..] == y;
    }
  }

  /** Reading an encoded string up to its delimiter, white space kept, replaces its references. */
  lemma {:induction false} KeepReads(s: string, tail: string, end: string)
    requires Legible(s) && IsDelimiter(end) && end <= tail
    ensures ReadKeep(Encode(s) + tail, end) == TextRead(Reading(s), Some(tail))
    decreases |s|
  {
    hide GetChar;
    hide RefChar;
    if s == "" {
      assert Encode(s) + tail == tail;
    } else {
      var c, t := EncodedStep(s, tail);
      hide Encode;
      KeepReads(t, tail, end);
    }
  }

  /** In condensing mode runs of blanks shrink as well. */
  lemma {:induction false} TrimReads(s: string, gap: bool, w: string, tail: string, end: string)
    requires Legible(s) && IsDelimiter(end) && end <= tail && AllWhite(w)
    ensures ReadTrim(Encode(s) + (w + tail), gap, end) == TextRead(TrimReading(s, gap), Some(tail))
    decreases |s|
  {
    hide GetChar;
    hide RefChar;
    if s == "" {
      assert Encode(s) + (w + tail) == w + tail;
      hide Encode;
      TrimWhite(w, gap, tail, end);
    } else {
      var c, t := EncodedStep(s, w + tail);
      hide Encode;
      TrimReads(t, s[0] == ' ', w, tail, end);
    }
  }

  lemma {:induction false} TrimWhite(w: string, gap: bool, tail: string, end: string)
    requires AllWhite(w) && IsDelimiter(end) && end <= tail
    ensures ReadTrim(w + tail, gap, end) == TextRead("", Some(tail))
  {
    if w == "" {
      assert w + tail == tail;
    } else {
      var r := w + tail;
      assert r[0] == w[0] && r[1..] == w[1..] + tail;
      TrimWhite(w[1..], true, tail, end);
    }
  }

  /** `SkipWhite` in front of an encoded string drops its leading blanks only. */
  lemma {:induction false} SkipWhiteEncoded(s: string, tail: string)
    requires DropBlanks(s) != "" || tail == "" || !IsWhite(tail[0])
    ensures SkipWhite(Encode(s) + tail) == Encode(DropBlanks(s)) + tail
  {
    hide EncodeChar;
    if s == "" {
      assert Encode(s) + tail == tail;
    } else if "&#x" <= s {
      assert s[0] == '&';
      EncodeReference(s);
      assert (Encode(s) + tail)[0] == '&';
    } else {
      var x := Encode(s[1..]) + tail;
      assert Encode(s) + tail == EncodeChar(s[0]) + x;
      EncodedCharStart(s[0], x, "<");
      if s[0] == ' ' {
        assert (EncodeChar(s[0]) + x)[1..] == x;
        SkipWhiteEncoded(s[1..], tail);
      }
    }
  }

  // ----- reading undoes encoding

  /** Without references the reading is the string itself, its blanks condensed in condensing mode. */
  lemma {:induction false} PlainReading(s: string, gap: bool)
    requires NoHexRef(s)
    ensures Legible(s) && Reading(s) == s && TrimReading(s, gap) == Condense(s, gap)
  {
    if s != "" {
      NoHexRefTail(s);
      PlainReading(s[1..], s[0] == ' ');
      assert [s[0]] + s[1..] == s;
    }
  }

  /** Reading an encoded string up to its delimiter, white space kept, gives the string back. */
  lemma KeepUndoesEncode(s: string, tail: string, end: string)
    requires NoHexRef(s) && IsDelimiter(end)
    requires end <= tail
    ensures ReadKeep(Encode(s) + tail, end) == TextRead(s, Some(tail))
  {
    PlainReading(s, false);
    KeepReads(s, tail, end);
  }

  /** `s` with its blanks condensed: leading and trailing ones dropped, runs made single. */
  function Condense(s: string, gap: bool): string {
    if s == "" then ""
    else if s[0] == ' ' then Condense(s[1..], true)
    else (if gap then " " else "") + [s[0]] + Condense(s[1..], false)
  }

  function CondenseBlanks(s: string): string {
    Condense(DropBlanks(s), false)
  }

  lemma TrimUndoesEncode(s: string, gap: bool, w: string, tail: string, end: string)
    requires NoHexRef(s) && IsDelimiter(end)
    requires end <= tail && AllWhite(w)
    ensures ReadTrim(Encode(s) + (w + tail), gap, end) == TextRead(Condense(s, gap), Some(tail))
  {
    PlainReading(s, gap);
    TrimReads(s, gap, w, tail, end);
  }

  /** `ReadText` in its two modes on an encoded string. In the condensing mode only runs of 0x20
      shrink, because control characters travel as references. */
  lemma ReadTextReads(s: string, tail: string, end: string)
    requires Legible(s) && IsDelimiter(end)
    requires end <= tail
    ensures ReadText(Encode(s) + tail, false, true, end) == TextRead(Reading(s), PastEnd(Some(tail), end))
    ensures ReadText(Encode(s) + tail, true, true, end) == TextRead(TextReading(s), PastEnd(Some(tail), end))
  {
    hide ReadKeep;
    hide ReadTrim;
    hide Encode;
    hide SkipWhite;
    hide TrimReading;
    hide Reading;
    hide Legible;
    KeepReads(s, tail, end);
    SkipWhiteEncoded(s, tail);
    TrimReads(DropBlanks(s), false, "", tail, end);
    assert "" + tail == tail;
  }

  lemma ReadTextUndoesEncode(s: string, tail: string, end: string)
    requires NoHexRef(s) && IsDelimiter(end)
    requires end <= tail
    ensures ReadText(Encode(s) + tail, false, true, end) == TextRead(s, PastEnd(Some(tail), end))
    ensures ReadText(Encode(s) + tail, true, true, end) == TextRead(CondenseBlanks(s), PastEnd(Some(tail), end))
  {
    hide ReadText, Encode, TrimReading, Reading, Legible, Condense, NoHexRef;
    PlainReading(s, false);
    PlainReading(DropBlanks(s), false);
    ReadTextReads(s, tail, end);
  }

  /** Replacing a reference makes a string shorter. */
  lemma {:induction false} ReadingShrinks(s: string, gap: bool)
    requires Legible(s)
    ensures |Reading(s)| <= |s| && |TrimReading(s, gap)| <= |s| + (if gap then 1 else 0)
    ensures !NoHexRef(s) ==> |Reading(s)| < |s| && |TrimReading(s, gap)| < |s| + (if gap then 1 else 0)
    decreases |s|
  {
    hide RefChar;
    hide SpellsNumber;
    hide NoHexRef;
    if s == "" {
      NoHexRefEmpty();
    } else if "&#x" <= s {
      assert s[0] == '&' && s[1] == '#' && s[2] == 'x';
      ReadingShrinks(s[IndexOf(s, ';') + 1..], false);
    } else {
      ReadingShrinks(s[1..], s[0] == ' ');
      if NoHexRef(s[1..]) {
        NoHexRefCons(s);
      }
    }
  }

  lemma NoHexRefEmpty()
    ensures NoHexRef("")
  {
  }

  /** A legible value reads back as itself exactly when it holds no `&#x`. */
  lemma ReadingIff(s: string)
    requires Legible(s)
    ensures Reading(s) == s <==> NoHexRef(s)
  {
    if NoHexRef(s) {
      PlainReading(s, false);
    } else {
      ReadingShrinks(s, false);
    }
  }

  lemma {:induction false} DropShrinks(s: string)
    ensures |DropBlanks(s)| <= |s| && (NoHexRef(DropBlanks(s)) ==> NoHexRef(s))
  {
    hide NoHexRef;
    if s != "" && s[0] == ' ' {
      DropShrinks(s[1..]);
      if NoHexRef(s[1..]) {
        NoHexRefCons(s);
      }
    }
  }

  /** A legible plain text reads back as itself exactly when, besides, its blanks are condensed already. */
  lemma TextReadingIff(s: string)
    requires Legible(s)
    ensures TextReading(s) == s <==> NoHexRef(s) && CondenseBlanks(s) == s
  {
    hide Legible, TrimReading, Condense, NoHexRef, DropBlanks;
    if NoHexRef(s) {
      PlainReading(DropBlanks(s), false);
    } else {
      DropShrinks(s);
      ReadingShrinks(DropBlanks(s), false);
    }
  }

  // ----- exactly which strings survive

  /** The encoding of one character has a `;` at its end or nowhere. */
  lemma EncodedSemicolon(c: char)
    ensures forall i :: 0 <= i < |EncodeChar(c)| - 1 ==> EncodeChar(c)[i] != ';'
  {
  }

  /** A numeric reference ends at the first `;`. */
  lemma NumericRefEnd(r: string, m: nat)
    requires IsNumeric(r)
    requires m < |r| && forall i :: 0 <= i < m ==> r[i] != ';'
    ensures ReadNumericRef(r).Some? ==> ReadNumericRef(r).value.length > m
    ensures ReadNumericRef(r).Some? && r[m] == ';' && m >= 2 ==> ReadNumericRef(r).value.length == m + 1
  {
    var from := if r[2] == 'x' then 3 else 2;
    var j := IndexOf(r[from..], ';');
    assert j < |r[from..]| ==> r[from + j] == ';';
    assert m >= from ==> r[from..][m - from] == r[m];
  }

  /** A reference copied through with no `;` of its own takes its whole encoding at least, when it is read. */
  lemma OpenReferenceChar(s: string, x: string) returns (n: nat)
    requires "&#x" <= s && IndexOf(s, ';') == |s|
    ensures |Encode(s)| <= n <= |Encode(s) + x|
    ensures var r := Encode(s) + x;
            r != "" && r[0] == '&' && (GetChar(r).rest.None? || GetChar(r).rest == Some(r[n..]))
  {
    hide ReadNumericRef;
    hide Encode;
    hide IndexOf;
    EncodeOpenReference(s);
    var r := Encode(s) + x;
    var m := |Encode(s)| - 1;
    assert forall i :: 0 <= i < |Encode(s)| ==> r[i] == Encode(s)[i];
    NumericRefEnd(r, m);
    assert IsNumeric(r);
    n := if ReadNumericRef(r).Some? then ReadNumericRef(r).value.length else |r|;
  }

  /** It reads back as at most one character. */
  lemma OpenReferenceShrinks(s: string, tail: string, end: string)
    requires IsDelimiter(end) && end <= tail
    requires "&#x" <= s && IndexOf(s, ';') == |s|
    ensures var t := ReadKeep(Encode(s) + tail, end);
            t.rest.Some? && |t.rest.value| >= |tail| ==> |t.text| <= 1
  {
    hide GetChar, Encode, IndexOf;
    var r := Encode(s) + tail;
    var n := OpenReferenceChar(s, tail);
    if GetChar(r).rest.Some? {
      var rest := r[n..];
      if |rest| == |tail| {
        assert rest == tail;
        ReadKeepStops(tail, end);
      }
    }
  }

  lemma ReadKeepStops(tail: string, end: string)
    requires tail == "" || end <= tail
    ensures ReadKeep(tail, end) == TextRead("", Some(tail))
  {
  }

  lemma ReadTrimStops(tail: string, gap: bool, end: string)
    requires tail == "" || end <= tail
    ensures ReadTrim(tail, gap, end) == TextRead("", Some(tail))
  {
  }

  /** An open reference is copied but for its last character, so its encoding has a `;` at its end or nowhere. */
  lemma EncodeOpenReference(s: string)
    requires "&#x" <= s && IndexOf(s, ';') == |s|
    ensures |Encode(s)| >= 3 && Encode(s)[0] == '&' && Encode(s)[1] == '#'
    ensures forall i :: 0 <= i < |Encode(s)| - 1 ==> Encode(s)[i] != ';'
  {
    hide EncodeChar;
    var k := |s| - 1;
    EncodeReference(s);
    var t := s[k..];
    assert t == [s[k]] && t[1..] == "" && !("&#x" <= t);
    assert Encode(t) == EncodeChar(s[k]);
    assert s[0] == '&' && s[1] == '#' && s[2] == 'x';
    EncodedSemicolon(s[k]);
  }

  lemma EncodeReference(s: string)
    requires "&#x" <= s
    ensures Encode(s) == s[..PassLength(s)] + Encode(s[PassLength(s)..])
  {
  }

  lemma PassLengthClosed(s: string)
    requires "&#x" <= s && IndexOf(s, ';') < |s|
    ensures PassLength(s) == IndexOf(s, ';')
  {
  }

  lemma MoveCut(s: string, k: nat, x: string)
    requires k < |s|
    ensures s[..k] + ([s[k]] + x) == s[..k + 1] + x
  {
  }

  lemma EncodePlain(t: string)
    requires t != "" && t[0] == ';'
    ensures Encode(t) == [';'] + Encode(t[1..])
  {
  }

  /** A reference with its own `;` is copied through whole. */
  lemma EncodeClosedReference(s: string, k: nat)
    requires "&#x" <= s && k == IndexOf(s, ';') && k < |s|
    ensures Encode(s) == s[..k + 1] + Encode(s[k + 1..])
  {
    hide *;
    EncodeReference(s);
    PassLengthClosed(s);
    EncodePlain(s[k..]);
    assert s[k..][1..] == s[k + 1..];
    MoveCut(s, k, Encode(s[k + 1..]));
  }

  /** It reads back as at most one character, and reading goes on behind it. */
  lemma ClosedReferenceRead(s: string, k: nat, x: string)
    requires "&#x" <= s && k == IndexOf(s, ';') && k < |s|
    ensures var c := GetChar(s[..k + 1] + x); c.rest.None? || c.rest == Some(x)
  {
    hide ReadNumericRef;
    assert s[0] == '&' && s[1] == '#' && s[2] == 'x';
    var r := s[..k + 1] + x;
    assert r[0] == '&' && r[1] == '#' && r[2] == 'x' && r[k] == ';';
    assert forall i :: 0 <= i < k ==> r[i] == s[i];
    NumericRefEnd(r, k);
    assert r[k + 1..] == x;
  }

  /** Reading an encoded string and stopping no later than its delimiter gives at most its length,
      and less when a `&#x` was passed through. */
  lemma {:induction false} EncodedReadBound(s: string, tail: string, end: string)
    requires IsDelimiter(end) && end <= tail
    ensures var t := ReadKeep(Encode(s) + tail, end);
            t.rest.Some? && |t.rest.value| >= |tail| ==>
              |t.text| <= |s| && (!NoHexRef(s) ==> |t.text| < |s|)
    decreases |s|
  {
    hide GetChar;
    hide EncodeChar;
    hide PassLength;
    if s == "" {
      assert Encode(s) + tail == tail;
    } else if "&#x" <= s {
      hide Encode;
      if IndexOf(s, ';') == |s| {
        OpenReferenceShrinks(s, tail, end);
      } else {
        var k := IndexOf(s, ';');
        var x := Encode(s[k + 1..]) + tail;
        EncodeClosedReference(s, k);
        assert Encode(s) + tail == s[..k + 1] + x;
        ClosedReferenceRead(s, k, x);
        assert (s[..k + 1] + x)[0] == '&';
        EncodedReadBound(s[k + 1..], tail, end);
      }
    } else {
      var x := Encode(s[1..]) + tail;
      assert Encode(s) + tail == EncodeChar(s[0]) + x;
      hide Encode;
      EncodedCharRead(s[0], x);
      EncodedCharStart(s[0], x, end);
      EncodedReadBound(s[1..], tail, end);
      if NoHexRef(s[1..]) {
        NoHexRefCons(s);
      }
    }
  }

  lemma NoHexRefCons(s: string)
    requires s != "" && !("&#x" <= s) && NoHexRef(s[1..])
    ensures NoHexRef(s)
  {
    forall i | 0 <= i < |s| ensures !("&#x" <= s[i..]) {
      if i > 0 {
        assert s[i..] == s[1..][i - 1..];
      } else {
        assert s[0..] == s;
      }
    }
  }

  /** An attribute value survives printing and reading exactly when `&#x` does not occur in it. */
  lemma KeepUndoesEncodeIff(s: string, tail: string, end: string)
    requires IsDelimiter(end) && end <= tail
    ensures ReadKeep(Encode(s) + tail, end) == TextRead(s, Some(tail)) <==> NoHexRef(s)
  {
    if NoHexRef(s) {
      KeepUndoesEncode(s, tail, end);
    } else {
      EncodedReadBound(s, tail, end);
    }
  }

  // ----- the same in condensing mode

  /** How many characters of a string are no blanks: condensing keeps them all. */
  function Solid(s: string): (k: nat)
    ensures k <= |s|
  {
    if s == "" then 0 else (if s[0] == ' ' then 0 else 1) + Solid(s[1..])
  }

  lemma {:induction false} SolidSplit(s: string, t: string)
    ensures Solid(s + t) == Solid(s) + Solid(t)
  {
    if s == "" {
      assert s + t == t;
    } else {
      assert (s + t)[1..] == s[1..] + t;
      SolidSplit(s[1..], t);
    }
  }

  lemma {:induction false} SolidCondense(s: string, gap: bool)
    ensures Solid(Condense(s, gap)) == Solid(s)
  {
    if s != "" {
      SolidCondense(s[1..], s[0] == ' ');
      var blank, t := if gap then " " else "", Condense(s[1..], false);
      SolidSplit(blank + [s[0]], t);
      SolidSplit(blank, [s[0]]);
    }
  }

  /** A reference at the front has more characters that are no blanks than the one it stands for. */
  lemma SolidReference(s: string, k: nat)
    requires "&#x" <= s && 3 <= k <= |s|
    ensures Solid(s) >= 3 + Solid(s[k..])
  {
    assert s == s[..3] + (s[3..k] + s[k..]);
    SolidSplit(s[..3], s[3..k] + s[k..]);
    SolidSplit(s[3..k], s[k..]);
    assert s[..3] == "&#x" && Solid("&#x") == 1 + Solid("#x") && Solid("#x") == 1 + Solid("x");
  }

  /** One character read in condensing mode and what is read behind it. */
  lemma SolidStep(gap: bool, c: string, t: string)
    requires |c| <= 1
    ensures Solid((if gap then " " else "") + c + t) <= |c| + Solid(t)
  {
    var blank := if gap then " " else "";
    SolidSplit(blank + c, t);
    SolidSplit(blank, c);
  }

  lemma OpenTrimShrinks(s: string, gap: bool, w: string, tail: string, end: string)
    requires IsDelimiter(end) && end <= tail && AllWhite(w)
    requires "&#x" <= s && IndexOf(s, ';') == |s|
    ensures var t := ReadTrim(Encode(s) + (w + tail), gap, end);
            t.rest.Some? && |t.rest.value| >= |tail| ==> Solid(t.text) <= 1
  {
    hide GetChar, Encode, IndexOf, Solid, AllWhite;
    var r := Encode(s) + (w + tail);
    var n := OpenReferenceChar(s, w + tail);
    SolidStep(gap, GetChar(r).out, "");
    var blank := if gap then " " else "";
    assert blank + GetChar(r).out + "" == blank + GetChar(r).out;
    SolidEmpty();
    if GetChar(r).rest.Some? {
      var rest := r[n..];
      if |rest| >= |tail| {
        WhiteLeft(Encode(s), w, tail, n);
        TrimWhite(w[n - |Encode(s)|..], false, tail, end);
      }
    }
  }

  lemma SolidEmpty()
    ensures Solid("") == 0
  {
  }

  lemma WhiteLeft(e: string, w: string, tail: string, n: nat)
    requires |e| <= n <= |e| + |w| && AllWhite(w)
    ensures (e + (w + tail))[n..] == w[n - |e|..] + tail && AllWhite(w[n - |e|..])
  {
  }

  /** One step in condensing mode, where no open reference is at the front: `t` is left, and it has lost the
      characters read, two more when they were a reference. */
  lemma TrimMove(s: string, x: string) returns (t: string)
    requires s != "" && ("&#x" <= s ==> IndexOf(s, ';') < |s|)
    ensures |t| < |s| && (NoHexRef(t) && !("&#x" <= s) ==> NoHexRef(s))
    ensures Solid(t) + (if "&#x" <= s then 2 else if s[0] == ' ' then 0 else 1) <= Solid(s)
    ensures var r := Encode(s) + x;
            && r != "" && (IsWhite(r[0]) <==> s[0] == ' ')
            && (forall end | IsDelimiter(end) :: !(end <= r))
            && (if s[0] == ' ' then r[1..] == Encode(t) + x
                else GetChar(r).rest.None? || GetChar(r).rest == Some(Encode(t) + x))
  {
    hide GetChar, EncodeChar, NoHexRef;
    if "&#x" <= s {
      hide Encode;
      var k := IndexOf(s, ';');
      t := s[k + 1..];
      EncodeClosedReference(s, k);
      ConcatAssoc(s[..k + 1], Encode(t), x);
      ClosedReferenceRead(s, k, Encode(t) + x);
      assert (s[..k + 1] + (Encode(t) + x))[0] == '&';
      assert s[0] == '&' && s[1] == '#' && s[2] == 'x';
      SolidReference(s, k + 1);
    } else {
      t := s[1..];
      ConcatAssoc(EncodeChar(s[0]), Encode(t), x);
      hide Encode;
      var y := Encode(t) + x;
      EncodedCharRead(s[0], y);
      EncodedCharStart(s[0], y, "<");
      EncodedCharStart(s[0], y, "'");
      EncodedCharStart(s[0], y, "\"");
      assert s[0] == ' ' ==> (EncodeChar(s[0]) + y)[1..] == y;
      if NoHexRef(t) {
        NoHexRefCons(s);
      }
    }
  }

  /** Reading an encoded string in condensing mode and stopping no later than its delimiter gives at most its
      characters that are no blanks, and fewer when a `&#x` was passed through. */
  lemma {:induction false} EncodedTrimBound(s: string, gap: bool, w: string, tail: string, end: string)
    requires IsDelimiter(end) && end <= tail && AllWhite(w)
    ensures var t := ReadTrim(Encode(s) + (w + tail), gap, end);
            t.rest.Some? && |t.rest.value| >= |tail| ==>
              Solid(t.text) <= Solid(s) && (!NoHexRef(s) ==> Solid(t.text) < Solid(s))
    decreases |s|
  {
    hide GetChar, NoHexRef, AllWhite, IndexOf, Solid;
    if s == "" {
      assert Encode(s) + (w + tail) == w + tail;
      TrimWhite(w, gap, tail, end);
      NoHexRefEmpty();
      SolidEmpty();
    } else if "&#x" <= s && IndexOf(s, ';') == |s| {
      hide Encode;
      SolidReference(s, |s|);
      OpenTrimShrinks(s, gap, w, tail, end);
    } else {
      hide Encode;
      var x := w + tail;
      var t := TrimMove(s, x);
      EncodedTrimBound(t, s[0] == ' ', w, tail, end);
      SolidStep(gap, GetChar(Encode(s) + x).out, ReadTrim(Encode(t) + x, false, end).text);
    }
  }

  /** A plain text comes back with its blanks condensed and nothing else changed exactly when `&#x` does not occur
      in it. */
  lemma TrimUndoesEncodeIff(s: string, gap: bool, w: string, tail: string, end: string)
    requires IsDelimiter(end) && end <= tail && AllWhite(w)
    ensures ReadTrim(Encode(s) + (w + tail), gap, end) == TextRead(Condense(s, gap), Some(tail)) <==> NoHexRef(s)
  {
    if NoHexRef(s) {
      TrimUndoesEncode(s, gap, w, tail, end);
    } else {
      EncodedTrimBound(s, gap, w, tail, end);
      SolidCondense(s, gap);
    }
  }

  // ----- the loops of the source

  /** `next` is the index in `s` of the pointer `rest`. */
  ghost predicate PointsAt(s: string, next: Option<nat>, rest: Ptr) {
    match next
    case None => rest.None?
    case Some(q) => q <= |s| && rest == Some(s[q..])
  }

  /** The digit loop of `GetEntity`, from `last` back to the character at `from`. */
  method AccumulateBack(s: string, from: nat, last: nat, base: nat) returns (ucs: Option<nat>)
    requires from <= last < |s|
    ensures ucs == Accumulate(s[from..last + 1], s[from], base, 1, 0)
  {
    var mult: nat, sum: nat := 1, 0;
    var q := last;
    while s[q] != s[from]
      invariant from <= q <= last
      invariant Accumulate(s[from..q + 1], s[from], base, mult, sum)
             == Accumulate(s[from..last + 1], s[from], base, 1, 0)
      decreases q
    {
      assert s[from..q + 1][..q - from] == s[from..q];
      var d := DigitValue(s[q], base);
      if d.None? {
        return None;
      }
      sum := (sum + (mult * d.value) % WORD32) % WORD64;
      mult := (mult * base) % WORD32;
      q := q - 1;
    }
    ucs := Some(sum);
  }

  /** The numeric branch of `GetEntity` at index `p`. */
  method NumericRefAt(s: string, p: nat) returns (ref: Option<NumericRef>)
    requires p + 2 < |s| && s[p] == '&' && s[p + 1] == '#'
    ensures ref == ReadNumericRef(s[p..])
  {
    ghost var r := s[p..];
    var hex := s[p + 2] == 'x';
    var from := if hex then p + 3 else p + 2;
    var k := from + IndexOf(s[from..], ';');
    assert r[from - p..] == s[from..];
    if k == |s| {
      return None;
    }
    var ucs := AccumulateBack(s, from - 1, k - 1, if hex then 16 else 10);
    assert r[from - 1 - p..k - p] == s[from - 1..k];
    ref := if ucs.None? then None else Some(NumericRef(ucs.value, k - p + 1));
  }

  /** The table of named entities, in the order it is searched. */
  const ENTITIES: seq<(string, char)> := [(AMP, '&'), (LT, '<'), (GT, '>'), (QUOT, '"'), (APOS, '\'')]

  /** `GetChar` at index `p`, with the branches of `GetEntity`. */
  method GetCharAt(s: string, p: nat) returns (out: string, next: Option<nat>)
    requires p < |s|
    ensures out == GetChar(s[p..]).out
    ensures PointsAt(s, next, GetChar(s[p..]).rest)
    ensures next.Some? ==> next.value > p
  {
    hide ReadNumericRef;
    ghost var r := s[p..];
    if s[p] != '&' {
      return [s[p]], Some(p + 1);
    }
    if p + 2 < |s| && s[p + 1] == '#' {
      var ref := NumericRefAt(s, p);
      if ref.None? {
        return "", None;
      }
      assert r[ref.value.length..] == s[p + ref.value.length..];
      return [(ref.value.code % 256) as char], Some(p + ref.value.length);
    }
    var i := 0;
    while i < |ENTITIES| && !(ENTITIES[i].0 <= s[p..])
      invariant 0 <= i <= |ENTITIES|
      invariant forall j :: 0 <= j < i ==> !(ENTITIES[j].0 <= r)
    {
      i := i + 1;
    }
    NamedEntity(r, i);
    if i < |ENTITIES| {
      var length := |ENTITIES[i].0|;
      assert r[length..] == s[p + length..];
      return [ENTITIES[i].1], Some(p + length);
    }
    return "", Some(p + 1);
  }

  /** The first entry of the table that `r` starts with decides the entity. */
  lemma NamedEntity(r: string, i: nat)
    requires r != "" && r[0] == '&' && !IsNumeric(r)
    requires i <= |ENTITIES|
    requires forall j :: 0 <= j < i ==> !(ENTITIES[j].0 <= r)
    requires i < |ENTITIES| ==> ENTITIES[i].0 <= r
    ensures GetEntity(r) == if i < |ENTITIES| then CharRead([ENTITIES[i].1], Some(r[|ENTITIES[i].0|..]))
                            else CharRead("", Some(r[1..]))
  {
    hide ReadNumericRef;
    assert i > 0 ==> !(ENTITIES[0].0 <= r);
    assert i > 1 ==> !(ENTITIES[1].0 <= r);
    assert i > 2 ==> !(ENTITIES[2].0 <= r);
    assert i > 3 ==> !(ENTITIES[3].0 <= r);
    assert i > 4 ==> !(ENTITIES[4].0 <= r);
  }

  /** The loop of `ReadText` that keeps white space, from index `p`. */
  method ReadKeepAt(s: string, p: nat, end: string) returns (text: string, next: Option<nat>)
    requires p <= |s|
    ensures text == ReadKeep(s[p..], end).text
    ensures PointsAt(s, next, ReadKeep(s[p..], end).rest)
    ensures next.Some? ==> p <= next.value
  {
    hide GetChar;
    text := "";
    var q := p;
    ghost var whole := ReadKeep(s[p..], end);
    while q < |s| && !(end <= s[q..])
      invariant p <= q <= |s|
      invariant var t := ReadKeep(s[q..], end); whole == TextRead(text + t.text, t.rest)
      decreases |s| - q
    {
      ghost var t := ReadKeep(s[q..], end);
      var c, after := GetCharAt(s, q);
      if after.None? {
        return text + c, None;
      }
      assert text + t.text == (text + c) + ReadKeep(s[after.value..], end).text;
      text := text + c;
      q := after.value;
    }
    next := Some(q);
  }

  /** One step of the condensing loop, with `text` read so far. */
  lemma ReadTrimStep(text: string, r: string, gap: bool, end: string)
    requires r != "" && !(end <= r)
    ensures var t := ReadTrim(r, gap, end);
            if IsWhite(r[0]) then t == ReadTrim(r[1..], true, end)
            else
              var c := GetChar(r);
              var read := text + (if gap then " " else "") + c.out;
              if c.rest.None? then TextRead(text + t.text, t.rest) == TextRead(read, None)
              else var u := ReadTrim(c.rest.value, false, end);
                   TextRead(text + t.text, t.rest) == TextRead(read + u.text, u.rest)
  {
    hide GetChar;
    if !IsWhite(r[0]) {
      var c := GetChar(r);
      var blank := if gap then " " else "";
      assert text + (blank + c.out) == text + blank + c.out;
      if c.rest.Some? {
        var u := ReadTrim(c.rest.value, false, end);
        assert text + (blank + c.out + u.text) == (text + blank + c.out) + u.text;
      }
    }
  }

  /** The loop of `ReadText` that condenses white space, from index `p`. */
  method ReadTrimAt(s: string, p: nat, end: string) returns (text: string, next: Option<nat>)
    requires p <= |s|
    ensures text == ReadTrim(s[p..], false, end).text
    ensures PointsAt(s, next, ReadTrim(s[p..], false, end).rest)
    ensures next.Some? ==> p <= next.value
  {
    hide GetChar;
    hide ReadTrim;
    text := "";
    var q := p;
    var gap := false;
    ghost var whole := ReadTrim(s[p..], false, end);
    assert whole == TextRead("" + whole.text, whole.rest);
    while q < |s| && !(end <= s[q..])
      invariant p <= q <= |s|
      invariant var t := ReadTrim(s[q..], gap, end); whole == TextRead(text + t.text, t.rest)
      decreases |s| - q
    {
      ReadTrimStep(text, s[q..], gap, end);
      if IsWhite(s[q]) {
        gap := true;
        q := q + 1;
      } else {
        if gap {
          text := text + " ";
          gap := false;
        }
        var c, after := GetCharAt(s, q);
        text := text + c;
        if after.None? {
          return text, None;
        }
        q := after.value;
      }
    }
    ReadTrimStops(s[q..], gap, end);
    next := Some(q);
  }

  /** `ReadText` at index `p`: one of the two loops, then the step over the end tag. */
  method ReadTextAt(s: string, p: nat, trim: bool, condense: bool, end: string)
    returns (text: string, next: Option<nat>)
    requires p <= |s| && end != ""
    ensures text == ReadText(s[p..], trim, condense, end).text
    ensures PointsAt(s, next, ReadText(s[p..], trim, condense, end).rest)
    ensures next.Some? ==> p + |end| <= next.value < |s| && s[next.value - |end|..next.value] == end
  {
    hide ReadKeep;
    hide ReadTrim;
    hide SkipWhite;
    var at: Option<nat>;
    if !trim || !condense {
      text, at := ReadKeepAt(s, p, end);
    } else if p < |s| {
      var q := SkipWhiteFrom(s, p);
      text, at := ReadTrimAt(s, q, end);
    } else {
      text, at := "", None;
    }
    next := None;
    if at.Some? && at.value < |s| {
      assert s[at.value..][|end|..] == s[at.value + |end|..];
      if at.value + |end| < |s| {
        assert s[at.value..at.value + |end|] == s[at.value..][..|end|] == end;
        next := Some(at.value + |end|);
      }
    }
  }

  /** The pass-through loop of `EncodeString` from the `&` at `start`. */
  method PassReference(str: string, start: nat) returns (out: string, i: nat)
    requires start <= |str| && "&#x" <= str[start..]
    ensures i == start + PassLength(str[start..]) && out == str[start..i]
  {
    ghost var r := str[start..];
    assert r[0] == '&' && r[1] == '#' && r[2] == 'x';
    ghost var k := IndexOf(r, ';');
    out, i := "", start;
    while i < |str| - 1
      invariant start <= i < |str| && i - start < k
      invariant out == str[start..i]
    {
      out := out + [str[i]];
      i := i + 1;
      assert r[i - start] == str[i];
      if str[i] == ';' {
        break;
      }
    }
    assert k < |r| ==> r[k] == ';';
  }

  /** `EncodeString`. */
  method EncodeString(str: string) returns (out: string)
    ensures out == Encode(str)
  {
    hide EncodeChar;
    hide PassLength;
    hide Encode;
    out := "";
    var i := 0;
    while i < |str|
      invariant 0 <= i <= |str|
      invariant out + Encode(str[i..]) == Encode(str)
    {
      HexRefAt(str, i);
      if i + 2 < |str| && str[i] == '&' && str[i + 1] == '#' && str[i + 2] == 'x' {
        EncodeReferenceStep(out, str[i..]);
        var passed, after := PassReference(str, i);
        assert str[i..][..after - i] == str[i..after];
        assert str[i..][after - i..] == str[after..];
        out := out + passed;
        i := after;
      } else {
        EncodeCharStep(out, str[i..]);
        out := out + EncodeChar(str[i]);
        i := i + 1;
      }
    }
    assert str[i..] == "";
    EncodeCharStep(out, "");
  }

  lemma HexRefAt(str: string, i: nat)
    requires i <= |str|
    ensures "&#x" <= str[i..] <==>
            i + 2 < |str| && str[i] == '&' && str[i + 1] == '#' && str[i + 2] == 'x'
  {
    var r := str[i..];
    assert |r| >= 3 ==> r[0] == str[i] && r[1] == str[i + 1] && r[2] == str[i + 2];
  }

  lemma EncodeReferenceStep(out: string, r: string)
    requires "&#x" <= r
    ensures out + Encode(r) == out + r[..PassLength(r)] + Encode(r[PassLength(r)..])
  {
    hide PassLength;
    EncodeReference(r);
    hide Encode;
    assert out + (r[..PassLength(r)] + Encode(r[PassLength(r)..])) == out + r[..PassLength(r)] + Encode(r[PassLength(r)..]);
  }

  lemma EncodeCharStep(out: string, r: string)
    requires !("&#x" <= r)
    ensures out + Encode(r) == if r == "" then out else out + EncodeChar(r[0]) + Encode(r[1..])
  {
    hide EncodeChar;
    if r != "" {
      var x := Encode(r[1..]);
      assert out + (EncodeChar(r[0]) + x) == out + EncodeChar(r[0]) + x;
    }
  }
}
