/** Character data piece by piece: how a text is spelled, and what it says. The two loops of `ReadText` take exactly
    these spellings. */
module XmlPieces {
  import opened XmlChars
  import opened XmlText

  /** One character as it can be written: itself, an entity of the table, a numeric reference, or a `&` that starts
      neither of them. */
  datatype Piece = Plain(c: char) | Named(i: Entry) | Numeric(text: string) | Stray

  /** An entry of the table of entities. */
  type Entry = i: nat | i < 5 witness 0

  function PieceText(p: Piece): string {
    match p
    case Plain(c) => [c]
    case Named(i) => ENTITIES[i].0
    case Numeric(text) => text
    case Stray => "&"
  }

  /** What it says: a `&` on its own says nothing. */
  function PieceValue(p: Piece): string {
    match p
    case Plain(c) => [c]
    case Named(i) => [ENTITIES[i].1]
    case Numeric(text) =>
      if IsNumeric(text) && ReadNumericRef(text).Some? then [(ReadNumericRef(text).value.code % 256) as char] else ""
    case Stray => ""
  }

  /** A numeric reference ends at its first `;` and has digits in front of it. */
  predicate Whole(p: Piece) {
    match p
    case Plain(c) => c != '&'
    case Named(_) => true
    case Numeric(text) =>
      IsNumeric(text) && ReadNumericRef(text).Some? && ReadNumericRef(text).value.length == |text|
    case Stray => true
  }

  /** It is read as that in front of `y`: a `&` on its own must not become a reference with what follows. */
  predicate Fits(p: Piece, y: string) {
    Whole(p) && (p.Stray? ==> !IsNumeric("&" + y) && forall j :: 0 <= j < |ENTITIES| ==> !(ENTITIES[j].0 <= "&" + y))
  }

  // ----- one piece

  lemma NamedRead(i: nat, y: string)
    requires i < |ENTITIES|
    ensures GetChar(ENTITIES[i].0 + y) == CharRead([ENTITIES[i].1], Some(y))
  {
    EntityRead(ENTITIES[i].0, ENTITIES[i].1, y);
    assert (ENTITIES[i].0 + y)[0] == '&';
  }

  /** A reference that ends at its first `;` is read alike in front of anything. */
  lemma NumericStable(text: string, y: string)
    requires IsNumeric(text) && ReadNumericRef(text).Some? && ReadNumericRef(text).value.length == |text|
    ensures IsNumeric(text + y) && ReadNumericRef(text + y) == ReadNumericRef(text)
  {
    hide Accumulate;
    var r := text + y;
    var from := if text[2] == 'x' then 3 else 2;
    assert forall i :: 0 <= i < |text| ==> r[i] == text[i];
    var k := |text| - 1;
    assert from + IndexOf(text[from..], ';') == k;
    assert text[k] == text[from..][k - from] == ';';
    assert forall i :: from <= i < k ==> r[i] != ';' by {
      forall i | from <= i < k ensures r[i] != ';' {
        assert r[i] == text[from..][i - from];
      }
    }
    ClosedAt(r, from, k);
    PrefixSlice(text, r, from - 1, k);
  }

  lemma PrefixSlice(t: string, r: string, a: nat, b: nat)
    requires t <= r && a <= b <= |t|
    ensures r[a..b] == t[a..b]
  {
  }

  lemma StrayRead(y: string)
    requires Fits(Stray, y)
    ensures GetChar("&" + y) == CharRead("", Some(y))
  {
    hide ReadNumericRef;
    var r := "&" + y;
    assert r[1..] == y;
    NamedEntity(r, |ENTITIES|);
  }

  /** A fitting piece is read as what it says, and nothing behind it is. */
  lemma PieceRead(p: Piece, y: string)
    requires Fits(p, y)
    ensures GetChar(PieceText(p) + y) == CharRead(PieceValue(p), Some(y))
  {
    hide ReadNumericRef;
    match p
    case Plain(c) => assert ([c] + y)[1..] == y;
    case Named(i) => NamedRead(i, y);
    case Numeric(text) =>
      NumericStable(text, y);
      assert (text + y)[|text|..] == y && (text + y)[0] == '&';
    case Stray => StrayRead(y);
  }

  /** The first entry of the table that `r` starts with. */
  lemma FirstEntity(r: string) returns (i: nat)
    ensures i <= |ENTITIES| && (i < |ENTITIES| ==> ENTITIES[i].0 <= r)
    ensures forall j :: 0 <= j < i ==> !(ENTITIES[j].0 <= r)
  {
    i := 0;
    while i < |ENTITIES| && !(ENTITIES[i].0 <= r)
      invariant i <= |ENTITIES| && forall j :: 0 <= j < i ==> !(ENTITIES[j].0 <= r)
    {
      i := i + 1;
    }
  }

  lemma NumericAlone(r: string, k: nat)
    requires IsNumeric(r) && ReadNumericRef(r).Some? && k == ReadNumericRef(r).value.length
    ensures k <= |r| && IsNumeric(r[..k]) && ReadNumericRef(r[..k]) == ReadNumericRef(r)
  {
    hide Accumulate;
    var t := r[..k];
    var from := if r[2] == 'x' then 3 else 2;
    assert from + IndexOf(r[from..], ';') == k - 1;
    assert r[k - 1] == r[from..][k - 1 - from] == ';';
    assert forall i :: 0 <= i < k ==> t[i] == r[i];
    forall i | from <= i < k - 1 ensures t[i] != ';' {
      assert t[i] == r[from..][i - from];
    }
    assert t[k - 1] == ';';
    ClosedAt(t, from, k - 1);
    PrefixSlice(t, r, from - 1, k - 1);
  }

  /** Whatever is read as one character is a fitting piece in front of the rest. */
  lemma PieceFound(r: string) returns (p: Piece)
    requires r != "" && GetChar(r).rest.Some?
    ensures var c := GetChar(r);
            Fits(p, c.rest.value) && r == PieceText(p) + c.rest.value && c.out == PieceValue(p)
  {
    hide ReadNumericRef;
    if r[0] != '&' {
      p := Plain(r[0]);
      assert r == [r[0]] + r[1..];
    } else if IsNumeric(r) {
      var k := ReadNumericRef(r).value.length;
      NumericAlone(r, k);
      p := Numeric(r[..k]);
      assert r == r[..k] + r[k..];
    } else {
      var i := FirstEntity(r);
      NamedEntity(r, i);
      if i < |ENTITIES| {
        p := Named(i);
        assert r == ENTITIES[i].0 + r[|ENTITIES[i].0|..];
      } else {
        p := Stray;
        assert r == "&" + r[1..];
      }
    }
  }

  // ----- pieces in a row

  function PiecesText(ps: seq<Piece>): string {
    if ps == [] then "" else PieceText(ps[0]) + PiecesText(ps[1..])
  }

  function Values(ps: seq<Piece>): string {
    if ps == [] then "" else PieceValue(ps[0]) + Values(ps[1..])
  }

  predicate AllFit(ps: seq<Piece>, tail: string)
  {
    ps == [] || (Fits(ps[0], PiecesText(ps[1..]) + tail) && AllFit(ps[1..], tail))
  }

  /** None of them is the delimiter itself. */
  predicate Avoids(ps: seq<Piece>, end: string) {
    forall i :: 0 <= i < |ps| && ps[i].Plain? ==> [ps[i].c] != end
  }

  lemma PieceStart(p: Piece, y: string, end: string)
    requires Fits(p, y) && IsDelimiter(end) && (p.Plain? ==> [p.c] != end)
    ensures var r := PieceText(p) + y; r != "" && !(end <= r) && (IsWhite(r[0]) <==> p.Plain? && IsWhite(p.c))
  {
    assert p.Named? ==> ENTITIES[p.i].0[0] == '&';
    assert (PieceText(p) + y)[0] == PieceText(p)[0];
  }

  /** Keeping white space: the pieces up to the delimiter are read as what they say. */
  lemma {:induction false} KeepSpelled(ps: seq<Piece>, tail: string, end: string)
    requires AllFit(ps, tail) && Avoids(ps, end) && IsDelimiter(end) && (tail == "" || end <= tail)
    ensures ReadKeep(PiecesText(ps) + tail, end) == TextRead(Values(ps), Some(tail))
  {
    hide GetChar, PieceText, PieceValue, Fits, Whole;
    if ps == [] {
      assert "" + tail == tail;
    } else {
      var y := PiecesText(ps[1..]) + tail;
      ConcatAssoc(PieceText(ps[0]), PiecesText(ps[1..]), tail);
      PieceRead(ps[0], y);
      PieceStart(ps[0], y, end);
      KeepSpelled(ps[1..], tail, end);
    }
  }

  lemma PiecesCons(p: Piece, ps: seq<Piece>, tail: string, end: string)
    requires AllFit(ps, tail) && Avoids(ps, end)
    requires Fits(p, PiecesText(ps) + tail) && (p.Plain? ==> [p.c] != end)
    ensures var all := [p] + ps;
            && AllFit(all, tail) && Avoids(all, end)
            && PiecesText(all) == PieceText(p) + PiecesText(ps) && Values(all) == PieceValue(p) + Values(ps)
  {
    assert ([p] + ps)[1..] == ps;
  }

  /** Whatever is read up to the delimiter, or to the end, is spelled by such pieces. */
  lemma {:induction false} KeepFound(r: string, end: string) returns (ps: seq<Piece>)
    requires IsDelimiter(end) && ReadKeep(r, end).rest.Some?
    ensures var t := ReadKeep(r, end);
            && AllFit(ps, t.rest.value) && Avoids(ps, end)
            && r == PiecesText(ps) + t.rest.value && t.text == Values(ps)
    decreases |r|
  {
    hide GetChar, PieceText, PieceValue, Fits;
    var t := ReadKeep(r, end);
    if r == "" || end <= r {
      ps := [];
      assert r == "" + r;
    } else {
      var c := GetChar(r);
      var p := PieceFound(r);
      var rest := KeepFound(c.rest.value, end);
      NotEnd(p, c.rest.value, end);
      PiecesCons(p, rest, t.rest.value, end);
      ps := [p] + rest;
      ConcatAssoc(PieceText(p), PiecesText(rest), t.rest.value);
    }
  }

  lemma NotEnd(p: Piece, y: string, end: string)
    requires !(end <= PieceText(p) + y) && IsDelimiter(end)
    ensures p.Plain? ==> [p.c] != end
  {
  }

  // ----- condensing

  predicate WhitePiece(p: Piece) {
    p.Plain? && IsWhite(p.c)
  }

  /** What the words say that white space parts; a reference is never white space. */
  function WordValues(ps: seq<Piece>): (ws: seq<string>)
    ensures ps != [] && !WhitePiece(ps[0]) ==> ws != []
  {
    if ps == [] then []
    else
      var ws := WordValues(ps[1..]);
      if WhitePiece(ps[0]) then ws
      else if |ps| > 1 && !WhitePiece(ps[1]) then [PieceValue(ps[0]) + ws[0]] + ws[1..]
      else [PieceValue(ps[0])] + ws
  }

  /** The words with one blank between each two. */
  function Join(ws: seq<string>): string {
    if ws == [] then "" else if |ws| == 1 then ws[0] else ws[0] + " " + Join(ws[1..])
  }

  /** The words with a blank in front of each. */
  function Lead(ws: seq<string>): string {
    if ws == [] then "" else " " + ws[0] + Lead(ws[1..])
  }

  lemma {:induction false} LeadJoin(ws: seq<string>)
    requires ws != []
    ensures Lead(ws) == " " + Join(ws) && Join(ws) == ws[0] + Lead(ws[1..])
  {
    if |ws| == 1 {
      assert ws[1..] == [];
      assert " " + ws[0] + "" == " " + ws[0] && ws[0] + "" == ws[0];
    } else {
      LeadJoin(ws[1..]);
      var j := Join(ws[1..]);
      assert ws[0] + " " + j == ws[0] + (" " + j);
      assert " " + ws[0] + (" " + j) == " " + (ws[0] + " " + j);
    }
  }

  /** What the condensing loop makes of the pieces, with white space waiting in front or not. */
  function Trimmed(ps: seq<Piece>, gap: bool): string {
    if gap || ps == [] || WhitePiece(ps[0]) then Lead(WordValues(ps)) else Join(WordValues(ps))
  }

  lemma TrimmedStep(ps: seq<Piece>, gap: bool)
    requires ps != []
    ensures Trimmed(ps, gap) ==
              if WhitePiece(ps[0]) then Trimmed(ps[1..], true)
              else (if gap then " " else "") + PieceValue(ps[0]) + Trimmed(ps[1..], false)
  {
    hide PieceValue, WhitePiece, Join, Lead;
    if !WhitePiece(ps[0]) {
      var v, ws, t := PieceValue(ps[0]), WordValues(ps), Trimmed(ps[1..], false);
      WordStep(ps);
      LeadJoin(ws);
      hide WordValues;
      assert Trimmed(ps, gap) == (if gap then " " else "") + (v + t);
      ConcatAssoc(if gap then " " else "", v, t);
    }
  }

  /** A word starts with what its first piece says. */
  lemma WordStep(ps: seq<Piece>)
    requires ps != [] && !WhitePiece(ps[0])
    ensures Join(WordValues(ps)) == PieceValue(ps[0]) + Trimmed(ps[1..], false)
  {
    var v, us := PieceValue(ps[0]), WordValues(ps[1..]);
    hide PieceValue, WhitePiece;
    if |ps| > 1 && !WhitePiece(ps[1]) {
      assert WordValues(ps) == [v + us[0]] + us[1..];
      LeadJoin(us);
      JoinFirst(v + us[0], us[1..]);
      hide Join, Lead, WordValues;
      ConcatAssoc(v, us[0], Lead(us[1..]));
    } else {
      assert WordValues(ps) == [v] + us;
      JoinFirst(v, us);
    }
  }

  lemma JoinFirst(w: string, ws: seq<string>)
    ensures Join([w] + ws) == w + Lead(ws)
  {
    LeadJoin([w] + ws);
    assert ([w] + ws)[1..] == ws;
  }

  lemma {:induction false} TrimSpelled(ps: seq<Piece>, gap: bool, tail: string, end: string)
    requires AllFit(ps, tail) && Avoids(ps, end) && IsDelimiter(end) && (tail == "" || end <= tail)
    ensures ReadTrim(PiecesText(ps) + tail, gap, end) == TextRead(Trimmed(ps, gap), Some(tail))
    decreases ps
  {
    hide GetChar, PieceText, PieceValue, Fits, Whole, Trimmed;
    if ps == [] {
      assert "" + tail == tail;
      TrimmedNone(gap);
    } else {
      var y := PiecesText(ps[1..]) + tail;
      var r := PieceText(ps[0]) + y;
      ConcatAssoc(PieceText(ps[0]), PiecesText(ps[1..]), tail);
      PieceRead(ps[0], y);
      PieceStart(ps[0], y, end);
      TrimmedStep(ps, gap);
      if WhitePiece(ps[0]) {
        WhiteText(ps[0], y);
        TrimSpelled(ps[1..], true, tail, end);
      } else {
        TrimSpelled(ps[1..], false, tail, end);
      }
    }
  }

  /** And whatever it reads up to the delimiter, or to the end, is spelled by such pieces. */
  lemma {:induction false} TrimFound(r: string, gap: bool, end: string) returns (ps: seq<Piece>)
    requires IsDelimiter(end) && ReadTrim(r, gap, end).rest.Some?
    ensures var t := ReadTrim(r, gap, end);
            && AllFit(ps, t.rest.value) && Avoids(ps, end)
            && r == PiecesText(ps) + t.rest.value && t.text == Trimmed(ps, gap)
    decreases |r|
  {
    hide GetChar, PieceText, PieceValue, Fits, Trimmed;
    var t := ReadTrim(r, gap, end);
    if r == "" || end <= r {
      ps := [];
      TrimmedNone(gap);
      assert r == "" + r;
    } else {
      var p, rest, y;
      if IsWhite(r[0]) {
        p, y := Plain(r[0]), r[1..];
        WhiteFits(r);
        rest := TrimFound(y, true, end);
      } else {
        p := PieceFound(r);
        y := GetChar(r).rest.value;
        NotWhitePiece(p, y);
        rest := TrimFound(y, false, end);
      }
      NotEnd(p, y, end);
      PiecesCons(p, rest, t.rest.value, end);
      ps := [p] + rest;
      assert ps[1..] == rest;
      TrimmedStep(ps, gap);
      ConcatAssoc(PieceText(p), PiecesText(rest), t.rest.value);
    }
  }

  lemma WhiteFits(r: string)
    requires r != "" && IsWhite(r[0])
    ensures var p := Plain(r[0]); WhitePiece(p) && Fits(p, r[1..]) && r == PieceText(p) + r[1..]
  {
  }

  lemma NotWhitePiece(p: Piece, y: string)
    requires PieceText(p) + y != "" && !IsWhite((PieceText(p) + y)[0])
    ensures !WhitePiece(p)
  {
  }

  lemma TrimmedNone(gap: bool)
    ensures Trimmed([], gap) == ""
  {
  }

  lemma WhiteText(p: Piece, y: string)
    requires WhitePiece(p)
    ensures PieceText(p) == [p.c] && (PieceText(p) + y)[1..] == y
  {
  }

  function DropWhite(ps: seq<Piece>): (qs: seq<Piece>)
    ensures qs != [] ==> !WhitePiece(qs[0])
    ensures |qs| <= |ps|
  {
    if ps != [] && WhitePiece(ps[0]) then DropWhite(ps[1..]) else ps
  }

  lemma {:induction false} DropWhiteFits(ps: seq<Piece>, tail: string, end: string)
    requires AllFit(ps, tail) && Avoids(ps, end) && IsDelimiter(end) && end <= tail
    ensures var qs := DropWhite(ps);
            && AllFit(qs, tail) && Avoids(qs, end) && WordValues(qs) == WordValues(ps)
            && SkipWhite(PiecesText(ps) + tail) == PiecesText(qs) + tail
    decreases ps
  {
    hide PieceText, PieceValue, Fits, Whole;
    if ps == [] {
      assert "" + tail == tail && !IsWhite(tail[0]);
    } else {
      var y := PiecesText(ps[1..]) + tail;
      ConcatAssoc(PieceText(ps[0]), PiecesText(ps[1..]), tail);
      PieceStart(ps[0], y, end);
      if WhitePiece(ps[0]) {
        WhiteText(ps[0], y);
        DropWhiteFits(ps[1..], tail, end);
      }
    }
  }

  /** White space in front of pieces is pieces as well, and changes no word. */
  lemma {:induction false} WhitePieces(w: string, ps: seq<Piece>, tail: string, end: string) returns (qs: seq<Piece>)
    requires AllWhite(w) && AllFit(ps, tail) && Avoids(ps, end) && IsDelimiter(end)
    ensures AllFit(qs, tail) && Avoids(qs, end) && PiecesText(qs) == w + PiecesText(ps)
    ensures WordValues(qs) == WordValues(ps) && DropWhite(qs) == DropWhite(ps)
  {
    if w == "" {
      qs := ps;
    } else {
      var rest := WhitePieces(w[1..], ps, tail, end);
      var p := Plain(w[0]);
      WhiteFits([w[0]] + (PiecesText(rest) + tail));
      hide PieceText, PieceValue, Fits, WhitePiece, PiecesText, AllFit, Avoids;
      PiecesCons(p, rest, tail, end);
      qs := [p] + rest;
      assert qs[1..] == rest;
      WhiteText(p, "");
      assert w == [w[0]] + w[1..];
      ConcatAssoc([w[0]], w[1..], PiecesText(ps));
    }
  }

  /** `ReadText` on pieces in front of a delimiter: every piece as it says, or the words with one blank between. */
  lemma TextSpelled(ps: seq<Piece>, tail: string, end: string)
    requires AllFit(ps, tail) && Avoids(ps, end) && IsDelimiter(end) && end <= tail
    ensures ReadText(PiecesText(ps) + tail, false, true, end) == TextRead(Values(ps), PastEnd(Some(tail), end))
    ensures ReadText(PiecesText(ps) + tail, true, false, end) == TextRead(Values(ps), PastEnd(Some(tail), end))
    ensures ReadText(PiecesText(ps) + tail, true, true, end) == TextRead(Join(WordValues(ps)), PastEnd(Some(tail), end))
  {
    hide ReadKeep, ReadTrim, PiecesText, Values, AllFit, Avoids, SkipWhite;
    KeepSpelled(ps, tail, end);
    DropWhiteFits(ps, tail, end);
    TrimSpelled(DropWhite(ps), false, tail, end);
    assert Trimmed(DropWhite(ps), false) == Join(WordValues(ps));
  }

  // ----- text without references

  function Plainly(s: string): (ps: seq<Piece>)
    requires '&' !in s
    ensures |ps| == |s| && forall i :: 0 <= i < |s| ==> ps[i] == Plain(s[i])
  {
    if s == "" then [] else [Plain(s[0])] + Plainly(s[1..])
  }

  lemma {:induction false} PlainlyIs(s: string, tail: string)
    requires '&' !in s
    ensures var ps := Plainly(s); AllFit(ps, tail) && PiecesText(ps) == s && Values(ps) == s
  {
    if s != "" {
      PlainlyIs(s[1..], tail);
      assert [s[0]] + s[1..] == s;
    }
  }

  /** The words of a string. */
  function Words(s: string): (ws: seq<string>)
    ensures s != "" && !IsWhite(s[0]) ==> ws != []
  {
    if s == "" then []
    else
      var ws := Words(s[1..]);
      if IsWhite(s[0]) then ws
      else if |s| > 1 && !IsWhite(s[1]) then [[s[0]] + ws[0]] + ws[1..]
      else [[s[0]]] + ws
  }

  lemma {:induction false} PlainWords(s: string)
    requires '&' !in s
    ensures WordValues(Plainly(s)) == Words(s)
  {
    if s != "" {
      PlainWords(s[1..]);
    }
  }

  /** Text without `&` and without its delimiter is read as it is, every character of it; in condensing mode as its
      words with one blank between each two. */
  lemma PlainTextRead(s: string, tail: string, end: string)
    requires '&' !in s && IsDelimiter(end) && end[0] !in s && end <= tail
    ensures ReadText(s + tail, false, true, end) == TextRead(s, PastEnd(Some(tail), end))
    ensures ReadText(s + tail, true, true, end) == TextRead(Join(Words(s)), PastEnd(Some(tail), end))
  {
    PlainlyIs(s, tail);
    PlainWords(s);
    hide ReadText, PiecesText, Values, WordValues, Words, AllFit;
    TextSpelled(Plainly(s), tail, end);
  }
}
