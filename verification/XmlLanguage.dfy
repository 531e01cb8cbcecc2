/** The parser accepts exactly the spellings of the grammar: whatever is read without error is spelled by one. */
module XmlLanguage {
  import opened XmlChars
  import opened XmlText
  import opened XmlTree
  import opened XmlParse
  import opened XmlRoundTrip
  import opened XmlAccept
  import opened XmlPieces
  import opened XmlGrammar

  /** What stands in front of the text that `SkipWhite` leaves. */
  lemma WhiteFront(r: string) returns (w: string)
    ensures AllWhite(w) && r == w + SkipWhite(r)
  {
    SkipWhiteSplits(r);
    w := r[..|r| - |SkipWhite(r)|];
    hide SkipWhite;
  }

  // ----- attributes

  /** `ReadText` with white space kept stops behind its delimiter. */
  lemma QuotedFound(r: string, end: string) returns (ps: seq<Piece>)
    requires IsDelimiter(end) && ReadText(r, false, true, end).rest.Some?
    ensures var t := ReadText(r, false, true, end);
            && AllFit(ps, end + t.rest.value) && Avoids(ps, end)
            && r == PiecesText(ps) + (end + t.rest.value) && t.text == Values(ps)
  {
    ps := KeepFound(r, end);
    var at := ReadKeep(r, end).rest;
    assert Readable(at) && at.value == end + at.value[|end|..];
    hide ReadKeep, PiecesText, AllFit, Values, Avoids;
  }

  lemma QuotedValueFound(name: string, r: string) returns (v: ValueSpelling)
    requires r != "" && IsQuote(r[0]) && Readable(ParseAttrValue(name, r).rest)
    ensures var a := ParseAttrValue(name, r);
            ValueFits(v, a.rest.value) && r == SpelledValue(v) + a.rest.value && a.attr == Attr(name, ValueSays(v))
  {
    var end := [r[0]];
    var ps := QuotedFound(r[1..], end);
    v := Quoted(r[0], ps);
    var y := ParseAttrValue(name, r).rest.value;
    hide ReadText, PiecesText, AllFit, Values, Avoids;
    var t := PiecesText(ps);
    assert r == end + (t + (end + y));
    assert end + (t + (end + y)) == (end + (t + end)) + y;
  }

  lemma BareValueFound(name: string, r: string) returns (v: ValueSpelling)
    requires r != "" && !IsWhite(r[0]) && !IsQuote(r[0]) && Readable(ParseAttrValue(name, r).rest)
    ensures var a := ParseAttrValue(name, r);
            ValueFits(v, a.rest.value) && r == SpelledValue(v) + a.rest.value && a.attr == Attr(name, ValueSays(v))
  {
    var k := UnquotedSpan(r);
    v := Bare(r[..k]);
    hide ReadText, UnquotedSpan;
    assert r == r[..k] + r[k..];
    assert k == 0 ==> r[k..] == r;
    BareFits(r[..k], r[k..]);
    hide ValueFits;
  }

  lemma ValueFound(name: string, r: string) returns (v: ValueSpelling)
    requires r != "" && !IsWhite(r[0]) && Readable(ParseAttrValue(name, r).rest)
    ensures var a := ParseAttrValue(name, r);
            ValueFits(v, a.rest.value) && r == SpelledValue(v) + a.rest.value && a.attr == Attr(name, ValueSays(v))
  {
    hide *;
    if IsQuote(r[0]) {
      v := QuotedValueFound(name, r);
    } else {
      v := BareValueFound(name, r);
    }
  }

  /** The parts of an attribute that is read. */
  lemma AttrParts(r: string)
    requires Readable(ParseAttribute(r).rest)
    ensures var p := SkipWhite(r);
            && Readable(ReadName(p).rest) && IsName(ReadName(p).name) && ReadName(p).name + ReadName(p).rest.value == p
            && var q := SkipWhite(ReadName(p).rest.value);
               && q != "" && q == "=" + q[1..]
               && var u := SkipWhite(q[1..]);
                  && u != "" && !IsWhite(u[0]) && ParseAttribute(r) == ParseAttrValue(ReadName(p).name, u)
  {
    hide NameSpan, ParseAttrValue, IsNameChar;
  }

  lemma AttrFound(r: string) returns (a: AttrSpelling)
    requires Readable(ParseAttribute(r).rest)
    ensures var p := ParseAttribute(r);
            AttrFits(a, p.rest.value) && r == AttrText(a) + p.rest.value && p.attr == AttrSays(a)
  {
    AttrParts(r);
    hide ParseAttribute, ReadName, ParseAttrValue, SkipWhite, AllWhite, IsName;
    var n := ReadName(SkipWhite(r));
    var q := SkipWhite(n.rest.value);
    var u := SkipWhite(q[1..]);
    var y := ParseAttribute(r).rest.value;
    var before := WhiteFront(r);
    var left := WhiteFront(n.rest.value);
    var right := WhiteFront(q[1..]);
    var v := ValueFound(n.name, u);
    a := AttrSpelling(before, n.name, left, right, v);
    AttrTextIs(a, y);
    hide SpelledValue, ValueSays, ValueFits, AttrText;
  }

  // ----- leaves

  lemma LeafFound(header: string, r: string, end: string) returns (value: string, closed: bool, y: string)
    requires header <= r && end != ""
    ensures var b := r[|header|..]; var k := Until(b, end);
            && value == b[..k] && (closed <==> k < |b|) && y == (if closed then b[k + |end|..] else "")
    ensures Lacks(value, end) && (closed || y == "") && r == (header + (value + if closed then end else "")) + y
  {
    var b := r[|header|..];
    var k := Until(b, end);
    LacksUpTo(b, end);
    value, closed := b[..k], k < |b|;
    if closed {
      assert end <= b[k..];
      hide *;
      y := b[k + |end|..];
      ClosedLeaf(header, r, end, k);
    } else {
      hide *;
      y := "";
      OpenLeaf(header, r);
    }
  }

  lemma ClosedLeaf(header: string, r: string, end: string, k: nat)
    requires header <= r && k <= |r[|header|..]| && end <= r[|header|..][k..]
    ensures var b := r[|header|..]; k + |end| <= |b| && r == (header + (b[..k] + end)) + b[k + |end|..]
  {
    var b := r[|header|..];
    var y := b[k + |end|..];
    assert r == header + b && b == b[..k] + b[k..];
    assert b[k..][|end|..] == y;
    assert b[k..] == end + y;
    assert (header + (b[..k] + end)) + y == header + (b[..k] + (end + y));
  }

  lemma OpenLeaf(header: string, r: string)
    requires header <= r
    ensures var b := r[|header|..]; b[..|b|] == b && r == (header + (b + "")) + ""
  {
    var b := r[|header|..];
    assert r == header + b;
  }

  lemma CommentFound(r: string, condense: bool) returns (n: Spelling, y: string)
    requires COMMENT_HEADER <= r
    ensures n.CommentS? && NodeFits(n, y) && r == NodeText(n) + y && NodeSays(n, condense) == ParseComment(r).node
    ensures ParseComment(r).rest == Some(y)
  {
    var value, closed;
    value, closed, y := LeafFound(COMMENT_HEADER, r, COMMENT_END);
    n := CommentS(value, closed);
    hide Until, Lacks;
  }

  lemma CDataFound(r: string, condense: bool) returns (n: Spelling, y: string)
    requires CDATA_HEADER <= r
    ensures n.CDataS? && NodeFits(n, y) && r == NodeText(n) + y && NodeSays(n, condense) == ParseCData(r).node
    ensures ParseCData(r).rest == if y == "" then None else Some(y)
  {
    var value, closed;
    value, closed, y := LeafFound(CDATA_HEADER, r, CDATA_END);
    n := CDataS(value, closed);
    var b := r[9..];
    CDataEndRead(y);
    NoEndRead();
    hide Until, Lacks, ReadText;
    if closed {
      assert b[|value|..] == CDATA_END + y;
    } else {
      assert b[|value|..] == "";
    }
  }

  lemma UnknownFound(r: string, condense: bool) returns (n: Spelling, y: string)
    requires r != "" && r[0] == '<' && Identify(r).UnknownKind?
    ensures n.UnknownS? && NodeFits(n, y) && r == NodeText(n) + y && NodeSays(n, condense) == ParseUnknown(r).node
    ensures ParseUnknown(r).rest == Some(y)
  {
    assert "<" <= r;
    var value, closed;
    value, closed, y := LeafFound("<", r, ">");
    n := UnknownS(value, closed);
    UnknownFits(r, value, closed, y);
    hide Until, Lacks, Identify, NodeFits;
  }

  lemma UnknownFits(r: string, value: string, closed: bool, y: string)
    requires r != "" && r[0] == '<' && Identify(r).UnknownKind? && Lacks(value, ">") && (closed || y == "")
    requires value == r[1..][..Until(r[1..], ">")] && r == ("<" + (value + if closed then ">" else "")) + y
    ensures NodeFits(UnknownS(value, closed), y)
  {
    UnknownKindOf(r);
    hide Until, Lacks, Identify;
    if closed {
      assert "<" + value + ">" == "<" + (value + ">");
    } else {
      assert r == "<" + (value + "");
    }
  }

  // ----- the induction

  lemma NamePart(r: string, condense: bool) returns (name: string, rest: string)
    requires r != "" && r[0] == '<' && Identify(r).ElementKind? && ParseElement(r, condense).error == NoError
    ensures IsName(name) && NameEnds(rest) && r == "<" + (name + rest)
    ensures ParseElement(r, condense) == ParseTag(name, [], rest, condense)
  {
    var s := r[1..];
    assert IsNameStart(s[0]);
    NameStartNotWhite(s[0]);
    SkipNothing(r);
    SkipNothing(s);
    var n := ReadName(s);
    name, rest := n.name, n.rest.value;
    assert r == "<" + s && s == name + rest;
    NameMaximal(s);
    hide ReadName, ParseTag, SkipWhite, Identify;
  }

  lemma NameMaximal(s: string)
    requires Readable(ReadName(s).rest)
    ensures NameEnds(ReadName(s).rest.value)
  {
    var k := NameSpan(s);
    hide NameSpan;
    assert s[k..][0] == s[k];
  }

  /** Whatever node is read without error has a spelling, which fits in front of what is left. */
  lemma {:induction false} NodeFound(r: string, condense: bool) returns (n: Spelling, y: string)
    requires r != "" && r[0] == '<' && ParseNode(r, condense).error == NoError
    ensures NodeFits(n, y) && r == NodeText(n) + y
    ensures ParseNode(r, condense) == Parsed(NodeSays(n, condense), Left(n, y), NoError)
    decreases |r|, 4
  {
    match Identify(r)
    case CommentKind => n, y := CommentFound(r, condense);
    case CDataKind => n, y := CDataFound(r, condense);
    case UnknownKind => n, y := UnknownFound(r, condense);
    case ElementKind =>
      var name, rest := NamePart(r, condense);
      var attrs, before, content;
      attrs, before, content, y := TagFound(name, [], rest, condense);
      n := ElementS(name, attrs, before, content);
      assert [] + AttrsSay(attrs) == AttrsSay(attrs);
      hide ParseElement, ParseTag, ParseComment, ParseCData, ParseUnknown, Identify;
      ElementTextIs(n, y);
  }

  lemma ElementTextIs(n: Spelling, y: string)
    requires n.ElementS?
    ensures NodeText(n) + y == "<" + (n.name + (AttrsText(n.attrs) + (n.before + (ContentText(n.name, n.content) + y))))
  {
    var a, b, c := AttrsText(n.attrs), n.before, ContentText(n.name, n.content);
    assert NodeText(n) == "<" + (n.name + (a + (b + c)));
    hide *;
    assert ("<" + (n.name + (a + (b + c)))) + y == "<" + (n.name + (a + (b + (c + y))));
  }

  /** `r` is spelled as attributes, white space and the content of an element, and read as what they say. */
  ghost predicate TagSpelled(name: string, seen: seq<Attr>, r: string, condense: bool,
                             attrs: seq<AttrSpelling>, before: string, content: Content, y: string) {
    var z := before + (ContentText(name, content) + y);
    && AllWhite(before) && ContentFits(name, content, y) && AttrsFit(attrs, z)
    && UniqueNames(seen + AttrsSay(attrs)) && r == AttrsText(attrs) + z
    && ParseTag(name, seen, r, condense)
       == Parsed(Element(name, seen + AttrsSay(attrs), ContentSays(content, condense)), Some(y), NoError)
  }

  /** What the start tag of an element holds behind its name, with `seen` read so far. */
  lemma {:induction false} TagFound(name: string, seen: seq<Attr>, r: string, condense: bool)
    returns (attrs: seq<AttrSpelling>, before: string, content: Content, y: string)
    requires UniqueNames(seen) && ParseTag(name, seen, r, condense).error == NoError
    ensures TagSpelled(name, seen, r, condense, attrs, before, content, y)
    decreases |r|, 2
  {
    hide *;
    var p := SkipWhite(r);
    TagReadable(name, seen, r, condense);
    if p[0] == '/' || p[0] == '>' {
      attrs := [];
      before := WhiteFront(r);
      if p[0] == '/' {
        EmptyTagFound(name, seen, r, condense);
        content, y := Empty, p[2..];
        EmptyFits(name, y, condense);
      } else {
        FullTagFound(name, seen, r, condense);
        content, y := ContentFound(name, p, condense);
      }
      LastTag(name, seen, r, condense, before, content, y);
    } else {
      attrs, before, content, y := MoreFound(name, seen, r, condense);
    }
  }

  lemma LastTag(name: string, seen: seq<Attr>, r: string, condense: bool, before: string, content: Content, y: string)
    requires UniqueNames(seen) && AllWhite(before) && ContentFits(name, content, y)
    requires r == before + (ContentText(name, content) + y)
    requires ParseTag(name, seen, r, condense) == Parsed(Element(name, seen, ContentSays(content, condense)), Some(y), NoError)
    ensures TagSpelled(name, seen, r, condense, [], before, content, y)
  {
    hide ParseTag, ContentText, ContentSays, ContentFits, AllWhite;
    assert seen + [] == seen && "" + r == r;
  }

  lemma {:induction false} MoreFound(name: string, seen: seq<Attr>, r: string, condense: bool)
    returns (attrs: seq<AttrSpelling>, before: string, content: Content, y: string)
    requires UniqueNames(seen) && ParseTag(name, seen, r, condense).error == NoError
    requires SkipWhite(r) != "" && SkipWhite(r)[0] != '/' && SkipWhite(r)[0] != '>'
    ensures TagSpelled(name, seen, r, condense, attrs, before, content, y)
    decreases |r|, 1
  {
    hide *;
    AttributeSkips(r);
    TagNext(name, seen, r, condense);
    var s := ParseAttribute(r);
    AttrReadable(s.rest);
    var a := AttrFound(r);
    FreshName(seen, s.attr);
    var rest;
    rest, before, content, y := TagFound(name, seen + [s.attr], s.rest.value, condense);
    attrs := [a] + rest;
    FirstTag(name, seen, r, condense, a, rest, before, content, y);
  }

  lemma AttrReadable(p: Ptr)
    ensures Readable(p) <==> p.Some? && p.value != ""
  {
  }

  lemma FirstTag(name: string, seen: seq<Attr>, r: string, condense: bool, a: AttrSpelling, rest: seq<AttrSpelling>,
                 before: string, content: Content, y: string)
    requires var s := ParseAttribute(r);
             && s.rest.Some? && AttrFits(a, s.rest.value) && r == AttrText(a) + s.rest.value && s.attr == AttrSays(a)
             && ParseTag(name, seen, r, condense) == ParseTag(name, seen + [s.attr], s.rest.value, condense)
             && TagSpelled(name, seen + [s.attr], s.rest.value, condense, rest, before, content, y)
    ensures TagSpelled(name, seen, r, condense, [a] + rest, before, content, y)
  {
    hide ParseTag, ParseAttribute, ContentText, ContentSays, ContentFits, AllWhite, AttrText, AttrsText, AttrSays, AttrsSay,
         AttrFits, AttrsFit, UniqueNames;
    AttrsCons(a, rest, before + (ContentText(name, content) + y));
    var s := ParseAttribute(r);
    assert seen + [s.attr] + AttrsSay(rest) == seen + ([s.attr] + AttrsSay(rest));
  }

  lemma TagReadable(name: string, seen: seq<Attr>, r: string, condense: bool)
    requires ParseTag(name, seen, r, condense).error == NoError
    ensures SkipWhite(r) != "" && r != "" && |SkipWhite(r)| <= |r|
  {
    hide SkipWhite, ParseAttribute, ParseValue, ParseEndTag, HasAttr;
  }

  lemma EmptyTagFound(name: string, seen: seq<Attr>, r: string, condense: bool)
    requires SkipWhite(r) != "" && SkipWhite(r)[0] == '/' && ParseTag(name, seen, r, condense).error == NoError
    ensures var p := SkipWhite(r); |p| >= 2 && p == "/>" + p[2..]
    ensures ParseTag(name, seen, r, condense) == Parsed(Element(name, seen, []), Some(SkipWhite(r)[2..]), NoError)
  {
    hide SkipWhite, ParseAttribute, ParseValue, ParseEndTag, HasAttr;
  }

  lemma FullTagFound(name: string, seen: seq<Attr>, r: string, condense: bool)
    requires SkipWhite(r) != "" && SkipWhite(r)[0] == '>' && ParseTag(name, seen, r, condense).error == NoError
    ensures var v := ParseValue(Some(SkipWhite(r)[1..]), condense);
            && v.error == NoError && ParseEndTag(name, v.rest).Some?
            && ParseTag(name, seen, r, condense) == Parsed(Element(name, seen, v.kids), ParseEndTag(name, v.rest), NoError)
  {
    hide SkipWhite, ParseAttribute, ParseValue, ParseEndTag, HasAttr;
  }

  lemma NoneFit(z: string)
    ensures AttrsFit([], z)
  {
  }

  lemma EmptyFits(name: string, y: string, condense: bool)
    ensures ContentFits(name, Empty, y) && ContentText(name, Empty) == "/>" && ContentSays(Empty, condense) == []
  {
  }

  lemma TagNext(name: string, seen: seq<Attr>, r: string, condense: bool)
    requires SkipWhite(r) != "" && SkipWhite(r)[0] != '/' && SkipWhite(r)[0] != '>'
    requires ParseTag(name, seen, r, condense).error == NoError && ParseAttribute(SkipWhite(r)) == ParseAttribute(r)
    ensures var s := ParseAttribute(r);
            && Readable(s.rest) && !HasAttr(seen, s.attr.name) && |s.rest.value| < |r|
            && ParseTag(name, seen, r, condense) == ParseTag(name, seen + [s.attr], s.rest.value, condense)
  {
    hide ParseAttribute, SkipWhite, HasAttr, ParseValue, ParseEndTag;
  }

  lemma FreshName(seen: seq<Attr>, a: Attr)
    requires UniqueNames(seen) && !HasAttr(seen, a.name)
    ensures UniqueNames(seen + [a])
  {
  }

  lemma AttrsCons(a: AttrSpelling, rest: seq<AttrSpelling>, z: string)
    requires AttrFits(a, AttrsText(rest) + z) && AttrsFit(rest, z)
    ensures AttrsFit([a] + rest, z) && AttrsSay([a] + rest) == [AttrSays(a)] + AttrsSay(rest)
    ensures AttrsText([a] + rest) + z == AttrText(a) + (AttrsText(rest) + z)
  {
    hide AttrText, AttrSays, AttrFits;
    assert ([a] + rest)[1..] == rest;
    ConcatAssoc(AttrText(a), AttrsText(rest), z);
  }

  /** What stands behind the `>` of a start tag. */
  lemma {:induction false} ContentFound(name: string, p: string, condense: bool) returns (content: Content, y: string)
    requires p != "" && p[0] == '>' && ParseValue(Some(p[1..]), condense).error == NoError
    requires ParseEndTag(name, ParseValue(Some(p[1..]), condense).rest).Some?
    ensures ContentFits(name, content, y) && p == ContentText(name, content) + y
    ensures ContentSays(content, condense) == ParseValue(Some(p[1..]), condense).kids
    ensures ParseEndTag(name, ParseValue(Some(p[1..]), condense).rest) == Some(y)
    decreases |p|, 1
  {
    var v := ParseValue(Some(p[1..]), condense);
    var tail := v.rest.value;
    var after := EndTagSplits(name, tail);
    y := ParseEndTag(name, v.rest).value;
    assert Readable(v.rest);
    hide ParseEndTag;
    var items, gap := ItemsFound(p[1..], condense);
    content := Full(items, gap, after);
    hide ParseValue, ItemsText, ItemsSay, ItemsFit, AllWhite;
    EndTagIs(name, after, y);
    var i, e := ItemsText(items), EndTag(name, after);
    assert p == ">" + p[1..];
    assert (">" + (i + (gap + e))) + y == ">" + (i + (gap + (e + y)));
  }

  lemma EndTagIs(name: string, after: string, y: string)
    ensures EndTag(name, after) + y == ("</" + name + after + ">") + y
  {
    assert "</" + name + (after + ">") == "</" + name + after + ">";
  }

  /** What `ReadValue` takes up to an end tag. */
  lemma {:induction false} ItemsFound(p: string, condense: bool) returns (items: seq<Item>, gap: string)
    requires ParseValue(Some(p), condense).error == NoError && Readable(ParseValue(Some(p), condense).rest)
    ensures var v := ParseValue(Some(p), condense);
            && "</" <= v.rest.value && AllWhite(gap) && ItemsFit(items, gap + v.rest.value)
            && p == ItemsText(items) + (gap + v.rest.value) && ItemsSay(items, condense) == v.kids
    decreases |p|, 5
  {
    var q := SkipWhite(p);
    gap := WhiteFront(p);
    if q[0] != '<' {
      SkipWhiteStart(p);
      SkipStart(p);
      TextNext(p, condense);
      var ps := TextFound(p, condense);
      var y := ParseText(if condense then q else p, condense).rest.value;
      var rest, w := ItemsFound(y, condense);
      items, gap := [TextItem(ps)] + rest, w;
      hide *;
      ItemsCons(TextItem(ps), rest, w + ParseValue(Some(p), condense).rest.value, condense);
      TextItemSays(ps, condense);
    } else if "</" <= q {
      items := [];
      hide ParseNode, ParseText, SkipWhite, AllWhite;
      assert "" + p == p;
    } else {
      NodeNext(p, condense);
      var n, y := NodeFound(q, condense);
      var rest, w := ItemsFound(y, condense);
      var lead := gap;
      items, gap := [NodeItem(lead, n)] + rest, w;
      hide *;
      var z := w + ParseValue(Some(p), condense).rest.value;
      NodeItemFits(lead, n, ItemsText(rest) + z);
      ItemsCons(NodeItem(lead, n), rest, z, condense);
      NodeItemSays(lead, n, condense);
      ConcatAssoc(lead, NodeText(n), y);
    }
  }

  lemma ItemsCons(i: Item, rest: seq<Item>, z: string, condense: bool)
    requires ItemFits(i, ItemsText(rest) + z) && ItemsFit(rest, z)
    ensures ItemsFit([i] + rest, z) && ItemsSay([i] + rest, condense) == ItemSays(i, condense) + ItemsSay(rest, condense)
    ensures ItemsText([i] + rest) + z == ItemText(i) + (ItemsText(rest) + z)
  {
    hide ItemText, ItemSays, ItemFits;
    assert ([i] + rest)[1..] == rest;
    ConcatAssoc(ItemText(i), ItemsText(rest), z);
  }

  lemma TextItemSays(ps: seq<Piece>, condense: bool)
    ensures ItemText(TextItem(ps)) == PiecesText(ps)
    ensures ItemSays(TextItem(ps), condense) ==
              if AllWhite(TextSays(ps, condense)) then [] else [Text(TextSays(ps, condense), false)]
  {
  }

  lemma NodeItemSays(lead: string, n: Spelling, condense: bool)
    ensures ItemText(NodeItem(lead, n)) == lead + NodeText(n)
    ensures ItemSays(NodeItem(lead, n), condense) == [NodeSays(n, condense)]
  {
  }

  lemma NodeItemFits(lead: string, n: Spelling, y: string)
    requires AllWhite(lead) && NodeFits(n, y) && |y| >= 2 && !("</" <= NodeText(n) + y)
    ensures ItemFits(NodeItem(lead, n), y)
  {
  }

  lemma NodeNext(p: string, condense: bool)
    requires SkipWhite(p) != "" && SkipWhite(p)[0] == '<' && !("</" <= SkipWhite(p))
    requires ParseValue(Some(p), condense).error == NoError
    ensures var n := ParseNode(SkipWhite(p), condense);
            && n.error == NoError && n.rest.Some? && |n.rest.value| < |p|
            && var v := ParseValue(n.rest, condense);
               ParseValue(Some(p), condense) == ParsedKids([n.node] + v.kids, v.rest, NoError) && v.error == NoError
  {
    hide ParseNode, ParseText, SkipWhite;
  }

  lemma TextNext(p: string, condense: bool)
    requires p != "" && p[0] != '<' && SkipWhite(p) != "" && SkipWhite(p)[0] != '<' && SkipWhite(SkipWhite(p)) == SkipWhite(p)
    requires ParseValue(Some(p), condense).error == NoError
    ensures var t := ParseText(if condense then SkipWhite(p) else p, condense);
            && t.rest.Some? && |t.rest.value| < |p|
            && var v := ParseValue(t.rest, condense);
               ParseValue(Some(p), condense) == ParsedKids((if AllWhite(t.node.value) then [] else [t.node]) + v.kids, v.rest, v.error)
  {
    hide ParseNode, ParseText, SkipWhite, AllWhite;
  }

  lemma TextRest(r: string, condense: bool) returns (at: string)
    requires r != "" && r[0] != '<' && SkipWhite(r) != "" && SkipWhite(r)[0] != '<'
    requires ParseText(r, condense).rest.Some?
    ensures |at| >= 2 && at[0] == '<' && ParseText(r, condense).rest == Some(at)
    ensures (if condense then ReadTrim(SkipWhite(r), false, "<") else ReadKeep(r, "<"))
         == TextRead(ParseText(r, condense).node.value, Some(at))
    ensures ParseText(r, condense).node == Text(ParseText(r, condense).node.value, false)
  {
    var t := if condense then ReadTrim(SkipWhite(r), false, "<") else ReadKeep(r, "<");
    at := t.rest.value;
    assert Readable(t.rest) && at == "<" + at[1..];
    hide ReadTrim, ReadKeep, SkipWhite;
  }

  /** A text that ends in front of a `<`, white space kept. */
  lemma KeptFound(p: string, at: string) returns (ps: seq<Piece>)
    requires SkipWhite(p) != "" && SkipWhite(p)[0] != '<' && |at| >= 2 && at[0] == '<'
    requires ReadKeep(p, "<").rest == Some(at)
    ensures ItemFits(TextItem(ps), at) && p == PiecesText(ps) + at && Values(ps) == ReadKeep(p, "<").text
  {
    assert IsDelimiter("<") && "<" <= at;
    ps := KeepFound(p, "<");
    DropWhiteFits(ps, at, "<");
    var qs := DropWhite(ps);
    hide ReadKeep, AllFit, Avoids, SkipWhite, Values, WordValues;
    assert qs == [] ==> PiecesText(qs) + at == at;
    hide PiecesText, DropWhite;
  }

  /** The same in condensing mode, behind the white space `w`. */
  lemma CondensedFound(w: string, q: string, at: string) returns (ps: seq<Piece>)
    requires AllWhite(w) && q != "" && q[0] != '<' && !IsWhite(q[0]) && |at| >= 2 && at[0] == '<'
    requires ReadTrim(q, false, "<").rest == Some(at)
    ensures ItemFits(TextItem(ps), at) && w + q == PiecesText(ps) + at
    ensures Join(WordValues(ps)) == ReadTrim(q, false, "<").text
  {
    assert IsDelimiter("<") && "<" <= at;
    var qs := TrimFound(q, false, "<");
    ps := WhitePieces(w, qs, at, "<");
    hide ReadTrim, AllFit, Avoids, WordValues;
    assert qs == [] ==> PiecesText(qs) + at == at;
    assert !WhitePiece(qs[0]) by {
      FirstNotWhite(qs, at);
    }
    assert DropWhite(qs) == qs;
    ConcatAssoc(w, PiecesText(qs), at);
    hide PiecesText;
  }

  lemma FirstNotWhite(qs: seq<Piece>, at: string)
    requires qs != [] && PiecesText(qs) + at != "" && !IsWhite((PiecesText(qs) + at)[0])
    ensures !WhitePiece(qs[0])
  {
    ConcatAssoc(PieceText(qs[0]), PiecesText(qs[1..]), at);
    NotWhitePiece(qs[0], PiecesText(qs[1..]) + at);
  }

  /** A text that ends in front of a `<`. */
  lemma TextFound(p: string, condense: bool) returns (ps: seq<Piece>)
    requires p != "" && p[0] != '<' && SkipWhite(p) != "" && SkipWhite(p)[0] != '<' && SkipWhite(SkipWhite(p)) == SkipWhite(p)
    requires ParseText(if condense then SkipWhite(p) else p, condense).rest.Some?
    ensures var t := ParseText(if condense then SkipWhite(p) else p, condense);
            && t.rest.Some? && ItemFits(TextItem(ps), t.rest.value) && p == PiecesText(ps) + t.rest.value
            && t.node == Text(TextSays(ps, condense), false)
  {
    var q := SkipWhite(p);
    var w := WhiteFront(p);
    hide ParseText, ItemFits, SkipWhite, ReadKeep, ReadTrim, PiecesText;
    var at := TextRest(if condense then q else p, condense);
    if condense {
      ps := CondensedFound(w, q, at);
    } else {
      ps := KeptFound(p, at);
    }
  }

  /** A node is read without error exactly when the text starts with a spelling of one that fits. */
  lemma NodeAcceptedIff(r: string, condense: bool)
    requires r != "" && r[0] == '<'
    ensures ParseNode(r, condense).error == NoError <==>
            exists n: Spelling, y: string :: NodeFits(n, y) && r == NodeText(n) + y
  {
    if ParseNode(r, condense).error == NoError {
      var n, y := NodeFound(r, condense);
    }
    hide *;
    if n: Spelling, y: string :| NodeFits(n, y) && r == NodeText(n) + y {
      NodeReads(n, y, condense);
    }
  }

  // ----- documents

  /** A node at the top of a document with the white space behind it. */
  datatype Top = Top(node: Spelling, gap: string)

  function TopsText(tops: seq<Top>, tail: string): string {
    if tops == [] then tail else NodeText(tops[0].node) + (tops[0].gap + TopsText(tops[1..], tail))
  }

  predicate TopsFit(tops: seq<Top>, tail: string) {
    tops == [] ||
    (&& AllWhite(tops[0].gap) && NodeFits(tops[0].node, tops[0].gap + TopsText(tops[1..], tail))
     && TopsFit(tops[1..], tail))
  }

  function TopsSay(tops: seq<Top>, condense: bool): seq<Node> {
    if tops == [] then [] else [NodeSays(tops[0].node, condense)] + TopsSay(tops[1..], condense)
  }

  /** The pointer behind the nodes: null when nothing at all is left behind the last one. */
  function EndOf(lead: string, tops: seq<Top>, tail: string): Ptr
    decreases tops
  {
    if tops == [] then (if lead + tail == "" then None else Some(tail)) else EndOf(tops[0].gap, tops[1..], tail)
  }

  /** White space, nodes with white space behind each, and then nothing that looks like a node: the rest is not read. */
  predicate IsSpelling(lead: string, tops: seq<Top>, tail: string) {
    AllWhite(lead) && TopsFit(tops, tail) && (tail == "" || (!IsWhite(tail[0]) && tail[0] != '<'))
  }

  lemma TopsUnfold(tops: seq<Top>, tail: string, condense: bool)
    requires tops != [] && TopsFit(tops, tail)
    ensures var n, z := tops[0].node, tops[0].gap + TopsText(tops[1..], tail);
            && NodeFits(n, z) && AllWhite(tops[0].gap) && TopsFit(tops[1..], tail)
            && TopsText(tops, tail) == NodeText(n) + z
            && TopsSay(tops, condense) == [NodeSays(n, condense)] + TopsSay(tops[1..], condense)
  {
  }

  lemma NodesStep(lead: string, s: string, condense: bool)
    requires AllWhite(lead) && s != "" && s[0] == '<' && ParseNode(s, condense).error == NoError
    ensures var p := ParseNode(s, condense); var v := ParseNodes(SkipWhiteSpace(p.rest), condense);
            ParseNodes(SkipWhiteSpace(Some(lead + s)), condense) == ParsedKids([p.node] + v.kids, v.rest, v.error)
  {
    SkipWhiteOver(lead, s);
    hide ParseNode, SkipWhite;
  }

  lemma NodesEnd(lead: string, tail: string, condense: bool)
    requires AllWhite(lead) && (tail == "" || (!IsWhite(tail[0]) && tail[0] != '<'))
    ensures ParseNodes(SkipWhiteSpace(Some(lead + tail)), condense)
         == ParsedKids([], if lead + tail == "" then None else Some(tail), NoError)
  {
    SkipWhiteOver(lead, tail);
    hide ParseNode, SkipWhite;
  }

  lemma {:induction false} TopsRead(lead: string, tops: seq<Top>, tail: string, condense: bool)
    requires IsSpelling(lead, tops, tail)
    ensures ParseNodes(SkipWhiteSpace(Some(lead + TopsText(tops, tail))), condense)
         == ParsedKids(TopsSay(tops, condense), EndOf(lead, tops, tail), NoError)
    decreases tops
  {
    if tops == [] {
      hide ParseNodes, SkipWhiteSpace;
      NodesEnd(lead, tail, condense);
    } else {
      var n, gap, rest := tops[0].node, tops[0].gap, tops[1..];
      var z := gap + TopsText(rest, tail);
      TopsUnfold(tops, tail, condense);
      TopsRead(gap, rest, tail, condense);
      assert EndOf(lead, tops, tail) == EndOf(gap, rest, tail);
      hide ParseNodes, TopsText, TopsSay, TopsFit, NodeText, NodeSays, NodeFits, ParseNode, AllWhite;
      NodeReads(n, z, condense);
      NodeStarts(n, z);
      NodesStep(lead, NodeText(n) + z, condense);
      LeftSkipped(n, z, condense);
    }
  }

  /** Nothing behind a CDATA section is skipped like an empty text. */
  lemma LeftSkipped(n: Spelling, z: string, condense: bool)
    ensures SkipWhiteSpace(Left(n, z)) == SkipWhiteSpace(Some(z))
  {
  }

  lemma {:induction false} TopsFound(r: string, condense: bool) returns (lead: string, tops: seq<Top>, tail: string)
    requires ParseNodes(SkipWhiteSpace(Some(r)), condense).error == NoError
    ensures IsSpelling(lead, tops, tail) && r == lead + TopsText(tops, tail)
    decreases |r|
  {
    var s := SkipWhite(r);
    lead := WhiteFront(r);
    if s == "" || s[0] != '<' {
      tops, tail := [], s;
      hide SkipWhite;
      StopsAt(r);
    } else {
      hide NodeText, NodeFits;
      NodesStepBack(r, condense);
      var n, y := NodeFound(s, condense);
      LeftSkipped(n, y, condense);
      hide ParseNodes, ParseNode, SkipWhiteSpace, SkipWhite;
      NodeStarts(n, y);
      NodeLonger(n, y);
      var gap, rest, t := TopsFound(y, condense);
      tops, tail := [Top(n, gap)] + rest, t;
      assert tops[1..] == rest;
    }
  }

  lemma NodeLonger(n: Spelling, y: string)
    ensures |NodeText(n) + y| > |y|
  {
    NodeStarts(n, "");
    assert NodeText(n) + "" == NodeText(n);
    hide NodeText;
  }

  lemma StopsAt(r: string)
    ensures var s := SkipWhite(r); s == "" || !IsWhite(s[0])
  {
  }

  lemma NodesStepBack(r: string, condense: bool)
    requires SkipWhite(r) != "" && SkipWhite(r)[0] == '<' && ParseNodes(SkipWhiteSpace(Some(r)), condense).error == NoError
    ensures var p := ParseNode(SkipWhite(r), condense);
            p.error == NoError && ParseNodes(SkipWhiteSpace(p.rest), condense).error == NoError
  {
    hide ParseNode, SkipWhite;
  }

  /** Every spelling of a document is read as what it says, without error, up to the first text that is no node. */
  lemma DocumentSpelled(lead: string, tops: seq<Top>, tail: string, condense: bool)
    requires IsSpelling(lead, tops, tail) && tops != []
    ensures ParseDocument(lead + TopsText(tops, tail), condense)
         == ParsedKids(TopsSay(tops, condense), EndOf(lead, tops, tail), NoError)
  {
    TopsRead(lead, tops, tail, condense);
    TopsUnfold(tops, tail, condense);
    NodeStarts(tops[0].node, tops[0].gap + TopsText(tops[1..], tail));
    hide ParseNodes, TopsText, TopsSay, SkipWhite, IsSpelling;
  }

  /** A document is accepted exactly when it has a spelling. */
  lemma DocumentAcceptedIff(r: string, condense: bool)
    ensures ParseDocument(r, condense).error == NoError <==>
            exists lead: string, tops: seq<Top>, tail: string ::
              tops != [] && IsSpelling(lead, tops, tail) && r == lead + TopsText(tops, tail)
  {
    if ParseDocument(r, condense).error == NoError {
      assert ParseNodes(SkipWhiteSpace(Some(r)), condense).error == NoError
          && ParseNodes(SkipWhiteSpace(Some(r)), condense).kids != [];
      var lead, tops, tail := TopsFound(r, condense);
      TopsRead(lead, tops, tail, condense);
      assert tops != [];
    }
    hide *;
    if lead: string, tops: seq<Top>, tail: string
      :| tops != [] && IsSpelling(lead, tops, tail) && r == lead + TopsText(tops, tail)
    {
      DocumentSpelled(lead, tops, tail, condense);
    }
  }

  /** Two spellings of the same document say the same. */
  lemma Unambiguous(lead: string, tops: seq<Top>, tail: string, lead': string, tops': seq<Top>, tail': string, condense: bool)
    requires IsSpelling(lead, tops, tail) && IsSpelling(lead', tops', tail')
    requires lead + TopsText(tops, tail) == lead' + TopsText(tops', tail')
    ensures TopsSay(tops, condense) == TopsSay(tops', condense)
  {
    hide *;
    TopsRead(lead, tops, tail, condense);
    TopsRead(lead', tops', tail', condense);
  }
}
