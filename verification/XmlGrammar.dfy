/** The language of the parser: every way to spell a node, what the spelling says, and that the parser reads it so.

    White space may stand around the `=` of an attribute, in front of the end of a tag and between nodes; values are
    quoted either way or not at all; a comment or an unknown tag may be left open at the end of the input. Whether a
    spelling fits can depend on the text behind it. */
module XmlGrammar {
  import opened XmlChars
  import opened XmlText
  import opened XmlTree
  import opened XmlParse
  import opened XmlRoundTrip
  import opened XmlPieces

  datatype ValueSpelling = Quoted(quote: char, pieces: seq<Piece>) | Bare(text: string)

  /** White space in front, the name, white space on both sides of the `=`, the value. */
  datatype AttrSpelling = AttrSpelling(before: string, name: string, left: string, right: string, value: ValueSpelling)

  datatype Spelling =
    | ElementS(name: string, attrs: seq<AttrSpelling>, before: string, content: Content)
    | CommentS(value: string, closed: bool)
    | CDataS(value: string, closed: bool)
    | UnknownS(value: string, closed: bool)

  /** `/>`, or `>`, the items, white space, and the end tag with white space in front of its `>`. */
  datatype Content = Empty | Full(items: seq<Item>, gap: string, after: string)

  datatype Item = TextItem(pieces: seq<Piece>) | NodeItem(lead: string, node: Spelling)

  // ----- the text

  function SpelledValue(v: ValueSpelling): string {
    match v
    case Quoted(quote, pieces) => [quote] + (PiecesText(pieces) + [quote])
    case Bare(text) => text
  }

  function AttrText(a: AttrSpelling): string {
    a.before + (a.name + (a.left + ("=" + (a.right + SpelledValue(a.value)))))
  }

  function AttrsText(attrs: seq<AttrSpelling>): string {
    if attrs == [] then "" else AttrText(attrs[0]) + AttrsText(attrs[1..])
  }

  function EndTag(name: string, after: string): string {
    "</" + name + (after + ">")
  }

  function NodeText(n: Spelling): string
    decreases n, 1
  {
    match n
    case ElementS(name, attrs, before, content) =>
      "<" + (name + (AttrsText(attrs) + (before + ContentText(name, content))))
    case CommentS(value, closed) => COMMENT_HEADER + (value + if closed then COMMENT_END else "")
    case CDataS(value, closed) => CDATA_HEADER + (value + if closed then CDATA_END else "")
    case UnknownS(value, closed) => "<" + (value + if closed then ">" else "")
  }

  function ContentText(name: string, c: Content): string
    decreases c, 1
  {
    match c
    case Empty => "/>"
    case Full(items, gap, after) => ">" + (ItemsText(items) + (gap + EndTag(name, after)))
  }

  function ItemText(i: Item): string
    decreases i, 2
  {
    match i
    case TextItem(pieces) => PiecesText(pieces)
    case NodeItem(lead, node) => lead + NodeText(node)
  }

  function ItemsText(items: seq<Item>): string
    decreases items
  {
    if items == [] then "" else ItemText(items[0]) + ItemsText(items[1..])
  }

  // ----- what it says

  function ValueSays(v: ValueSpelling): string {
    match v
    case Quoted(_, pieces) => Values(pieces)
    case Bare(text) => text
  }

  function AttrSays(a: AttrSpelling): Attr {
    Attr(a.name, ValueSays(a.value))
  }

  function AttrsSay(attrs: seq<AttrSpelling>): (r: seq<Attr>)
    ensures |r| == |attrs|
  {
    if attrs == [] then [] else [AttrSays(attrs[0])] + AttrsSay(attrs[1..])
  }

  function NodeSays(n: Spelling, condense: bool): (r: Node)
    ensures r.Element? <==> n.ElementS?
    ensures r.Text? <==> n.CDataS?
    decreases n, 1
  {
    match n
    case ElementS(name, attrs, _, content) => Element(name, AttrsSay(attrs), ContentSays(content, condense))
    case CommentS(value, _) => Comment(value)
    case CDataS(value, _) => Text(value, true)
    case UnknownS(value, _) => Unknown(value)
  }

  function ContentSays(c: Content, condense: bool): seq<Node>
    decreases c, 1
  {
    match c
    case Empty => []
    case Full(items, _, _) => ItemsSay(items, condense)
  }

  /** A text is one blank between words or what it says in full; a blank one is not there. */
  function TextSays(pieces: seq<Piece>, condense: bool): string {
    if condense then Join(WordValues(pieces)) else Values(pieces)
  }

  function ItemSays(i: Item, condense: bool): seq<Node>
    decreases i, 2
  {
    match i
    case TextItem(pieces) =>
      if AllWhite(TextSays(pieces, condense)) then [] else [Text(TextSays(pieces, condense), false)]
    case NodeItem(_, node) => [NodeSays(node, condense)]
  }

  function ItemsSay(items: seq<Item>, condense: bool): seq<Node>
    decreases items
  {
    if items == [] then [] else ItemSays(items[0], condense) + ItemsSay(items[1..], condense)
  }

  // ----- when it fits in front of `y`

  /** A value without quotes goes on up to white space, `/` or `>`, and starts behind all white space. */
  predicate ValueFits(v: ValueSpelling, y: string) {
    && y != ""
    && match v
       case Quoted(quote, pieces) =>
         (quote == '\'' || quote == '"') && AllFit(pieces, [quote] + y) && Avoids(pieces, [quote])
       case Bare(text) =>
         && (forall i :: 0 <= i < |text| ==> !IsWhite(text[i]) && text[i] !in "/>'\"")
         && (y[0] == '/' || y[0] == '>' || (IsWhite(y[0]) && text != ""))
  }

  predicate AttrFits(a: AttrSpelling, y: string) {
    AllWhite(a.before) && IsName(a.name) && AllWhite(a.left) && AllWhite(a.right) && ValueFits(a.value, y)
  }

  predicate AttrsFit(attrs: seq<AttrSpelling>, y: string) {
    attrs == [] || (AttrFits(attrs[0], AttrsText(attrs[1..]) + y) && AttrsFit(attrs[1..], y))
  }

  predicate NameEnds(y: string) {
    y != "" && !IsNameChar(y[0])
  }

  predicate NodeFits(n: Spelling, y: string)
    decreases n, 1
  {
    match n
    case ElementS(name, attrs, before, content) =>
      var z := before + (ContentText(name, content) + y);
      && IsName(name) && AllWhite(before) && NameEnds(AttrsText(attrs) + z)
      && AttrsFit(attrs, z) && UniqueNames(AttrsSay(attrs)) && ContentFits(name, content, y)
    case CommentS(value, closed) => Lacks(value, COMMENT_END) && (closed || y == "")
    case CDataS(value, closed) => Lacks(value, CDATA_END) && (closed || y == "")
    case UnknownS(value, closed) =>
      Lacks(value, ">") && (closed || y == "") && Identify("<" + (value + if closed then ">" else "")).UnknownKind?
  }

  predicate ContentFits(name: string, c: Content, y: string)
    decreases c, 1
  {
    match c
    case Empty => true
    case Full(items, gap, after) => AllWhite(gap) && AllWhite(after) && ItemsFit(items, gap + (EndTag(name, after) + y))
  }

  /** A text is not white space only and ends in front of a tag; a node must not look like an end tag. */
  predicate ItemFits(i: Item, y: string)
    decreases i, 2
  {
    && |y| >= 2
    && match i
       case TextItem(pieces) => DropWhite(pieces) != [] && AllFit(pieces, y) && Avoids(pieces, "<") && y[0] == '<'
       case NodeItem(lead, node) => AllWhite(lead) && NodeFits(node, y) && !("</" <= NodeText(node) + y)
  }

  predicate ItemsFit(items: seq<Item>, y: string)
    decreases items
  {
    items == [] || (ItemFits(items[0], ItemsText(items[1..]) + y) && ItemsFit(items[1..], y))
  }

  // ----- which kind of node

  /** The kind of a node, told from its first characters: a declaration in either case, a comment, a CDATA section, an
      element by the first character of its name, and anything else. */
  lemma KindIff(r: string)
    requires r != "" && r[0] == '<'
    ensures Identify(r).DeclarationKind? <==> |r| >= 5 && r[1] == '?' && r[2] in "xX" && r[3] in "mM" && r[4] in "lL"
    ensures Identify(r).CommentKind? <==> |r| >= 4 && r[1] == '!' && r[2] == '-' && r[3] == '-'
    ensures Identify(r).CDataKind? <==> |r| >= 9 && r[1..9] == "![CDATA["
    ensures Identify(r).ElementKind? <==> |r| >= 2 && IsNameStart(r[1])
  {
    var x := "<?xml";
    Either('?', r, 1);
    Either('x', r, 2);
    Either('m', r, 3);
    Either('l', r, 4);
    assert StartsWithNoCase(r, x) <==>
           |r| >= 5 && ToLower(r[1]) == ToLower(x[1]) && ToLower(r[2]) == ToLower(x[2]) && ToLower(r[3]) == ToLower(x[3])
           && ToLower(r[4]) == ToLower(x[4]);
    assert |r| >= 9 ==> (r[1..9] == "![CDATA[" <==> CDATA_HEADER <= r);
    assert |r| >= 4 ==> (COMMENT_HEADER <= r <==> r[1] == '!' && r[2] == '-' && r[3] == '-');
    assert |r| >= 9 && r[1..9] == "![CDATA[" ==> r[1] == '!' && r[2] == '[';
  }

  lemma Either(c: char, r: string, i: nat)
    requires c == '?' || 'a' <= c <= 'z'
    ensures i < |r| ==> (ToLower(r[i]) == ToLower(c) <==> r[i] == c || (c != '?' && r[i] as int + 32 == c as int))
  {
  }

  // ----- attributes

  lemma {:induction false} UnquotedBack(text: string, y: string)
    requires forall i :: 0 <= i < |text| ==> !EndsUnquoted(text[i])
    requires y != "" && EndsUnquoted(y[0])
    ensures UnquotedSpan(text + y) == |text|
  {
    if text == "" {
      assert text + y == y;
    } else {
      assert (text + y)[1..] == text[1..] + y;
      UnquotedBack(text[1..], y);
    }
  }

  lemma QuotedRead(name: string, quote: char, pieces: seq<Piece>, y: string)
    requires ValueFits(Quoted(quote, pieces), y)
    ensures ParseAttrValue(name, [quote] + (PiecesText(pieces) + [quote]) + y)
         == ParsedAttr(Attr(name, Values(pieces)), Some(y), NoError)
  {
    assert IsDelimiter([quote]);
    var tail, t := [quote] + y, PiecesText(pieces);
    hide *;
    assert [quote] <= tail;
    ValueQuote(quote, pieces, y);
    TextSpelled(pieces, tail, [quote]);
    assert [quote] + (t + [quote]) + y == [quote] + (t + tail);
    AttrValueUnfold(name, quote, t + tail);
    PastEndOf([quote], y);
  }

  lemma ValueQuote(quote: char, pieces: seq<Piece>, y: string)
    requires ValueFits(Quoted(quote, pieces), y)
    ensures IsQuote(quote) && AllFit(pieces, [quote] + y) && Avoids(pieces, [quote]) && y != ""
  {
  }

  /** An unquoted value is ended by white space, `/`, `>` and both quotes, and by nothing else. */
  lemma EndsIff(c: char)
    ensures EndsUnquoted(c) <==> IsWhite(c) || c in "/>'\""
    ensures IsQuote(c) <==> c in "'\""
  {
    assert "/>'\"" == ['/', '>', '\'', '"'] && "'\"" == ['\'', '"'];
  }

  lemma BareFits(text: string, y: string)
    ensures ValueFits(Bare(text), y) <==>
            && y != "" && (forall i :: 0 <= i < |text| ==> !EndsUnquoted(text[i]))
            && EndsUnquoted(y[0]) && !IsQuote(y[0]) && (text == "" ==> !IsWhite(y[0]))
  {
    forall c: char ensures (EndsUnquoted(c) <==> IsWhite(c) || c in "/>'\"") && (IsQuote(c) <==> c in "'\"") {
      EndsIff(c);
    }
  }

  lemma BareRead(name: string, text: string, y: string)
    requires ValueFits(Bare(text), y)
    ensures ParseAttrValue(name, text + y) == ParsedAttr(Attr(name, text), Some(y), NoError)
  {
    BareFits(text, y);
    UnquotedBack(text, y);
    assert (text + y)[|text|..] == y && (text + y)[..|text|] == text && (text + y)[|text|] == y[0];
    assert (text + y)[0] == if text == "" then y[0] else text[0];
    hide ReadText, UnquotedSpan;
  }

  /** An attribute value is read as it says, and starts with no white space. */
  lemma ValueRead(name: string, v: ValueSpelling, y: string)
    requires ValueFits(v, y)
    ensures var r := SpelledValue(v) + y;
            r != "" && !IsWhite(r[0]) && ParseAttrValue(name, r) == ParsedAttr(Attr(name, ValueSays(v)), Some(y), NoError)
  {
    hide ParseAttrValue, PiecesText, AllFit, Avoids, Values;
    match v
    case Quoted(quote, pieces) =>
      QuotedRead(name, quote, pieces, y);
      assert (SpelledValue(v) + y)[0] == quote;
    case Bare(text) =>
      BareFits(text, y);
      BareRead(name, text, y);
      assert (text + y)[0] == if text == "" then y[0] else text[0];
  }

  /** An attribute spelled with any white space around its `=`, its value quoted or not, is read as it says. */
  lemma AttrRead(a: AttrSpelling, y: string)
    requires AttrFits(a, y)
    ensures ParseAttribute(AttrText(a) + y) == ParsedAttr(AttrSays(a), Some(y), NoError)
    ensures SkipWhite(AttrText(a) + y) != "" && IsNameStart(SkipWhite(AttrText(a) + y)[0])
  {
    var v := SpelledValue(a.value) + y;
    var q := "=" + (a.right + v);
    var n := a.name + (a.left + q);
    ValueRead(a.name, a.value, y);
    hide ParseAttrValue, SpelledValue, ValueSays, ValueFits;
    AttrTextIs(a, y);
    assert n[0] == a.name[0];
    NameStartNotWhite(n[0]);
    SkipWhiteOver(a.before, n);
    SkipWhiteOver(a.left, q);
    SkipWhiteOver(a.right, v);
    assert (a.left + q)[0] == if a.left == "" then '=' else a.left[0];
    WhiteNotName();
    ReadNameOf(a.name, a.left + q);
    assert q[1..] == a.right + v && q[0] == '=';
    var r := AttrText(a) + y;
    hide AttrText, ReadName, SkipWhite, AllWhite, IsName, IsNameStart;
    AttrUnfold(r, n, a.name, a.left + q, q, v);
  }

  lemma AttrUnfold(r: string, n: string, name: string, l: string, q: string, v: string)
    requires SkipWhite(r) == n && n != "" && ReadName(n) == NameRead(name, Some(l)) && l != ""
    requires SkipWhite(l) == q && q != "" && q[0] == '=' && SkipWhite(q[1..]) == v && v != ""
    ensures ParseAttribute(r) == ParseAttrValue(name, v)
  {
    assert q[1..] != "" && r != "";
    hide ReadName, SkipWhite, ParseAttrValue;
  }

  lemma AttrTextIs(a: AttrSpelling, y: string)
    ensures AttrText(a) + y == a.before + (a.name + (a.left + ("=" + (a.right + (SpelledValue(a.value) + y)))))
  {
    hide SpelledValue;
    var b, n, l, r, v := a.before, a.name, a.left, a.right, SpelledValue(a.value);
    assert (b + (n + (l + ("=" + (r + v))))) + y == b + (n + (l + ("=" + (r + (v + y)))));
  }

  lemma NameStartNotWhite(c: char)
    requires IsNameStart(c)
    ensures !IsWhite(c) && c != '/' && c != '>'
  {
  }

  lemma WhiteNotName()
    ensures forall c :: IsWhite(c) || c == '=' || c == '/' || c == '>' ==> !IsNameChar(c)
  {
  }

  lemma UniqueNext(seen: seq<Attr>, a: Attr, more: seq<Attr>)
    requires UniqueNames(seen + ([a] + more))
    ensures !HasAttr(seen, a.name) && UniqueNames(seen + [a] + more)
  {
    var all := seen + ([a] + more);
    assert all == seen + [a] + more;
    assert all[|seen|] == a;
    assert forall i :: 0 <= i < |seen| ==> all[i] == seen[i];
  }

  lemma AttrsUnfold(attrs: seq<AttrSpelling>, z: string)
    requires attrs != [] && AttrsFit(attrs, z)
    ensures AttrFits(attrs[0], AttrsText(attrs[1..]) + z) && AttrsFit(attrs[1..], z)
    ensures AttrsText(attrs) + z == AttrText(attrs[0]) + (AttrsText(attrs[1..]) + z)
    ensures AttrsSay(attrs) == [AttrSays(attrs[0])] + AttrsSay(attrs[1..])
    ensures z != "" ==> AttrsText(attrs[1..]) + z != ""
  {
    hide AttrText, AttrSays, AttrFits;
    ConcatAssoc(AttrText(attrs[0]), AttrsText(attrs[1..]), z);
  }

  lemma NoAttrs(z: string)
    ensures AttrsText([]) + z == z && AttrsSay([]) == []
  {
  }

  /** The attribute loop takes any spelled attributes with new names, one after the other. */
  lemma {:induction false} AttrsRead(name: string, seen: seq<Attr>, attrs: seq<AttrSpelling>, z: string, condense: bool)
    requires AttrsFit(attrs, z) && UniqueNames(seen + AttrsSay(attrs)) && z != ""
    ensures ParseTag(name, seen, AttrsText(attrs) + z, condense) == ParseTag(name, seen + AttrsSay(attrs), z, condense)
    decreases attrs
  {
    hide *;
    if attrs == [] {
      NoAttrs(z);
      assert seen + [] == seen;
    } else {
      var a, rest := attrs[0], attrs[1..];
      var y := AttrsText(rest) + z;
      AttrsUnfold(attrs, z);
      AttrRead(a, y);
      UniqueNext(seen, AttrSays(a), AttrsSay(rest));
      TagStep(name, seen, AttrText(a) + y, AttrSays(a), y, condense);
      AttrsRead(name, seen + [AttrSays(a)], rest, z, condense);
      assert seen + [AttrSays(a)] + AttrsSay(rest) == seen + ([AttrSays(a)] + AttrsSay(rest));
    }
  }

  lemma TagStep(name: string, seen: seq<Attr>, r: string, a: Attr, y: string, condense: bool)
    requires SkipWhite(r) != "" && IsNameStart(SkipWhite(r)[0]) && y != "" && !HasAttr(seen, a.name)
    requires ParseAttribute(r) == ParsedAttr(a, Some(y), NoError)
    ensures ParseTag(name, seen, r, condense) == ParseTag(name, seen + [a], y, condense)
  {
    NameStartNotWhite(SkipWhite(r)[0]);
    AttributeSkips(r);
    hide ParseAttribute, SkipWhite, HasAttr, ParseValue, ParseEndTag;
  }

  lemma AttributeSkips(r: string)
    requires SkipWhite(r) != ""
    ensures ParseAttribute(SkipWhite(r)) == ParseAttribute(r) && r != ""
  {
    SkipNothing(SkipWhite(r));
    hide ReadName, ParseAttrValue;
  }

  // ----- elements

  lemma EndTagRead(name: string, after: string, y: string)
    requires AllWhite(after)
    ensures ParseEndTag(name, Some(EndTag(name, after) + y)) == Some(y)
    ensures "</" <= EndTag(name, after) + y
  {
    var e := "</" + name;
    var r := EndTag(name, after) + y;
    EndTagParts(name, after, y);
    SkipWhiteOver(after, ">" + y);
    assert (">" + y)[1..] == y;
    hide SkipWhite, EndTag, AllWhite;
  }

  lemma EndTagParts(name: string, after: string, y: string)
    ensures var e, r := "</" + name, EndTag(name, after) + y;
            e <= r && r[|e|..] == after + (">" + y) && "</" <= r && r != ""
  {
    var e, r := "</" + name, EndTag(name, after) + y;
    assert r == e + (after + (">" + y));
    assert r[0] == '<' && r[1] == '/';
  }

  lemma EmptyRead(name: string, attrs: seq<Attr>, before: string, y: string, condense: bool)
    requires AllWhite(before)
    ensures ParseTag(name, attrs, before + ("/>" + y), condense) == Parsed(Element(name, attrs, []), Some(y), NoError)
  {
    SkipWhiteOver(before, "/>" + y);
    assert ("/>" + y)[2..] == y && ("/>" + y)[1..] != "";
    hide SkipWhite;
  }

  lemma FullRead(name: string, attrs: seq<Attr>, before: string, x: string, kids: seq<Node>, after: string, y: string, condense: bool)
    requires AllWhite(before) && AllWhite(after)
    requires ParseValue(Some(x), condense) == ParsedKids(kids, Some(EndTag(name, after) + y), NoError)
    ensures ParseTag(name, attrs, before + (">" + x), condense) == Parsed(Element(name, attrs, kids), Some(y), NoError)
  {
    SkipWhiteOver(before, ">" + x);
    EndTagRead(name, after, y);
    assert (">" + x)[1..] == x;
    hide SkipWhite, ParseValue, ParseEndTag, EndTag;
  }

  lemma TagRead(name: string, r: string, condense: bool)
    requires IsName(name) && NameEnds(r)
    ensures var s := "<" + (name + r);
            Identify(s).ElementKind? && ParseNode(s, condense) == ParseTag(name, [], r, condense)
  {
    var s := "<" + (name + r);
    assert s[1] == name[0] && IsNameStart(s[1]);
    assert s[1..] == name + r && (name + r)[0] == name[0];
    hide Identify, ParseTag, ParseNode, ParseElement, SkipWhite, ReadName;
    IdentifyElement(s);
    NameStartNotWhite(name[0]);
    SkipNothing(s);
    SkipNothing(name + r);
    ReadNameOf(name, r);
    TagUnfold(s, name, r, condense);
  }

  lemma TagUnfold(s: string, name: string, r: string, condense: bool)
    requires s != "" && s[0] == '<' && Identify(s).ElementKind? && SkipWhite(s) == s && SkipWhite(s[1..]) == s[1..]
    requires ReadName(s[1..]) == NameRead(name, Some(r)) && r != ""
    ensures ParseNode(s, condense) == ParseTag(name, [], r, condense)
  {
    hide Identify, ParseTag, SkipWhite, ReadName;
  }

  // ----- leaves

  lemma {:induction false} UntilAll(s: string, end: string)
    requires Lacks(s, end)
    ensures Until(s, end) == |s|
  {
    if s != "" {
      LacksTail(s, end);
      UntilAll(s[1..], end);
    }
  }

  lemma LeafBody(header: string, value: string, end: string, closed: bool, y: string)
    requires IsTerminator(end) && Lacks(value, end) && (closed || y == "")
    ensures var r := (header + (value + if closed then end else "")) + y;
            && header <= r && r[|header|..] == value + (if closed then end + y else "")
            && Until(r[|header|..], end) == |value|
            && r[|header|..][..|value|] == value
            && (closed ==> r[|header|..][|value|..] == end + y)
  {
    var e := if closed then end else "";
    var r := (header + (value + e)) + y;
    var b := value + if closed then end + y else "";
    assert r == header + b;
    assert r[|header|..] == b;
    if closed {
      UntilBack(value, end, y);
    } else {
      UntilAll(value, end);
      assert b == value;
    }
  }

  lemma CommentRead(value: string, closed: bool, y: string, condense: bool)
    requires NodeFits(CommentS(value, closed), y)
    ensures ParseNode(NodeText(CommentS(value, closed)) + y, condense) == Parsed(Comment(value), Some(y), NoError)
  {
    LeafBody(COMMENT_HEADER, value, COMMENT_END, closed, y);
    var r := NodeText(CommentS(value, closed)) + y;
    IdentifiedComment(r);
    hide Until, Identify, Lacks;
    assert closed ==> r[4..][|value| + 3..] == y by {
      if closed {
        assert r[4..][|value|..][3..] == y;
      }
    }
  }

  lemma CDataRead(value: string, closed: bool, y: string, condense: bool)
    requires NodeFits(CDataS(value, closed), y)
    ensures ParseNode(NodeText(CDataS(value, closed)) + y, condense)
         == Parsed(Text(value, true), if y == "" then None else Some(y), NoError)
  {
    LeafBody(CDATA_HEADER, value, CDATA_END, closed, y);
    var r := NodeText(CDataS(value, closed)) + y;
    IdentifiedCData(r);
    CDataEndRead(y);
    NoEndRead();
    hide Until, Identify, Lacks, ReadText;
    assert !closed ==> r[9..][|value|..] == "";
  }

  lemma NoEndRead()
    ensures ReadText("", false, true, CDATA_END).rest == None
  {
  }

  lemma IdentifiedCData(r: string)
    requires CDATA_HEADER <= r
    ensures Identify(r) == CDataKind
  {
    assert r[1] == '!' && r[2] == '[';
    assert ToLower(r[1]) != ToLower("<?xml"[1]);
  }

  lemma UnknownKind(value: string, closed: bool, y: string)
    requires NodeFits(UnknownS(value, closed), y)
    ensures Identify(NodeText(UnknownS(value, closed)) + y).UnknownKind?
  {
    if closed {
      var s, t := "<" + value + ">", "<" + (value + ">");
      assert s == t;
      UnknownKindStable(value, y);
      hide Identify, Lacks;
    } else {
      var t := "<" + (value + "");
      assert t + y == t;
      hide Identify, Lacks;
    }
  }

  lemma UnknownRead(value: string, closed: bool, y: string, condense: bool)
    requires NodeFits(UnknownS(value, closed), y)
    ensures ParseNode(NodeText(UnknownS(value, closed)) + y, condense) == Parsed(Unknown(value), Some(y), NoError)
  {
    hide Until, Identify, Lacks, ParseNode;
    UnknownKind(value, closed, y);
    LeafBody("<", value, ">", closed, y);
    UnknownUnfold(NodeText(UnknownS(value, closed)) + y, value, closed, y, condense);
  }

  lemma UnknownUnfold(r: string, value: string, closed: bool, y: string, condense: bool)
    requires "<" <= r && Identify(r).UnknownKind? && r[1..] == value + (if closed then ">" + y else "")
    requires Until(r[1..], ">") == |value| && r[1..][..|value|] == value && (closed || y == "")
    ensures ParseNode(r, condense) == Parsed(Unknown(value), Some(y), NoError)
  {
    hide Until, Identify;
    assert r[0] == '<';
    if closed {
      assert r[1..][|value| + 1..] == y;
    }
  }

  // ----- children

  lemma TextItemRead(pieces: seq<Piece>, y: string, condense: bool)
    requires ItemFits(TextItem(pieces), y)
    ensures var v, t := ParseValue(Some(y), condense), TextSays(pieces, condense);
            ParseValue(Some(PiecesText(pieces) + y), condense) ==
              ParsedKids((if AllWhite(t) then [] else [Text(t, false)]) + v.kids, v.rest, v.error)
  {
    assert IsDelimiter("<") && "<" <= y;
    var r := PiecesText(pieces) + y;
    var qs := DropWhite(pieces);
    DropWhiteFits(pieces, y, "<");
    var q := PiecesText(qs) + y;
    TextStarts(qs, y);
    SkipNothing(q);
    assert SkipWhite(r) == q && q[0] != '<';
    SkipStart(r);
    assert ParseText(if condense then q else r, condense) == Parsed(Text(TextSays(pieces, condense), false), Some(y), NoError) by {
      hide ParseValue, ParseNode;
      TextSpelled(qs, y, "<");
      TextSpelled(pieces, y, "<");
      hide ReadText, PiecesText, AllFit, WordValues, Values, Avoids, DropWhite, SkipWhite;
      PastTag(y);
    }
    hide ParseText, ParseNode, PiecesText, TextSays, AllFit, DropWhite, SkipWhite, AllWhite;
  }

  lemma PastTag(y: string)
    requires |y| >= 2 && y[0] == '<'
    ensures PastEnd(Some(y), "<") == Some(y[1..]) && "<" + y[1..] == y
  {
    assert "<" <= y;
  }

  lemma TextStarts(qs: seq<Piece>, y: string)
    requires qs != [] && !WhitePiece(qs[0]) && AllFit(qs, y) && Avoids(qs, "<")
    ensures var q := PiecesText(qs) + y; q != "" && q[0] != '<' && !IsWhite(q[0])
  {
    var z := PiecesText(qs[1..]) + y;
    ConcatAssoc(PieceText(qs[0]), PiecesText(qs[1..]), y);
    PieceStart(qs[0], z, "<");
    assert !("<" <= PieceText(qs[0]) + z);
  }

  lemma SkipStart(r: string)
    requires SkipWhite(r) != "" && SkipWhite(r)[0] != '<'
    ensures r != "" && r[0] != '<'
  {
  }

  lemma NodeItemRead(lead: string, s: string, n: Node, y: string, condense: bool)
    requires AllWhite(lead) && s != "" && s[0] == '<' && !("</" <= s) && y != ""
    requires ParseNode(s, condense) == Parsed(n, Some(y), NoError)
    ensures var v := ParseValue(Some(y), condense);
            ParseValue(Some(lead + s), condense) == ParsedKids([n] + v.kids, v.rest, v.error)
  {
    SkipWhiteOver(lead, s);
    hide ParseNode, ParseText, SkipWhite;
  }

  lemma ItemsEnd(gap: string, tail: string, condense: bool)
    requires AllWhite(gap) && "</" <= tail
    ensures ParseValue(Some(gap + tail), condense) == ParsedKids([], Some(tail), NoError)
  {
    assert tail[0] == '<';
    SkipWhiteOver(gap, tail);
    hide ParseNode, ParseText, SkipWhite;
  }

  lemma NodeStarts(n: Spelling, y: string)
    ensures var s := NodeText(n) + y; s != "" && s[0] == '<'
  {
    hide AttrsText, ContentText;
  }

  // ----- the induction

  /** What is left to read behind a node; a CDATA section at the end of the input leaves nothing. */
  function Left(n: Spelling, y: string): Ptr {
    if n.CDataS? && y == "" then None else Some(y)
  }

  /** Every spelling of a node that fits is accepted, and read as what it says. */
  lemma {:induction false} NodeReads(n: Spelling, y: string, condense: bool)
    requires NodeFits(n, y)
    ensures ParseNode(NodeText(n) + y, condense) == Parsed(NodeSays(n, condense), Left(n, y), NoError)
    decreases n, 2
  {
    match n
    case ElementS(_, _, _, _) => ElementReads(n, y, condense);
    case CommentS(value, closed) => CommentRead(value, closed, y, condense);
    case CDataS(value, closed) => CDataRead(value, closed, y, condense);
    case UnknownS(value, closed) => UnknownRead(value, closed, y, condense);
  }

  lemma ElementFits(n: Spelling, y: string)
    requires n.ElementS? && NodeFits(n, y)
    ensures var z := n.before + (ContentText(n.name, n.content) + y);
            && IsName(n.name) && AllWhite(n.before) && NameEnds(AttrsText(n.attrs) + z) && z != ""
            && AttrsFit(n.attrs, z) && UniqueNames([] + AttrsSay(n.attrs)) && ContentFits(n.name, n.content, y)
            && NodeText(n) + y == "<" + (n.name + (AttrsText(n.attrs) + z))
  {
    var a, b, c := AttrsText(n.attrs), n.before, ContentText(n.name, n.content);
    assert NodeText(n) == "<" + (n.name + (a + (b + c)));
    assert [] + AttrsSay(n.attrs) == AttrsSay(n.attrs);
    assert c != "";
    hide AttrsText, ContentText, AttrsFit, AttrsSay, ContentFits, UniqueNames, IsName;
    assert ("<" + (n.name + (a + (b + c)))) + y == "<" + (n.name + (a + (b + (c + y))));
  }

  lemma {:induction false} ElementReads(n: Spelling, y: string, condense: bool)
    requires n.ElementS? && NodeFits(n, y)
    ensures ParseNode(NodeText(n) + y, condense) == Parsed(NodeSays(n, condense), Some(y), NoError)
    decreases n, 1
  {
    ElementFits(n, y);
    var z := n.before + (ContentText(n.name, n.content) + y);
    ContentReads(n.name, AttrsSay(n.attrs), n.before, n.content, y, condense);
    assert [] + AttrsSay(n.attrs) == AttrsSay(n.attrs);
    assert NodeSays(n, condense) == Element(n.name, AttrsSay(n.attrs), ContentSays(n.content, condense));
    hide *;
    TagRead(n.name, AttrsText(n.attrs) + z, condense);
    AttrsRead(n.name, [], n.attrs, z, condense);
  }

  lemma {:induction false} ContentReads(name: string, attrs: seq<Attr>, before: string, c: Content, y: string, condense: bool)
    requires AllWhite(before) && ContentFits(name, c, y)
    ensures ParseTag(name, attrs, before + (ContentText(name, c) + y), condense)
         == Parsed(Element(name, attrs, ContentSays(c, condense)), Some(y), NoError)
    decreases c, 1
  {
    match c
    case Empty => EmptyRead(name, attrs, before, y, condense);
    case Full(items, gap, after) =>
      var tail := EndTag(name, after) + y;
      var x := ItemsText(items) + (gap + tail);
      EndTagRead(name, after, y);
      ItemsRead(items, gap, tail, condense);
      assert ContentText(name, c) + y == ">" + x by {
        var i, e := ItemsText(items), EndTag(name, after);
        hide *;
        assert (">" + (i + (gap + e))) + y == ">" + (i + (gap + (e + y)));
      }
      hide ParseTag, ParseValue, ItemsText, ItemsSay, ItemsFit;
      FullRead(name, attrs, before, x, ItemsSay(items, condense), after, y, condense);
  }

  lemma {:induction false} ItemsRead(items: seq<Item>, gap: string, tail: string, condense: bool)
    requires AllWhite(gap) && "</" <= tail && ItemsFit(items, gap + tail)
    ensures ParseValue(Some(ItemsText(items) + (gap + tail)), condense)
         == ParsedKids(ItemsSay(items, condense), Some(tail), NoError)
    decreases items, 3
  {
    if items == [] {
      assert "" + (gap + tail) == gap + tail;
      ItemsEnd(gap, tail, condense);
    } else {
      var i, rest := items[0], items[1..];
      var y := ItemsText(rest) + (gap + tail);
      ItemsRead(rest, gap, tail, condense);
      ItemsUnfold(items, gap + tail, condense);
      assert i in items;
      hide ParseValue, ItemsText, ItemsSay, ItemsFit, NodeText, NodeSays, NodeFits, ParseNode, ParseText;
      match i
      case TextItem(pieces) => TextItemRead(pieces, y, condense);
      case NodeItem(lead, node) =>
        NodeReads(node, y, condense);
        NodeStarts(node, y);
        ConcatAssoc(lead, NodeText(node), y);
        NodeItemRead(lead, NodeText(node) + y, NodeSays(node, condense), y, condense);
    }
  }

  lemma ItemsUnfold(items: seq<Item>, z: string, condense: bool)
    requires items != [] && ItemsFit(items, z)
    ensures ItemFits(items[0], ItemsText(items[1..]) + z) && ItemsFit(items[1..], z)
    ensures ItemsText(items) + z == ItemText(items[0]) + (ItemsText(items[1..]) + z)
    ensures ItemsSay(items, condense) == ItemSays(items[0], condense) + ItemsSay(items[1..], condense)
  {
    hide ItemText, ItemSays, ItemFits;
    ConcatAssoc(ItemText(items[0]), ItemsText(items[1..]), z);
  }
}
