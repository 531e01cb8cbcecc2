/** Which error a text gets that the grammar does not take, and what has been read by then: told from the spelled
    part in front of the place where it goes wrong. */
module XmlErrors {
  import opened XmlChars
  import opened XmlText
  import opened XmlTree
  import opened XmlParse
  import opened XmlRoundTrip
  import opened XmlAccept
  import opened XmlPieces
  import opened XmlGrammar
  import opened XmlLanguage

  // ----- in a start tag

  /** Attributes that are spelled right in front of `z`. */
  predicate Begins(attrs: seq<AttrSpelling>, z: string) {
    AttrsFit(attrs, z) && UniqueNames(AttrsSay(attrs))
  }

  lemma Onwards(name: string, attrs: seq<AttrSpelling>, z: string, condense: bool)
    requires Begins(attrs, z)
    ensures ParseTag(name, [], AttrsText(attrs) + z, condense) == ParseTag(name, AttrsSay(attrs), z, condense)
  {
    assert [] + AttrsSay(attrs) == AttrsSay(attrs);
    if z == "" {
      LastNeedsMore(attrs);
      NoAttrs(z);
    } else {
      AttrsRead(name, [], attrs, z, condense);
    }
  }

  lemma {:induction false} LastNeedsMore(attrs: seq<AttrSpelling>)
    requires AttrsFit(attrs, "")
    ensures attrs == []
  {
    if attrs != [] {
      LastNeedsMore(attrs[1..]);
    }
  }

  /** The input ends in a start tag. */
  lemma TagCutShort(name: string, attrs: seq<AttrSpelling>, w: string, condense: bool)
    requires Begins(attrs, w) && AllWhite(w)
    ensures ParseTag(name, [], AttrsText(attrs) + w, condense)
         == Parsed(Element(name, AttrsSay(attrs), []), None, ReadingAttributes)
  {
    Onwards(name, attrs, w, condense);
    SkipWhiteOver(w, "");
    assert w + "" == w;
    hide AttrsText, AttrsSay, SkipWhite;
  }

  /** A `/` in it without its `>`. */
  lemma SlashAlone(name: string, attrs: seq<AttrSpelling>, w: string, u: string, condense: bool)
    requires Begins(attrs, w + ("/" + u)) && AllWhite(w) && (u == "" || u[0] != '>')
    ensures ParseTag(name, [], AttrsText(attrs) + (w + ("/" + u)), condense)
         == Parsed(Element(name, AttrsSay(attrs), []), None, ParsingEmpty)
  {
    Onwards(name, attrs, w + ("/" + u), condense);
    SkipWhiteOver(w, "/" + u);
    assert ("/" + u)[1..] == u;
    hide AttrsText, AttrsSay, SkipWhite;
  }

  /** A repeated name. */
  lemma NameRepeated(name: string, attrs: seq<AttrSpelling>, a: AttrSpelling, y: string, condense: bool)
    requires Begins(attrs, AttrText(a) + y) && AttrFits(a, y) && HasAttr(AttrsSay(attrs), a.name) && y != ""
    ensures ParseTag(name, [], AttrsText(attrs) + (AttrText(a) + y), condense)
         == Parsed(Element(name, AttrsSay(attrs), []), None, ParsingElement)
  {
    var r := AttrText(a) + y;
    Onwards(name, attrs, r, condense);
    AttrRead(a, y);
    NameStartNotWhite(SkipWhite(r)[0]);
    AttributeSkips(r);
    hide AttrsText, AttrsSay, SkipWhite, AttrText, AttrFits, ParseAttribute, HasAttr, ParseValue, ParseEndTag;
  }

  /** An attribute that is not read ends the element; without an error of its own it gets the element's. */
  lemma BadAttribute(name: string, attrs: seq<AttrSpelling>, r: string, condense: bool)
    requires Begins(attrs, r) && SkipWhite(r) != "" && SkipWhite(r)[0] != '/' && SkipWhite(r)[0] != '>'
    requires ParseAttribute(r).rest.None?
    ensures ParseTag(name, [], AttrsText(attrs) + r, condense)
         == Parsed(Element(name, AttrsSay(attrs), []), None, FirstError(ParseAttribute(r).error, ParsingElement))
  {
    Onwards(name, attrs, r, condense);
    AttributeSkips(r);
    hide AttrsText, AttrsSay, SkipWhite, ParseAttribute, HasAttr, ParseValue, ParseEndTag;
  }

  /** Something that is no name. */
  lemma NameMissing(w: string, u: string)
    requires AllWhite(w) && u != "" && !IsWhite(u[0]) && !IsNameStart(u[0])
    ensures ParseAttribute(w + u).rest.None? && ParseAttribute(w + u).error == ReadingAttributes
  {
    SkipWhiteOver(w, u);
    hide SkipWhite, NameSpan;
  }

  /** A name with no `=` behind it. */
  lemma EqualsMissing(w: string, n: string, left: string, u: string)
    requires AllWhite(w) && IsName(n) && AllWhite(left) && (u == "" || (u[0] != '=' && !IsWhite(u[0])))
    requires left + u == "" || !IsNameChar((left + u)[0])
    ensures ParseAttribute(w + (n + (left + u))).rest.None? && ParseAttribute(w + (n + (left + u))).error == ReadingAttributes
  {
    var s := n + (left + u);
    assert s[0] == n[0];
    NameStartNotWhite(s[0]);
    SkipWhiteOver(w, s);
    SkipWhiteOver(left, u);
    ReadNameOf(n, left + u);
    hide SkipWhite, ReadName, ParseAttrValue;
  }

  /** An `=` with no value behind it. */
  lemma ValueMissing(w: string, n: string, left: string, right: string)
    requires AllWhite(w) && IsName(n) && AllWhite(left) && AllWhite(right)
    ensures var r := w + (n + (left + ("=" + right)));
            ParseAttribute(r).rest.None? && ParseAttribute(r).error == ReadingAttributes
  {
    var q := "=" + right;
    var s := n + (left + q);
    assert s[0] == n[0] && (left + q)[0] == if left == "" then '=' else left[0];
    NameStartNotWhite(s[0]);
    WhiteNotName();
    SkipWhiteOver(w, s);
    SkipWhiteOver(left, q);
    SkipWhiteOver(right, "");
    ReadNameOf(n, left + q);
    assert q[1..] == right && right + "" == right;
    hide SkipWhite, ReadName, ParseAttrValue;
  }

  /** A quoted value that is not closed, or whose quote is the last character, has no error of its own. */
  lemma QuoteOpen(name: string, quote: char, pieces: seq<Piece>, closed: bool)
    requires IsQuote(quote) && Avoids(pieces, [quote]) && AllFit(pieces, if closed then [quote] else "")
    ensures ParseAttrValue(name, [quote] + (PiecesText(pieces) + if closed then [quote] else ""))
         == ParsedAttr(Attr(name, Values(pieces)), None, NoError)
  {
    assert IsDelimiter([quote]);
    var e := if closed then [quote] else "";
    var t := PiecesText(pieces) + e;
    KeepSpelled(pieces, e, [quote]);
    hide PiecesText, Values, AllFit, Avoids, ReadKeep;
    AttrValueUnfold(name, quote, t);
    assert closed ==> e[1..] == "";
  }

  /** A quote inside a value without quotes. */
  lemma QuoteInside(name: string, text: string, y: string)
    requires forall i :: 0 <= i < |text| ==> !EndsUnquoted(text[i])
    requires text != "" && y != "" && IsQuote(y[0])
    ensures ParseAttrValue(name, text + y) == ParsedAttr(Attr(name, text), None, ReadingAttributes)
  {
    UnquotedBack(text, y);
    assert (text + y)[..|text|] == text && (text + y)[|text|] == y[0] && (text + y)[0] == text[0];
    hide UnquotedSpan, ReadText;
  }

  // ----- behind it

  /** An end tag is taken exactly when it is `</`, the name, white space and `>`. */
  lemma EndTagIff(name: string, tail: string)
    ensures ParseEndTag(name, Some(tail)).Some? <==>
            exists after: string, y: string :: AllWhite(after) && tail == EndTag(name, after) + y
  {
    if ParseEndTag(name, Some(tail)).Some? {
      var after := EndTagSplits(name, tail);
      EndTagIs(name, after, ParseEndTag(name, Some(tail)).value);
    }
    hide ParseEndTag, EndTag;
    if after: string, y: string :| AllWhite(after) && tail == EndTag(name, after) + y {
      EndTagRead(name, after, y);
    }
  }

  /** A value that has been read and no end tag of the element behind it: the children are there. */
  lemma EndTagWrong(name: string, attrs: seq<AttrSpelling>, w: string, items: seq<Item>, gap: string, tail: string, condense: bool)
    requires var x := ItemsText(items) + (gap + tail);
             && Begins(attrs, w + (">" + x)) && AllWhite(w)
             && AllWhite(gap) && "</" <= tail && ItemsFit(items, gap + tail)
    requires !exists after: string, y: string :: AllWhite(after) && tail == EndTag(name, after) + y
    ensures ParseTag(name, [], AttrsText(attrs) + (w + (">" + (ItemsText(items) + (gap + tail)))), condense)
         == Parsed(Element(name, AttrsSay(attrs), ItemsSay(items, condense)), None, ReadingEndTag)
  {
    var x := ItemsText(items) + (gap + tail);
    hide *;
    BeginsAt(attrs, w + (">" + x));
    Onwards(name, attrs, w + (">" + x), condense);
    EndTagIff(name, tail);
    ItemsRead(items, gap, tail, condense);
    WrongEnd(name, AttrsSay(attrs), w, x, ItemsSay(items, condense), tail, condense);
  }

  lemma BeginsAt(attrs: seq<AttrSpelling>, z: string)
    requires Begins(attrs, z)
    ensures AttrsFit(attrs, z) && UniqueNames(AttrsSay(attrs))
  {
  }

  lemma WrongEnd(name: string, attrs: seq<Attr>, w: string, x: string, kids: seq<Node>, tail: string, condense: bool)
    requires AllWhite(w) && ParseValue(Some(x), condense) == ParsedKids(kids, Some(tail), NoError)
    requires ParseEndTag(name, Some(tail)).None?
    ensures ParseTag(name, attrs, w + (">" + x), condense) == Parsed(Element(name, attrs, kids), None, ReadingEndTag)
  {
    SkipWhiteOver(w, ">" + x);
    assert (">" + x)[1..] == x;
    hide SkipWhite, ParseValue, ParseEndTag;
  }

  /** The input ends behind a start tag, at once or after white space. */
  lemma InputEnds(name: string, attrs: seq<AttrSpelling>, w: string, gap: string, condense: bool)
    requires Begins(attrs, w + (">" + gap)) && AllWhite(w) && AllWhite(gap)
    ensures ParseTag(name, [], AttrsText(attrs) + (w + (">" + gap)), condense)
         == Parsed(Element(name, AttrsSay(attrs), []), None, if gap == "" then ReadingElementValue else ReadingEndTag)
  {
    Onwards(name, attrs, w + (">" + gap), condense);
    SkipWhiteOver(w, ">" + gap);
    assert (">" + gap)[1..] == gap;
    SkipWhiteOver(gap, "");
    assert gap + "" == gap;
    hide AttrsText, AttrsSay, SkipWhite, Begins;
  }

  /** The input ends in the name of an element. */
  lemma NameAtEnd(name: string, condense: bool)
    requires IsName(name)
    ensures ParseNode("<" + name, condense) == Parsed(Element(name, [], []), None, FailedToReadElementName)
  {
    var s := "<" + name;
    assert s[1] == name[0] && s[1..] == name;
    IdentifyElement(s);
    NameStartNotWhite(name[0]);
    SkipNothing(s);
    SkipNothing(name);
    ReadNameOf(name, "");
    assert name + "" == name;
    hide Identify, ParseTag, SkipWhite, ReadName;
  }

  /** A child that fails gives its element its error, and is its last child. */
  lemma {:induction false} ChildFails(items: seq<Item>, lead: string, s: string, condense: bool)
    requires ItemsFit(items, lead + s) && AllWhite(lead) && s != "" && s[0] == '<' && !("</" <= s)
    requires ParseNode(s, condense).error != NoError && ParseNode(s, condense).rest.None?
    ensures ParseValue(Some(ItemsText(items) + (lead + s)), condense)
         == ParsedKids(ItemsSay(items, condense) + [ParseNode(s, condense).node], None, ParseNode(s, condense).error)
    decreases items
  {
    if items == [] {
      assert "" + (lead + s) == lead + s;
      var n := ParseNode(s, condense);
      assert [n.node] + [] == [] + [n.node];
      LastFails(lead, s, condense);
    } else {
      var i, rest := items[0], items[1..];
      var y := ItemsText(rest) + (lead + s);
      ItemsUnfold(items, lead + s, condense);
      ChildFails(rest, lead, s, condense);
      hide *;
      ItemReads(i, y, condense);
      assert ItemSays(i, condense) + (ItemsSay(rest, condense) + [ParseNode(s, condense).node])
          == ItemsSay(items, condense) + [ParseNode(s, condense).node];
    }
  }

  lemma LastFails(lead: string, s: string, condense: bool)
    requires AllWhite(lead) && s != "" && s[0] == '<' && !("</" <= s)
    requires ParseNode(s, condense).error != NoError && ParseNode(s, condense).rest.None?
    ensures var n := ParseNode(s, condense); ParseValue(Some(lead + s), condense) == ParsedKids([n.node] + [], None, n.error)
  {
    SkipWhiteOver(lead, s);
    hide ParseNode, ParseText, SkipWhite;
  }

  lemma ItemReads(i: Item, y: string, condense: bool)
    requires ItemFits(i, y)
    ensures var v := ParseValue(Some(y), condense);
            ParseValue(Some(ItemText(i) + y), condense) == ParsedKids(ItemSays(i, condense) + v.kids, v.rest, v.error)
  {
    hide ParseValue, ParseNode, ParseText, NodeText, NodeSays, NodeFits, PiecesText, TextSays;
    match i
    case TextItem(pieces) => TextItemRead(pieces, y, condense);
    case NodeItem(lead, node) =>
      NodeReads(node, y, condense);
      NodeStarts(node, y);
      ConcatAssoc(lead, NodeText(node), y);
      NodeItemRead(lead, NodeText(node) + y, NodeSays(node, condense), y, condense);
  }

  /** An element whose child has failed keeps that error. */
  lemma ElementFails(name: string, attrs: seq<AttrSpelling>, w: string, x: string, condense: bool)
    requires Begins(attrs, w + (">" + x)) && AllWhite(w)
    requires ParseValue(Some(x), condense).error != NoError && ParseValue(Some(x), condense).rest.None?
    ensures var v := ParseValue(Some(x), condense);
            ParseTag(name, [], AttrsText(attrs) + (w + (">" + x)), condense) ==
              Parsed(Element(name, AttrsSay(attrs), v.kids), None, v.error)
  {
    Onwards(name, attrs, w + (">" + x), condense);
    SkipWhiteOver(w, ">" + x);
    assert (">" + x)[1..] == x;
    hide AttrsText, AttrsSay, SkipWhite, Begins, ParseValue;
  }

  // ----- documents

  /** A document in which a node fails gets its error; the nodes up to it are there. */
  lemma {:induction false} DocumentFails(lead: string, tops: seq<Top>, s: string, condense: bool)
    requires AllWhite(lead) && TopsFit(tops, s) && s != "" && s[0] == '<'
    requires ParseNode(s, condense).error != NoError && ParseNode(s, condense).rest.None?
    ensures ParseNodes(SkipWhiteSpace(Some(lead + TopsText(tops, s))), condense)
         == ParsedKids(TopsSay(tops, condense) + [ParseNode(s, condense).node], None, ParseNode(s, condense).error)
    decreases tops
  {
    if tops == [] {
      var n := ParseNode(s, condense);
      assert [] + [n.node] == [n.node] + [];
      SkipWhiteOver(lead, s);
      hide ParseNode, SkipWhite;
    } else {
      var n, gap, rest := tops[0].node, tops[0].gap, tops[1..];
      var z := gap + TopsText(rest, s);
      TopsUnfold(tops, s, condense);
      DocumentFails(gap, rest, s, condense);
      hide *;
      NodeReads(n, z, condense);
      NodeStarts(n, z);
      NodesStep(lead, NodeText(n) + z, condense);
      LeftSkipped(n, z, condense);
      assert [NodeSays(n, condense)] + (TopsSay(rest, condense) + [ParseNode(s, condense).node])
          == TopsSay(tops, condense) + [ParseNode(s, condense).node];
    }
  }

  /** A document without a node is empty, whatever text it holds. */
  lemma NothingThere(lead: string, tail: string, condense: bool)
    requires AllWhite(lead) && (tail == "" || (!IsWhite(tail[0]) && tail[0] != '<'))
    ensures ParseDocument(lead + tail, condense) == ParsedKids([], None, DocumentEmpty)
  {
    NodesEnd(lead, tail, condense);
    hide ParseNodes, SkipWhiteSpace;
  }
}
