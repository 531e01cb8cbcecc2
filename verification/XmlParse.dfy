/** The recursive-descent parser: what every `Parse` member of the engine builds
    from the text left to read, where it leaves the pointer and which error the
    document then holds.

    `condense` is the global white space switch. The encoding is the legacy one.
    Declarations are not part of this model: one that is met stops the parse
    with the error of its own `DeclarationSkipped`. */
module XmlParse {
  import opened XmlChars
  import opened XmlText
  import opened XmlTree

  datatype Error =
    | NoError
    | ParsingElement
    | FailedToReadElementName
    | ReadingElementValue
    | ReadingAttributes
    | ParsingEmpty
    | ReadingEndTag
    | DocumentEmpty
    | DeclarationSkipped

  /** `SetError` keeps the first error of a chain. */
  function FirstError(e: Error, f: Error): Error {
    if e == NoError then f else e
  }

  // ----- leaves

  /** The index of the first occurrence of `end`, or `|r|`. */
  function Until(r: string, end: string): (k: nat)
    ensures k <= |r|
    ensures k < |r| ==> end <= r[k..]
    ensures forall i :: 0 <= i < k ==> !(end <= r[i..])
  {
    if r == "" || end <= r then 0
    else
      var k := Until(r[1..], end);
      assert forall i :: 1 <= i <= |r| ==> r[1..][i - 1..] == r[i..];
      1 + k
  }

  datatype Parsed = Parsed(node: Node, rest: Ptr, error: Error)

  const COMMENT_HEADER := "<!--"
  const COMMENT_END := "-->"
  const CDATA_HEADER := "<![CDATA["
  const CDATA_END := "]]>"

  /** An unterminated comment is accepted and takes the rest of the input. */
  function ParseComment(r: string): (p: Parsed)
    requires COMMENT_HEADER <= r
    ensures p.rest.Some? && |p.rest.value| < |r| && p.error == NoError
  {
    var body := r[4..];
    var k := Until(body, COMMENT_END);
    Parsed(Comment(body[..k]), Some(if k < |body| then body[k + 3..] else ""), NoError)
  }

  /** A CDATA section has to be followed by something. */
  function ParseCData(r: string): (p: Parsed)
    requires CDATA_HEADER <= r
    ensures (p.rest.Some? ==> |p.rest.value| < |r|) && p.error == NoError
  {
    var body := r[9..];
    var k := Until(body, CDATA_END);
    Parsed(Text(body[..k], true), ReadText(body[k..], false, true, CDATA_END).rest, NoError)
  }

  function ParseUnknown(r: string): (p: Parsed)
    requires r != "" && r[0] == '<'
    ensures p.rest.Some? && |p.rest.value| < |r| && p.error == NoError
  {
    var body := r[1..];
    var k := Until(body, ">");
    Parsed(Unknown(body[..k]), Some(if k < |body| then body[k + 1..] else ""), NoError)
  }

  /** Character data up to the next `<`, which is left to be read. */
  function ParseText(r: string, condense: bool): (p: Parsed)
    requires SkipWhite(r) != "" && SkipWhite(r)[0] != '<'
    requires r != "" && r[0] != '<'
    ensures p.node.Text?
    ensures p.rest.Some? ==> |p.rest.value| < |r|
  {
    var t := ReadText(r, true, condense, "<");
    Parsed(Text(t.text, false), if t.rest.Some? then Some("<" + t.rest.value) else None, NoError)
  }

  predicate Blank(n: Node)
    requires n.Text?
  {
    AllWhite(n.value)
  }

  // ----- attributes

  datatype ParsedAttr = ParsedAttr(attr: Attr, rest: Ptr, error: Error)

  /** An attribute value without quotes: up to white space, `/` or `>`, with no quote inside. */
  function UnquotedSpan(r: string): (k: nat)
    ensures k <= |r|
    ensures forall i :: 0 <= i < k ==> !EndsUnquoted(r[i])
    ensures k < |r| ==> EndsUnquoted(r[k])
  {
    if r == "" || EndsUnquoted(r[0]) then 0 else 1 + UnquotedSpan(r[1..])
  }

  predicate EndsUnquoted(c: char) {
    IsWhite(c) || c == '/' || c == '>' || IsQuote(c)
  }

  predicate IsQuote(c: char) {
    c == '\'' || c == '"'
  }

  function ParseAttrValue(name: string, r: string): (a: ParsedAttr)
    requires r != ""
    ensures a.rest.Some? ==> |a.rest.value| <= |r|
  {
    if IsQuote(r[0]) then
      var t := ReadText(r[1..], false, true, [r[0]]);
      ParsedAttr(Attr(name, t.text), t.rest, NoError)
    else
      var k := UnquotedSpan(r);
      if k < |r| && IsQuote(r[k]) then ParsedAttr(Attr(name, r[..k]), None, ReadingAttributes)
      else ParsedAttr(Attr(name, r[..k]), Some(r[k..]), NoError)
  }

  function ParseAttribute(r: string): (a: ParsedAttr)
    ensures a.rest.Some? ==> |a.rest.value| < |r|
  {
    var p := SkipWhiteSpace(Some(r));
    if !Readable(p) then ParsedAttr(Attr("", ""), None, NoError)
    else
      var n := ReadName(p.value);
      if !Readable(n.rest) then ParsedAttr(Attr(n.name, ""), None, ReadingAttributes)
      else
        var q := SkipWhiteSpace(n.rest);
        if !Readable(q) || q.value[0] != '=' then ParsedAttr(Attr(n.name, ""), None, ReadingAttributes)
        else
          var v := SkipWhiteSpace(Some(q.value[1..]));
          if !Readable(v) then ParsedAttr(Attr(n.name, ""), None, ReadingAttributes)
          else ParseAttrValue(n.name, v.value)
  }

  // ----- nodes

  datatype Kind = DeclarationKind | CommentKind | CDataKind | UnknownKind | ElementKind

  /** `Identify`, from a `<` on. */
  function Identify(r: string): Kind
    requires r != "" && r[0] == '<'
  {
    if StartsWithNoCase(r, "<?xml") then DeclarationKind
    else if COMMENT_HEADER <= r then CommentKind
    else if CDATA_HEADER <= r then CDataKind
    else if "<!" <= r then UnknownKind
    else if |r| > 1 && IsNameStart(r[1]) then ElementKind
    else UnknownKind
  }

  function ParseNode(r: string, condense: bool): (p: Parsed)
    requires r != "" && r[0] == '<'
    ensures p.rest.Some? ==> |p.rest.value| < |r|
    decreases |r|, 4
  {
    match Identify(r)
    case DeclarationKind => Parsed(Unknown(""), None, DeclarationSkipped)
    case CommentKind => ParseComment(r)
    case CDataKind => ParseCData(r)
    case UnknownKind => ParseUnknown(r)
    case ElementKind => ParseElement(r, condense)
  }

  /** `TiXmlElement::Parse`. */
  function ParseElement(r: string, condense: bool): (p: Parsed)
    ensures p.node.Element?
    ensures p.rest.Some? ==> |p.rest.value| < |r|
    decreases |r|, 3
  {
    var p := SkipWhiteSpace(Some(r));
    if !Readable(p) || p.value[0] != '<' then Parsed(Element("", [], []), None, ParsingElement)
    else
      var n := ReadName(SkipWhite(p.value[1..]));
      if !Readable(n.rest) then Parsed(Element(n.name, [], []), None, FailedToReadElementName)
      else ParseTag(n.name, [], n.rest.value, condense)
  }

  /** The attribute loop, with `attrs` read so far, and what follows the start tag. */
  function ParseTag(name: string, attrs: seq<Attr>, r: string, condense: bool): (p: Parsed)
    ensures p.node.Element?
    ensures p.rest.Some? ==> |p.rest.value| < |r|
    decreases |r|, 2
  {
    var p := SkipWhiteSpace(Some(r));
    if !Readable(p) then Parsed(Element(name, attrs, []), None, ReadingAttributes)
    else if p.value[0] == '/' then
      if p.value[1..] != "" && p.value[1] == '>' then Parsed(Element(name, attrs, []), Some(p.value[2..]), NoError)
      else Parsed(Element(name, attrs, []), None, ParsingEmpty)
    else if p.value[0] == '>' then
      var v := ParseValue(Some(p.value[1..]), condense);
      var end := ParseEndTag(name, v.rest);
      Parsed(Element(name, attrs, v.kids), end, FirstError(v.error, if end.None? then ReadingEndTag else NoError))
    else
      var a := ParseAttribute(p.value);
      if !Readable(a.rest) then Parsed(Element(name, attrs, []), None, FirstError(a.error, ParsingElement))
      else if HasAttr(attrs, a.attr.name) then Parsed(Element(name, attrs, []), None, ParsingElement)
      else ParseTag(name, attrs + [a.attr], a.rest.value, condense)
  }

  /** The end tag of `name`, with white space allowed before its `>`. */
  function ParseEndTag(name: string, p: Ptr): (q: Ptr)
    ensures q.Some? ==> p.Some? && |q.value| < |p.value|
  {
    var endTag := "</" + name;
    if !Readable(p) || !(endTag <= p.value) then None
    else
      var q := SkipWhiteSpace(Some(p.value[|endTag|..]));
      if Readable(q) && q.value[0] == '>' then Some(q.value[1..]) else None
  }

  datatype ParsedKids = ParsedKids(kids: seq<Node>, rest: Ptr, error: Error)

  /** `TiXmlElement::ReadValue`: text and nodes up to an end tag. */
  function ParseValue(p: Ptr, condense: bool): (v: ParsedKids)
    ensures v.rest.Some? ==> p.Some? && |v.rest.value| <= |p.value|
    decreases if p.Some? then |p.value| else 0, 5, if p.Some? then 1 else 0
  {
    var q := SkipWhiteSpace(p);
    if q.None? then ParsedKids([], None, ReadingElementValue)
    else if q.value == "" then ParsedKids([], q, NoError)
    else if q.value[0] != '<' then
      var t := ParseText(if condense then q.value else p.value, condense);
      var v := ParseValue(t.rest, condense);
      ParsedKids((if Blank(t.node) then [] else [t.node]) + v.kids, v.rest, v.error)
    else if "</" <= q.value then ParsedKids([], q, NoError)
    else
      var n := ParseNode(q.value, condense);
      var v := ParseValue(n.rest, condense);
      ParsedKids([n.node] + v.kids, v.rest, FirstError(n.error, v.error))
  }

  /** The loop of `TiXmlDocument::Parse`: nodes up to the first text that is not one. */
  function ParseNodes(p: Ptr, condense: bool): (v: ParsedKids)
    decreases if p.Some? then |p.value| else 0, if p.Some? then 1 else 0
  {
    if !Readable(p) || p.value[0] != '<' then ParsedKids([], p, NoError)
    else
      var n := ParseNode(p.value, condense);
      var v := ParseNodes(SkipWhiteSpace(n.rest), condense);
      ParsedKids([n.node] + v.kids, v.rest, FirstError(n.error, v.error))
  }

  /** `TiXmlDocument::Parse`. */
  function ParseDocument(r: string, condense: bool): (v: ParsedKids) {
    var p := SkipWhiteSpace(Some(r));
    if p.None? then ParsedKids([], None, DocumentEmpty)
    else
      var v := ParseNodes(p, condense);
      if v.kids == [] then ParsedKids([], None, FirstError(v.error, DocumentEmpty)) else v
  }
}
