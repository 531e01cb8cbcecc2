/** The parser as the engine runs it: loops that advance an index into the text,
    fill in the fields of a node, link new children into the tree and record the
    first error in the document. Each is proved to build the tree, to stop at the
    place and to record the error that `XmlParse` gives for the text. */
module XmlParser {
  import opened XmlChars
  import opened XmlText
  import opened XmlTree
  import opened XmlParse
  import opened Dom

  /** The error state of a `TiXmlDocument` and the node its children hang from. */
  class TiXmlDocument {
    var errorId: Error
    const node: DomNode

    constructor ()
      ensures errorId == NoError && fresh(node) && node.kind == DocumentType
      ensures fresh(node.repr) && node.Standalone() && node.kids == [] && node.repr == {node}
    {
      errorId := NoError;
      node := new DomNode(DocumentType, "");
    }

    /** The first error in a chain is kept. */
    method SetError(e: Error)
      requires e != NoError
      modifies this`errorId
      ensures errorId == FirstError(old(errorId), e)
    {
      if errorId != NoError {
        return;
      }
      errorId := e;
    }
  }

  /** The text an index points at. */
  ghost function At(s: string, p: Option<nat>): Ptr
    requires p.Some? ==> p.value <= |s|
  {
    if p.None? then None else Some(s[p.value..])
  }

  // ----- scanning

  /** `SkipWhiteSpace`. */
  method Skip(s: string, p: Option<nat>) returns (q: Option<nat>)
    requires p.Some? ==> p.value <= |s|
    ensures q.Some? ==> p.Some? && p.value <= q.value <= |s| && p.value < |s|
    ensures At(s, q) == SkipWhiteSpace(At(s, p))
  {
    if p.None? || p.value == |s| {
      return None;
    }
    var k := SkipWhiteFrom(s, p.value);
    q := Some(k);
  }

  /** `ReadName`. */
  method ReadNameAt(s: string, p: nat) returns (name: string, next: Option<nat>)
    requires p <= |s|
    ensures next.Some? ==> p < next.value <= |s|
    ensures ReadName(s[p..]) == NameRead(name, At(s, next))
  {
    if p == |s| || !IsNameStart(s[p]) {
      return "", None;
    }
    var q := ScanName(s, p);
    return s[p..q], Some(q);
  }

  /** The loops that copy characters up to `end`, or to the end of the input. */
  method CopyUntil(s: string, p: nat, end: string) returns (value: string, q: nat)
    requires p <= |s|
    ensures q == p + Until(s[p..], end) && value == s[p..q]
  {
    hide Until;
    q, value := p, "";
    while q < |s| && !(end <= s[q..])
      invariant p <= q <= |s| && value == s[p..q]
      invariant q - p + Until(s[q..], end) == Until(s[p..], end)
    {
      UntilStep(s[q..], end);
      assert s[q..][1..] == s[q + 1..];
      value := value + [s[q]];
      q := q + 1;
    }
    UntilStep(s[q..], end);
  }

  lemma UntilStep(r: string, end: string)
    ensures Until(r, end) == if r == "" || end <= r then 0 else 1 + Until(r[1..], end)
  {
  }

  // ----- leaves

  /** `TiXmlComment::Parse`. */
  method ParseCommentAt(node: DomNode, s: string, p: nat) returns (next: Option<nat>)
    requires p <= |s| && COMMENT_HEADER <= s[p..]
    modifies node`value
    ensures PointsAt(s, next, ParseComment(s[p..]).rest) && ParseComment(s[p..]).node == Comment(node.value)
    ensures next.Some? && p < next.value
  {
    hide *;
    CommentUnfold(s[p..]);
    assert s[p..][4..] == s[p + 4..];
    var value, q := CopyUntil(s, p + 4, COMMENT_END);
    assert s[p + 4..][..q - p - 4] == s[p + 4..q];
    node.value := value;
    if q < |s| {
      assert s[p + 4..][q - p - 4..] == s[q..];
      assert s[p + 4..][q - p - 4 + 3..] == s[q + 3..];
      q := q + 3;
    } else {
      assert s[q..] == "";
    }
    next := Some(q);
    Points(s, q);
  }

  lemma Points(s: string, q: nat)
    requires q <= |s|
    ensures PointsAt(s, Some(q), Some(s[q..]))
  {
  }

  lemma CommentUnfold(r: string)
    requires COMMENT_HEADER <= r
    ensures |r| >= 4 && |COMMENT_END| == 3
    ensures var body := r[4..];
            var k := Until(body, COMMENT_END);
            ParseComment(r) == Parsed(Comment(body[..k]), Some(if k < |body| then body[k + 3..] else ""), NoError)
  {
    hide Until;
  }

  /** `TiXmlText::Parse` of a CDATA section. */
  method ParseCDataAt(node: DomNode, s: string, p: nat) returns (next: Option<nat>)
    requires p <= |s| && CDATA_HEADER <= s[p..]
    modifies node`value, node`cdata
    ensures PointsAt(s, next, ParseCData(s[p..]).rest) && ParseCData(s[p..]).node == Text(node.value, node.cdata)
    ensures next.Some? ==> p < next.value
  {
    hide *;
    CDataUnfold(s[p..]);
    node.cdata := true;
    assert s[p..][9..] == s[p + 9..];
    var value, q := CopyUntil(s, p + 9, CDATA_END);
    assert s[p + 9..][..q - p - 9] == s[p + 9..q] && s[p + 9..][q - p - 9..] == s[q..];
    node.value := value;
    var dummy;
    dummy, next := ReadTextAt(s, q, false, true, CDATA_END);
  }

  lemma CDataUnfold(r: string)
    requires CDATA_HEADER <= r
    ensures |r| >= 9 && CDATA_END != ""
    ensures var body := r[9..];
            var k := Until(body, CDATA_END);
            ParseCData(r) == Parsed(Text(body[..k], true), ReadText(body[k..], false, true, CDATA_END).rest, NoError)
  {
    hide ReadText;
    hide Until;
  }

  /** `TiXmlUnknown::Parse`. */
  method ParseUnknownAt(node: DomNode, s: string, p: nat) returns (next: Option<nat>)
    requires p < |s| && s[p] == '<'
    modifies node`value
    ensures PointsAt(s, next, ParseUnknown(s[p..]).rest) && ParseUnknown(s[p..]).node == Unknown(node.value)
    ensures next.Some? && p < next.value
  {
    hide *;
    UnknownUnfold(s[p..]);
    assert s[p..][1..] == s[p + 1..];
    var value, q := CopyUntil(s, p + 1, ">");
    assert s[p + 1..][..q - p - 1] == s[p + 1..q];
    node.value := value;
    if q < |s| {
      assert s[p + 1..][q - p - 1..] == s[q..];
      assert s[p + 1..][q - p - 1 + 1..] == s[q + 1..];
      q := q + 1;
    } else {
      assert s[q..] == "";
    }
    next := Some(q);
    Points(s, q);
  }

  lemma UnknownUnfold(r: string)
    requires r != "" && r[0] == '<'
    ensures var body := r[1..];
            var k := Until(body, ">");
            ParseUnknown(r) == Parsed(Unknown(body[..k]), Some(if k < |body| then body[k + 1..] else ""), NoError)
  {
    hide Until;
  }

  /** `TiXmlText::Parse` of character data. */
  method ParseTextAt(node: DomNode, s: string, p: nat, condense: bool) returns (next: Option<nat>)
    requires p < |s| && s[p] != '<' && SkipWhite(s[p..]) != "" && SkipWhite(s[p..])[0] != '<' && !node.cdata
    modifies node`value
    ensures PointsAt(s, next, ParseText(s[p..], condense).rest)
    ensures ParseText(s[p..], condense).node == Text(node.value, false)
    ensures next.Some? ==> p < next.value
  {
    hide ReadText;
    ghost var t := ReadText(s[p..], true, condense, "<");
    var value, after := ReadTextAt(s, p, true, condense, "<");
    node.value := value;
    next := None;
    if after.Some? {
      var q := after.value - 1;
      assert s[q..q + 1] == "<" && s[q..] == s[q..q + 1] + s[q + 1..];
      next := Some(q);
    }
  }

  // ----- attributes

  /** The loop of `TiXmlAttribute::Parse` over a value without quotes. */
  method UnquotedAt(s: string, p: nat) returns (value: string, q: nat)
    requires p <= |s|
    ensures q == p + UnquotedSpan(s[p..]) && value == s[p..q]
  {
    q, value := p, "";
    while q < |s| && !IsWhite(s[q]) && s[q] != '/' && s[q] != '>'
      invariant p <= q <= |s| && value == s[p..q]
      invariant q - p + UnquotedSpan(s[q..]) == UnquotedSpan(s[p..])
    {
      if s[q] == '\'' || s[q] == '"' {
        return;
      }
      value := value + [s[q]];
      assert s[q..][1..] == s[q + 1..];
      q := q + 1;
    }
  }

  /** The value of an attribute. */
  method AttrValueAt(s: string, p: nat, document: TiXmlDocument) returns (value: string, next: Option<nat>)
    requires p < |s|
    modifies document`errorId
    ensures forall name: string ::
              && ParseAttrValue(name, s[p..]).attr == Attr(name, value)
              && PointsAt(s, next, ParseAttrValue(name, s[p..]).rest)
              && document.errorId == FirstError(old(document.errorId), ParseAttrValue(name, s[p..]).error)
  {
    hide ReadText;
    hide UnquotedSpan;
    if s[p] == '\'' || s[p] == '"' {
      assert s[p..][1..] == s[p + 1..];
      value, next := ReadTextAt(s, p + 1, false, true, [s[p]]);
      return;
    }
    var q;
    value, q := UnquotedAt(s, p);
    assert s[p..][..q - p] == s[p..q] && s[p..][q - p..] == s[q..];
    if q < |s| && (s[q] == '\'' || s[q] == '"') {
      document.SetError(ReadingAttributes);
      next := None;
    } else {
      next := Some(q);
    }
  }

  /** `TiXmlAttribute::Parse`. */
  method ParseAttributeAt(s: string, p: nat, document: TiXmlDocument) returns (attr: Attr, next: Option<nat>)
    requires p <= |s|
    modifies document`errorId
    ensures attr == ParseAttribute(s[p..]).attr && PointsAt(s, next, ParseAttribute(s[p..]).rest)
    ensures document.errorId == FirstError(old(document.errorId), ParseAttribute(s[p..]).error)
    ensures next.Some? ==> p < next.value
  {
    hide ReadName;
    hide SkipWhite;
    hide SkipWhiteSpace;
    hide ParseAttrValue;
    attr, next := Attr("", ""), None;
    var start := Skip(s, Some(p));
    if start.None? || start.value == |s| {
      return;
    }
    var name, named := ReadNameAt(s, start.value);
    attr := Attr(name, "");
    if named.None? || named.value == |s| {
      document.SetError(ReadingAttributes);
      return;
    }
    var equals := Skip(s, named);
    if equals.None? || equals.value == |s| || s[equals.value] != '=' {
      document.SetError(ReadingAttributes);
      return;
    }
    assert s[equals.value..][1..] == s[equals.value + 1..];
    var quote := Skip(s, Some(equals.value + 1));
    if quote.None? || quote.value == |s| {
      document.SetError(ReadingAttributes);
      return;
    }
    var value;
    value, next := AttrValueAt(s, quote.value, document);
    attr := Attr(name, value);
  }

  // ----- nodes

  /** The tests of `Identify`, from a `<` on. */
  method KindAt(s: string, p: nat) returns (kind: Kind)
    requires p < |s| && s[p] == '<'
    ensures kind == Identify(s[p..])
  {
    hide StartsWithNoCase;
    assert |s[p..]| > 1 ==> s[p..][1] == s[p + 1];
    if StartsWithNoCase(s[p..], "<?xml") {
      kind := DeclarationKind;
    } else if COMMENT_HEADER <= s[p..] {
      kind := CommentKind;
    } else if CDATA_HEADER <= s[p..] {
      kind := CDataKind;
    } else if "<!" <= s[p..] {
      kind := UnknownKind;
    } else if p + 1 < |s| && (IsAlpha(s[p + 1]) || s[p + 1] == '_') {
      kind := ElementKind;
    } else {
      kind := UnknownKind;
    }
  }

  function NodeTypeOf(kind: Kind): NodeType {
    match kind
    case CommentKind => CommentType
    case CDataKind => TextType
    case ElementKind => ElementType
    case _ => UnknownType
  }

  /** `Identify` and the node it makes. */
  method IdentifyAt(s: string, p: nat) returns (node: DomNode, kind: Kind)
    requires p < |s| && s[p] == '<'
    ensures kind == Identify(s[p..]) && node.kind == NodeTypeOf(kind)
    ensures fresh(node) && node.repr == {node} && node.Standalone() && node.kids == [] && node.attrs == []
    ensures node.value == "" && (node.cdata <==> kind == CDataKind)
  {
    hide *;
    kind := KindAt(s, p);
    node := new DomNode(NodeTypeOf(kind), "");
    node.cdata := kind == CDataKind;
  }

  /** `Identify` followed by the `Parse` of the node it has made. */
  method ParseNodeAt(s: string, p: nat, condense: bool, document: TiXmlDocument) returns (node: DomNode, next: Option<nat>)
    requires p < |s| && s[p] == '<'
    modifies document`errorId
    ensures fresh(node.repr) && node.Standalone() && node.kind != DocumentType
    ensures ParsedTo(s, ParseNode(s[p..], condense), node.Tree(), next, old(document.errorId), document.errorId)
    ensures next.Some? ==> p < next.value
    decreases |s| - p, 4
  {
    hide Ok, DomNode.Valid, DomNode.Standalone, DomNode.Trees, DomNode.Tree;
    hide ParseElement, ParseComment, ParseCData, ParseUnknown, Identify;
    var kind;
    node, kind := IdentifyAt(s, p);
    IdentifyFacts(s[p..]);
    next := None;
    match kind
    case DeclarationKind =>
      document.SetError(DeclarationSkipped);
      node.LeafTree();
    case CommentKind =>
      next := ParseCommentAt(node, s, p);
      node.LeafTree();
    case CDataKind =>
      next := ParseCDataAt(node, s, p);
      node.LeafTree();
    case UnknownKind =>
      next := ParseUnknownAt(node, s, p);
      node.LeafTree();
    case ElementKind =>
      next := ParseElementAt(node, s, p, condense, document);
  }

  /** A parse that gives `r` has built `tree`, stopped at `next` and left the document with the error `after`. */
  ghost predicate ParsedTo(s: string, r: Parsed, tree: Node, next: Option<nat>, before: Error, after: Error) {
    tree == r.node && PointsAt(s, next, r.rest) && after == FirstError(before, r.error)
  }

  lemma IdentifyFacts(r: string)
    requires r != "" && r[0] == '<'
    ensures Identify(r) == CommentKind ==> COMMENT_HEADER <= r
    ensures Identify(r) == CDataKind ==> CDATA_HEADER <= r
  {
  }

  /** `TiXmlElement::Parse`. */
  method ParseElementAt(node: DomNode, s: string, p: nat, condense: bool, document: TiXmlDocument) returns (next: Option<nat>)
    requires p <= |s| && New(node) && node.attrs == [] && node.value == ""
    modifies node, document`errorId
    ensures fresh(node.repr - {node}) && node.Standalone()
    ensures ParsedTo(s, ParseElement(s[p..], condense), node.Tree(), next, old(document.errorId), document.errorId)
    ensures next.Some? ==> p < next.value
    decreases |s| - p, 3
  {
    hide Ok, DomNode.Valid, DomNode.Standalone, DomNode.Trees, DomNode.Tree;
    hide ParseNode, ParseElement, ParseTag, ParseValue, ParseAttribute, ParseEndTag, ParseText, ReadName, SkipWhite, HasAttr;
    NewTree(node);
    next := None;
    ElementUnfold(s[p..], condense);
    var start := Skip(s, Some(p));
    if start.None? || start.value == |s| || s[start.value] != '<' {
      document.SetError(ParsingElement);
      return;
    }
    assert s[start.value..][1..] == s[start.value + 1..];
    var q := SkipWhiteFrom(s, start.value + 1);
    var name, after := ReadNameAt(s, q);
    node.value := name;
    NewTree(node);
    if after.None? || after.value == |s| {
      document.SetError(FailedToReadElementName);
      return;
    }
    next := ParseTagAt(node, s, after.value, condense, document);
  }

  /** An element without children that no tree holds. */
  ghost predicate New(node: DomNode)
    reads node, node.repr
  {
    node.Standalone() && node.kind == ElementType && node.kids == [] && node.repr == {node}
  }

  lemma NewTree(node: DomNode)
    requires New(node)
    ensures node.Standalone() && node.kind == ElementType && node.repr == {node}
    ensures node.Tree() == Element(node.value, node.attrs, []) && node.Trees(0) == []
  {
    node.ElementTree();
    node.NoTrees();
  }

  lemma ElementUnfold(r: string, condense: bool)
    ensures var p := SkipWhiteSpace(Some(r));
            ParseElement(r, condense) ==
              if !Readable(p) || p.value[0] != '<' then Parsed(Element("", [], []), None, ParsingElement)
              else
                var n := ReadName(SkipWhite(p.value[1..]));
                if !Readable(n.rest) then Parsed(Element(n.name, [], []), None, FailedToReadElementName)
                else ParseTag(n.name, [], n.rest.value, condense)
  {
    hide SkipWhiteSpace;
    hide SkipWhite;
    hide ReadName;
    hide ParseTag;
  }

  /** The attribute loop of `TiXmlElement::Parse` and what follows the start tag. */
  method ParseTagAt(node: DomNode, s: string, p: nat, condense: bool, document: TiXmlDocument) returns (next: Option<nat>)
    requires p < |s| && New(node)
    modifies node`attrs, node`firstChild, node`lastChild, node`kids, node`repr, document`errorId
    ensures fresh(node.repr - {node}) && node.Standalone()
    ensures ParsedTo(s, ParseTag(node.value, old(node.attrs), s[p..], condense), node.Tree(), next, old(document.errorId), document.errorId)
    ensures next.Some? ==> p < next.value
    decreases |s| - p, 2
  {
    hide Ok, DomNode.Valid, DomNode.Standalone, DomNode.Trees, DomNode.Tree;
    hide ParseNode, ParseElement, ParseTag, ParseValue, ParseAttribute, ParseEndTag, ParseText, ReadName, SkipWhite, HasAttr, Content;
    var q := p;
    next := None;
    while true
      invariant p <= q < |s| && New(node) && document.errorId == old(document.errorId)
      invariant ParseTag(node.value, node.attrs, s[q..], condense) == ParseTag(node.value, old(node.attrs), s[p..], condense)
      decreases |s| - q
    {
      NewTree(node);
      TagUnfold(node.value, node.attrs, s[q..], condense);
      var start := Skip(s, Some(q));
      if start.None? || start.value == |s| {
        document.SetError(ReadingAttributes);
        return;
      }
      q := start.value;
      if s[q] == '/' {
        if q + 1 == |s| || s[q + 1] != '>' {
          document.SetError(ParsingEmpty);
          return;
        }
        return Some(q + 2);
      } else if s[q] == '>' {
        next := ParseContentAt(node, s, q + 1, condense, document);
        return;
      }
      var attr, after := ParseAttributeAt(s, q, document);
      AttributeRead(s[q..]);
      if after.None? || after.value == |s| {
        document.SetError(ParsingElement);
        return;
      }
      if HasAttr(node.attrs, attr.name) {
        document.SetError(ParsingElement);
        return;
      }
      node.attrs := node.attrs + [attr];
      q := after.value;
    }
  }

  /** What follows the `>` of a start tag: the value and the end tag. */
  method ParseContentAt(node: DomNode, s: string, p: nat, condense: bool, document: TiXmlDocument) returns (next: Option<nat>)
    requires p <= |s| && New(node)
    modifies node`firstChild, node`lastChild, node`kids, node`repr, document`errorId
    ensures fresh(node.repr - {node}) && node.Standalone()
    ensures ParsedTo(s, Content(node.value, node.attrs, s[p..], condense), node.Tree(), next, old(document.errorId), document.errorId)
    ensures next.Some? ==> p <= next.value
    decreases |s| - p, 8
  {
    hide Ok, DomNode.Valid, DomNode.Standalone, DomNode.Trees, DomNode.Tree;
    hide ParseValue, ParseEndTag;
    var value := ReadValueAt(node, s, p, condense, document);
    node.ElementTree();
    next := ParseEndTagAt(node.value, s, value);
    if next.None? {
      document.SetError(ReadingEndTag);
    }
  }

  /** An element with a value and an end tag. */
  function Content(name: string, attrs: seq<Attr>, r: string, condense: bool): Parsed {
    var v := ParseValue(Some(r), condense);
    var end := ParseEndTag(name, v.rest);
    Parsed(Element(name, attrs, v.kids), end, FirstError(v.error, if end.None? then ReadingEndTag else NoError))
  }

  /** The end tag of `name`. */
  method ParseEndTagAt(name: string, s: string, p: Option<nat>) returns (next: Option<nat>)
    requires p.Some? ==> p.value <= |s|
    ensures next.Some? ==> p.Some? && p.value < next.value <= |s|
    ensures At(s, next) == ParseEndTag(name, At(s, p))
  {
    next := None;
    var endTag := "</" + name;
    if p.None? || p.value == |s| || !(endTag <= s[p.value..]) {
      return;
    }
    assert s[p.value..][|endTag|..] == s[p.value + |endTag|..];
    var q := Skip(s, Some(p.value + |endTag|));
    if q.Some? && q.value < |s| && s[q.value] == '>' {
      next := Some(q.value + 1);
    }
  }

  lemma AttributeRead(r: string)
    ensures ParseAttribute(r).rest.Some? ==> ParseAttribute(r).error == NoError
  {
    hide SkipWhiteSpace;
    hide ReadName;
    hide ReadText;
  }

  lemma TagUnfold(name: string, attrs: seq<Attr>, r: string, condense: bool)
    ensures var p := SkipWhiteSpace(Some(r));
            ParseTag(name, attrs, r, condense) ==
              if !Readable(p) then Parsed(Element(name, attrs, []), None, ReadingAttributes)
              else if p.value[0] == '/' then
                if p.value[1..] != "" && p.value[1] == '>' then Parsed(Element(name, attrs, []), Some(p.value[2..]), NoError)
                else Parsed(Element(name, attrs, []), None, ParsingEmpty)
              else if p.value[0] == '>' then Content(name, attrs, p.value[1..], condense)
              else
                var a := ParseAttribute(p.value);
                if !Readable(a.rest) then Parsed(Element(name, attrs, []), None, FirstError(a.error, ParsingElement))
                else if HasAttr(attrs, a.attr.name) then Parsed(Element(name, attrs, []), None, ParsingElement)
                else ParseTag(name, attrs + [a.attr], a.rest.value, condense)
  {
    hide SkipWhiteSpace;
    hide ParseAttribute;
    hide ParseEndTag;
    hide ParseValue;
    hide HasAttr;
  }

  /** `TiXmlElement::ReadValue`. */
  method ReadValueAt(node: DomNode, s: string, p: nat, condense: bool, document: TiXmlDocument) returns (next: Option<nat>)
    requires p <= |s| && New(node)
    modifies node`firstChild, node`lastChild, node`kids, node`repr, document`errorId
    ensures fresh(node.repr - {node}) && node.Standalone()
    ensures ReadTo(s, ParseValue(Some(s[p..]), condense), node.Trees(0), next, old(document.errorId), document.errorId)
    ensures next.Some? ==> p <= next.value
    decreases |s| - p, 7
  {
    hide Ok, DomNode.Valid, DomNode.Standalone, DomNode.Trees, DomNode.Tree;
    hide ParseNode, ParseElement, ParseTag, ParseValue, ParseAttribute, ParseEndTag, ParseText, ReadName, SkipWhite, HasAttr;
    NewTree(node);
    ghost var whole := ParseValue(Some(s[p..]), condense);
    var from: Option<nat> := Some(p);
    next := Skip(s, from);
    while next.Some? && next.value < |s|
      invariant from.Some? ==> p <= from.value <= |s|
      invariant next.Some? ==> from.Some? && from.value <= next.value <= |s|
      invariant At(s, next) == SkipWhiteSpace(At(s, from))
      invariant fresh(node.repr - {node}) && node.Standalone()
      invariant Leads(node.Trees(0), document.errorId, ParseValue(At(s, from), condense), old(document.errorId), whole)
      decreases if from.Some? then |s| - from.value + 1 else 0
    {
      if "</" <= s[next.value..] {
        break;
      }
      from := ReadOne(node, s, from.value, next.value, condense, document, old(document.errorId), whole);
      next := Skip(s, from);
    }
    LeadsStop(node.Trees(0), document.errorId, At(s, from), condense, old(document.errorId), whole);
    if next.None? {
      document.SetError(ReadingElementValue);
    }
  }

  /** One round of its loop: a text or a node, at `next` after the white space from `from` on. */
  method ReadOne(node: DomNode, s: string, from: nat, next: nat, condense: bool, document: TiXmlDocument,
                 ghost before: Error, ghost whole: ParsedKids) returns (after: Option<nat>)
    requires from <= next < |s| && SkipWhiteSpace(Some(s[from..])) == Some(s[next..]) && !("</" <= s[next..])
    requires node.Standalone()
    requires Leads(node.Trees(0), document.errorId, ParseValue(Some(s[from..]), condense), before, whole)
    modifies node`firstChild, node`lastChild, node`kids, (node.repr - {node})`next, node.repr`repr, document`errorId
    ensures fresh(node.repr - old(node.repr)) && node.Standalone()
    ensures after.Some? ==> from < after.value <= |s|
    ensures Leads(node.Trees(0), document.errorId, ParseValue(At(s, after), condense), before, whole)
    decreases |s| - next, 6
  {
    hide Ok, DomNode.Valid, DomNode.Standalone, DomNode.Trees, DomNode.Tree;
    hide ParseNode, ParseElement, ParseTag, ParseValue, ParseAttribute, ParseEndTag, ParseText, ReadName, SkipWhite, HasAttr, Leads;
    ghost var r, trees, error := s[from..], node.Trees(0), document.errorId;
    StartsAt(s, from, next);
    if s[next] != '<' {
      after := AddText(node, s, if condense then next else from, condense);
      LeadsText(trees, error, r, condense, before, whole);
    } else {
      after := AddNode(node, s, next, condense, document);
      LeadsNode(trees, error, r, condense, before, whole);
    }
  }

  /** The text branch of `ReadValue`: a blank text is dropped. */
  method AddText(node: DomNode, s: string, p: nat, condense: bool) returns (next: Option<nat>)
    requires p < |s| && s[p] != '<' && SkipWhite(s[p..]) != "" && SkipWhite(s[p..])[0] != '<'
    requires node.Standalone()
    modifies node`firstChild, node`lastChild, node`kids, (node.repr - {node})`next, node.repr`repr
    ensures fresh(node.repr - old(node.repr)) && node.Standalone()
    ensures var t := ParseText(s[p..], condense);
            node.Trees(0) == old(node.Trees(0)) + (if Blank(t.node) then [] else [t.node]) && PointsAt(s, next, t.rest)
    ensures next.Some? ==> p < next.value
  {
    hide *;
    ghost var trees := node.Trees(0);
    var text := new DomNode(TextType, "");
    next := ParseTextAt(text, s, p, condense);
    text.LeafTree();
    BlankUnfold(text.Tree());
    var blank := IsBlank(text.value);
    assert node.Trees(0) == trees;
    if !blank {
      node.AppendFresh(text);
    } else {
      assert trees + [] == trees;
    }
  }

  lemma BlankUnfold(n: Node)
    requires n.Text?
    ensures Blank(n) <==> AllWhite(n.value)
  {
  }

  /** `TiXmlText::Blank`. */
  method IsBlank(value: string) returns (b: bool)
    ensures b <==> AllWhite(value)
  {
    for i := 0 to |value|
      invariant forall j :: 0 <= j < i ==> IsWhite(value[j])
    {
      if !IsWhite(value[i]) {
        return false;
      }
    }
    return true;
  }

  /** The node branch of `ReadValue`. */
  method AddNode(node: DomNode, s: string, p: nat, condense: bool, document: TiXmlDocument) returns (next: Option<nat>)
    requires p < |s| && s[p] == '<' && node.Standalone()
    modifies node`firstChild, node`lastChild, node`kids, (node.repr - {node})`next, node.repr`repr, document`errorId
    ensures fresh(node.repr - old(node.repr)) && node.Standalone()
    ensures var n := ParseNode(s[p..], condense);
            && node.Trees(0) == old(node.Trees(0)) + [n.node] && PointsAt(s, next, n.rest)
            && document.errorId == FirstError(old(document.errorId), n.error)
    ensures next.Some? ==> p < next.value
    decreases |s| - p, 5
  {
    hide Ok, DomNode.Valid, DomNode.Standalone, DomNode.Trees, DomNode.Tree;
    hide ParseNode, ParseElement, ParseTag, ParseValue, ParseAttribute, ParseEndTag, ParseText, ReadName, SkipWhite, HasAttr;
    ghost var trees := node.Trees(0);
    var child;
    child, next := ParseNodeAt(s, p, condense, document);
    assert node.Trees(0) == trees;
    ghost var tree := child.Tree();
    node.AppendFresh(child);
    ParsedToUnfold(s, ParseNode(s[p..], condense), tree, next, old(document.errorId), document.errorId);
  }

  lemma ParsedToUnfold(s: string, r: Parsed, tree: Node, next: Option<nat>, before: Error, after: Error)
    requires ParsedTo(s, r, tree, next, before, after)
    ensures tree == r.node && PointsAt(s, next, r.rest) && after == FirstError(before, r.error)
  {
  }

  lemma StartsAt(s: string, from: nat, next: nat)
    requires from <= next < |s| && SkipWhiteSpace(Some(s[from..])) == Some(s[next..])
    ensures SkipWhite(s[from..]) == s[next..] && SkipWhite(s[next..]) == s[next..]
    ensures s[next] != '<' ==> s[from] != '<'
  {
  }

  /** What a text in front gives to `ReadValue`: itself unless it is blank. */
  function TextKids(r: string, condense: bool): seq<Node>
    requires r != "" && SkipWhite(r) != "" && SkipWhite(r)[0] != '<' && r[0] != '<'
  {
    var t := ParseText(if condense then SkipWhite(r) else r, condense);
    if Blank(t.node) then [] else [t.node]
  }

  lemma ValueOfText(r: string, condense: bool)
    requires r != "" && SkipWhite(r) != "" && SkipWhite(r)[0] != '<' && r[0] != '<'
    ensures var v := ParseValue(ParseText(if condense then SkipWhite(r) else r, condense).rest, condense);
            ParseValue(Some(r), condense) == ParsedKids(TextKids(r, condense) + v.kids, v.rest, v.error)
  {
    hide ParseText, Blank, SkipWhite;
  }

  lemma LeadsText(trees: seq<Node>, error: Error, r: string, condense: bool, before: Error, whole: ParsedKids)
    requires Leads(trees, error, ParseValue(Some(r), condense), before, whole)
    requires r != "" && SkipWhite(r) != "" && SkipWhite(r)[0] != '<' && r[0] != '<'
    ensures var q := SkipWhite(r);
            var t := ParseText(if condense then q else r, condense);
            Leads(trees + (if Blank(t.node) then [] else [t.node]), error, ParseValue(t.rest, condense), before, whole)
  {
    var v := ParseValue(ParseText(if condense then SkipWhite(r) else r, condense).rest, condense);
    ValueOfText(r, condense);
    LeadsOn(trees, TextKids(r, condense), error, v, before, whole);
    hide ParseText, Blank, SkipWhite, ParseValue, Leads;
  }

  lemma LeadsOn(trees: seq<Node>, kids: seq<Node>, error: Error, v: ParsedKids, before: Error, whole: ParsedKids)
    ensures Leads(trees, error, ParsedKids(kids + v.kids, v.rest, v.error), before, whole)
       <==> Leads(trees + kids, error, v, before, whole)
  {
    assert trees + (kids + v.kids) == (trees + kids) + v.kids;
  }

  lemma LeadsNode(trees: seq<Node>, error: Error, r: string, condense: bool, before: Error, whole: ParsedKids)
    requires Leads(trees, error, ParseValue(Some(r), condense), before, whole)
    requires r != "" && SkipWhite(r) != "" && SkipWhite(r)[0] == '<' && !("</" <= SkipWhite(r))
    ensures var n := ParseNode(SkipWhite(r), condense);
            Leads(trees + [n.node], FirstError(error, n.error), ParseValue(n.rest, condense), before, whole)
  {
    hide ParseNode;
    hide SkipWhite;
  }

  lemma LeadsStop(trees: seq<Node>, error: Error, p: Ptr, condense: bool, before: Error, whole: ParsedKids)
    requires Leads(trees, error, ParseValue(p, condense), before, whole)
    requires var q := SkipWhiteSpace(p); q.None? || q.value == "" || "</" <= q.value
    ensures var q := SkipWhiteSpace(p);
            && whole.kids == trees && whole.rest == q
            && FirstError(before, whole.error) == FirstError(error, if q.None? then ReadingElementValue else NoError)
  {
    hide SkipWhiteSpace;
  }

  /** A parse that gives `r` has built `trees`, stopped at `next` and left the document with the error `after`. */
  ghost predicate ReadTo(s: string, r: ParsedKids, trees: seq<Node>, next: Option<nat>, before: Error, after: Error) {
    trees == r.kids && PointsAt(s, next, r.rest) && after == FirstError(before, r.error)
  }

  /** What has been read, followed by `v`, is `whole`. */
  ghost predicate Leads(trees: seq<Node>, error: Error, v: ParsedKids, before: Error, whole: ParsedKids) {
    trees + v.kids == whole.kids && v.rest == whole.rest && FirstError(error, v.error) == FirstError(before, whole.error)
  }

  // ----- documents

  /** `TiXmlDocument::Parse`: the nodes read are linked behind those the document already has. */
  method ParseDocumentAt(document: TiXmlDocument, s: string, condense: bool) returns (next: Option<nat>)
    requires document.node.Standalone() && document.node.kind == DocumentType
    modifies document`errorId, document.node`firstChild, document.node`lastChild, document.node`kids
    modifies (document.node.repr - {document.node})`next, document.node.repr`repr
    ensures fresh(document.node.repr - old(document.node.repr)) && document.node.Standalone()
    ensures document.node.Trees(0) == old(document.node.Trees(0)) + ParseDocument(s, condense).kids
    ensures old(document.node.kids) == [] ==>
              ReadTo(s, ParseDocument(s, condense), document.node.Trees(0), next, NoError, document.errorId)
    ensures old(document.node.kids) != [] ==>
              ReadTo(s, ParseMore(s, condense), ParseMore(s, condense).kids, next, NoError, document.errorId)
  {
    hide Ok, DomNode.Valid, DomNode.Standalone, DomNode.Trees, DomNode.Tree;
    hide ParseNode, ParseNodes, SkipWhite;
    document.errorId := NoError;
    ghost var trees := document.node.Trees(0);
    ChildFacts(document.node);
    DocumentUnfold(s, condense);
    assert s[0..] == s;
    next := Skip(s, Some(0));
    if next.None? {
      document.SetError(DocumentEmpty);
      assert trees + [] == trees;
      return;
    }
    ghost var whole := ParseNodes(At(s, next), condense);
    assert [] + whole.kids == whole.kids;
    ghost var read: seq<Node> := [];
    assert trees + read == trees;
    while next.Some? && next.value < |s|
      invariant next.Some? ==> next.value <= |s|
      invariant fresh(document.node.repr - old(document.node.repr)) && document.node.Standalone()
      invariant document.node.Trees(0) == trees + read
      invariant Leads(read, document.errorId, ParseNodes(At(s, next), condense), NoError, whole)
      decreases if next.Some? then |s| - next.value + 1 else 0
    {
      ghost var r, error := At(s, next), document.errorId;
      if s[next.value] != '<' {
        break;
      }
      var after := AddNode(document.node, s, next.value, condense, document);
      NodesStep(read, error, r.value, condense, whole);
      assert trees + read + [ParseNode(r.value, condense).node] == trees + (read + [ParseNode(r.value, condense).node]);
      read := read + [ParseNode(r.value, condense).node];
      next := Skip(s, after);
    }
    NodesStop(read, document.errorId, At(s, next), condense, whole);
    assert trees == [] ==> trees + read == read;
    ChildFacts(document.node);
    if document.node.firstChild == null {
      document.SetError(DocumentEmpty);
      next := None;
    }
  }

  lemma ChildFacts(node: DomNode)
    requires node.Standalone()
    ensures node.firstChild == null <==> node.Trees(0) == []
    ensures node.kids == [] <==> node.Trees(0) == []
  {
    assert node.Nested() && node.Linked();
  }

  lemma DocumentUnfold(r: string, condense: bool)
    ensures var p := SkipWhiteSpace(Some(r));
            var v := ParseNodes(p, condense);
            ParseDocument(r, condense) ==
              if p.None? then ParsedKids([], None, DocumentEmpty)
              else if v.kids == [] then ParsedKids([], None, FirstError(v.error, DocumentEmpty))
              else v
  {
    hide SkipWhiteSpace;
    hide ParseNodes;
  }

  /** What parsing into a document that already has children gives: it is not empty whatever is read. */
  function ParseMore(r: string, condense: bool): ParsedKids {
    var p := SkipWhiteSpace(Some(r));
    if p.None? then ParsedKids([], None, DocumentEmpty) else ParseNodes(p, condense)
  }

  lemma NodesStep(read: seq<Node>, error: Error, r: string, condense: bool, whole: ParsedKids)
    requires Leads(read, error, ParseNodes(Some(r), condense), NoError, whole)
    requires r != "" && r[0] == '<'
    ensures var n := ParseNode(r, condense);
            Leads(read + [n.node], FirstError(error, n.error), ParseNodes(SkipWhiteSpace(n.rest), condense), NoError, whole)
  {
    hide ParseNode;
    hide SkipWhiteSpace;
  }

  lemma NodesStop(read: seq<Node>, error: Error, p: Ptr, condense: bool, whole: ParsedKids)
    requires Leads(read, error, ParseNodes(p, condense), NoError, whole)
    requires !Readable(p) || p.value[0] != '<'
    ensures whole == ParsedKids(read, p, error)
  {
  }
}
