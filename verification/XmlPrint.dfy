/** The text `TiXmlPrinter` makes of a tree. Names and the values of leaves are appended as `const char*`, up to
    their first terminator; plain text and attribute values go through `EncodeString` in full. */
module XmlPrint {
  import opened XmlChars
  import opened XmlText
  import opened XmlTree

  /** The printer's settings. */
  datatype Layout = Layout(indent: string, lineBreak: string)

  function Repeat(s: string, n: nat): string {
    if n == 0 then "" else s + Repeat(s, n - 1)
  }

  /** The text of `DoIndent` at a depth. */
  function Indent(l: Layout, depth: nat): string {
    Repeat(l.indent, depth)
  }

  /** `TiXmlAttribute::Print`: single quotes when `find` sees a double one in the value, which it searches up to its
      first terminator. */
  function Quote(value: string): (q: string)
    ensures q == "'" || q == "\""
  {
    if '"' in CString(value) then "'" else "\""
  }

  /** Single quotes exactly when a double one stands in the value with no terminator in front of it. */
  lemma {:induction false} QuoteIff(value: string)
    ensures Quote(value) == "'" <==> exists i :: 0 <= i < |value| && value[i] == '"' && NUL !in value[..i]
  {
    var c := CString(value);
    assert forall i :: 0 <= i < |c| ==> c[i] == value[i];
    assert forall i :: 0 <= i <= |c| ==> value[..i] == c[..i];
    if '"' in c {
      var i :| 0 <= i < |c| && c[i] == '"';
      assert NUL !in value[..i];
    }
    if i :| 0 <= i < |value| && value[i] == '"' && NUL !in value[..i] {
      CutReaches(value, i);
      assert c[i] == '"';
    }
  }

  lemma {:induction false} CutReaches(value: string, i: nat)
    requires i < |value| && value[i] != NUL && NUL !in value[..i]
    ensures i < |CString(value)|
  {
    if i > 0 {
      assert value[..i] == [value[0]] + value[1..][..i - 1];
      CutReaches(value[1..], i - 1);
    }
  }

  function PrintAttr(a: Attr): string {
    var quote := Quote(a.value);
    Encode(a.name) + "=" + quote + Encode(a.value) + quote
  }

  function PrintAttrs(attrs: seq<Attr>): string {
    if attrs == [] then "" else " " + PrintAttr(attrs[0]) + PrintAttrs(attrs[1..])
  }

  /** An element whose only child is plain text prints on one line. */
  predicate IsSimple(n: Node) {
    n.Element? && |n.kids| == 1 && n.kids[0].Text? && !n.kids[0].cdata
  }

  /** The start of an element's text, up to its attributes. */
  function StartTag(n: Node): string
    requires n.Element?
  {
    "<" + CString(n.name) + PrintAttrs(Walk(n.attrs))
  }

  /** A node at a depth, without the indentation in front and the line break behind. */
  function PrintCore(n: Node, depth: nat, l: Layout): string
    decreases n, 1
  {
    match n
    case Text(value, cdata) => if cdata then "<![CDATA[" + CString(value) + "]]>" else Encode(value)
    case Comment(value) => "<!--" + CString(value) + "-->"
    case Unknown(value) => "<" + CString(value) + ">"
    case Element(name, attrs, kids) =>
      if kids == [] then StartTag(n) + " />"
      else StartTag(n) + ">" + PrintContent(n, depth, l) + "</" + CString(name) + ">"
  }

  /** What stands between the tags of an element with children. */
  function PrintContent(n: Node, depth: nat, l: Layout): string
    requires n.Element? && n.kids != []
    decreases n, 0
  {
    if IsSimple(n) then Encode(n.kids[0].value)
    else l.lineBreak + PrintKids(n.kids, depth + 1, l) + Indent(l, depth)
  }

  function PrintNode(n: Node, depth: nat, l: Layout): string
    decreases n, 2
  {
    Indent(l, depth) + PrintCore(n, depth, l) + l.lineBreak
  }

  function PrintKids(kids: seq<Node>, depth: nat, l: Layout): string
    decreases kids
  {
    if kids == [] then ""
    else PrintNode(kids[0], depth, l) + PrintKids(kids[1..], depth, l)
  }

  /** The text of a document with these top-level nodes. */
  function PrintDocument(nodes: seq<Node>, l: Layout): string {
    PrintKids(nodes, 0, l)
  }
}
