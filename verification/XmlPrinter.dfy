/** `TiXmlPrinter`: the visitor that walks the nodes of a document and appends to
    a buffer, proved against the text of the tree the nodes stand for. */
module XmlPrinter {
  import opened XmlChars
  import opened XmlText
  import opened XmlTree
  import opened XmlPrint
  import opened Dom

  lemma {:induction false} PrintAttrsSnoc(s: seq<Attr>, a: Attr)
    ensures PrintAttrs(s + [a]) == PrintAttrs(s) + (" " + PrintAttr(a))
  {
    hide PrintAttr;
    if s == [] {
      assert [] + [a] == [a] && [a][1..] == [];
    } else {
      assert (s + [a])[1..] == s[1..] + [a];
      PrintAttrsSnoc(s[1..], a);
    }
  }

  lemma {:induction false} PrintKidsSnoc(s: seq<Node>, n: Node, depth: nat, l: Layout)
    ensures PrintKids(s + [n], depth, l) == PrintKids(s, depth, l) + PrintNode(n, depth, l)
  {
    hide PrintNode;
    if s == [] {
      assert [] + [n] == [n] && [n][1..] == [];
    } else {
      assert (s + [n])[1..] == s[1..] + [n];
      PrintKidsSnoc(s[1..], n, depth, l);
    }
  }

  lemma {:induction false} RepeatSnoc(s: string, n: nat)
    ensures Repeat(s, n) + s == Repeat(s, n + 1)
  {
    if n > 0 {
      RepeatSnoc(s, n - 1);
      assert (s + Repeat(s, n - 1)) + s == s + (Repeat(s, n - 1) + s);
    }
  }

  /** `find`: whether `c` occurs in front of the first terminator. */
  method Occurs(s: string, c: char) returns (b: bool)
    requires c != NUL
    ensures b <==> c in CString(s)
  {
    var t := CString(s);
    var i := 0;
    while i < |s| && s[i] != NUL
      invariant 0 <= i <= |t|
      invariant c !in s[..i]
    {
      if s[i] == c {
        assert t[i] == c;
        return true;
      }
      i := i + 1;
    }
    assert t == s[..i];
    return false;
  }

  class TiXmlPrinter {
    var depth: int
    var simpleTextPrint: bool
    var buffer: string
    var indent: string
    var lineBreak: string

    constructor ()
      ensures depth == 0 && !simpleTextPrint && buffer == ""
      ensures indent == "    " && lineBreak == "\n"
    {
      depth, simpleTextPrint, buffer, indent, lineBreak := 0, false, "", "    ", "\n";
    }

    function Settings(): (l: Layout)
      reads this`indent, this`lineBreak
      ensures l.indent == indent && l.lineBreak == lineBreak
    {
      Layout(indent, lineBreak)
    }

    method DoIndent()
      requires depth >= 0
      modifies this`buffer
      ensures buffer == old(buffer) + Indent(Settings(), depth)
    {
      var i := 0;
      assert buffer == old(buffer) + "";
      while i < depth
        invariant 0 <= i <= depth
        invariant buffer == old(buffer) + Repeat(indent, i)
      {
        RepeatSnoc(indent, i);
        assert old(buffer) + Repeat(indent, i) + indent == old(buffer) + (Repeat(indent, i) + indent);
        buffer := buffer + indent;
        i := i + 1;
      }
    }

    method DoLineBreak()
      modifies this`buffer
      ensures buffer == old(buffer) + lineBreak
    {
      buffer := buffer + lineBreak;
    }

    /** `TiXmlAttribute::Print` into the buffer. */
    method PrintAttribute(a: Attr)
      modifies this`buffer
      ensures buffer == old(buffer) + PrintAttr(a)
    {
      var n := EncodeString(a.name);
      var v := EncodeString(a.value);
      var quoted := Occurs(a.value, '"');
      var q := if quoted then "'" else "\"";
      assert q == Quote(a.value);
      assert PrintAttr(a) == n + "=" + q + v + q;
      hide *;
      AppendFive(buffer, n, "=", q, v, q);
      buffer := buffer + n;
      buffer := buffer + "=";
      buffer := buffer + q;
      buffer := buffer + v;
      buffer := buffer + q;
    }

    static lemma AppendFour(b: string, p: string, q: string, r: string, s: string)
      ensures b + p + q + r + s == b + (p + q + r + s)
    {
      ConcatAssoc(b, p, q);
      ConcatAssoc(b, p + q, r);
      ConcatAssoc(b, p + q + r, s);
    }

    static lemma AppendFive(b: string, p: string, q: string, r: string, s: string, t: string)
      ensures b + p + q + r + s + t == b + (p + q + r + s + t)
    {
      ConcatAssoc(b, p, q);
      ConcatAssoc(b, p + q, r);
      ConcatAssoc(b, p + q + r, s);
      ConcatAssoc(b, p + q + r + s, t);
    }

    /** The attribute loop of `VisitEnter`. */
    method PrintAttributes(attrs: seq<Attr>)
      modifies this`buffer
      ensures buffer == old(buffer) + PrintAttrs(Walk(attrs))
    {
      hide *;
      var i := 0;
      PrintNone();
      WalkPrefix(attrs, 0);
      assert attrs[..0] == [] && buffer == buffer + "";
      while i < |attrs| && (i == 0 || attrs[i] != Attr("", ""))
        invariant 0 <= i <= |Walk(attrs)| && i <= |attrs|
        invariant buffer == old(buffer) + PrintAttrs(attrs[..i])
      {
        WalkPrefix(attrs, i);
        buffer := buffer + " ";
        PrintAttribute(attrs[i]);
        assert attrs[..i + 1] == attrs[..i] + [attrs[i]];
        PrintAttrsSnoc(attrs[..i], attrs[i]);
        assert old(buffer) + PrintAttrs(attrs[..i]) + " " + PrintAttr(attrs[i])
            == old(buffer) + (PrintAttrs(attrs[..i]) + (" " + PrintAttr(attrs[i])));
        i := i + 1;
      }
      WalkPrefix(attrs, i);
      assert Walk(attrs) == attrs[..i];
    }

    lemma PrintNone()
      ensures PrintAttrs([]) == ""
    {
    }

    // ----- the visits

    /** Plain text that is an only child, for which `VisitEnter` sets `simpleTextPrint`. */
    method IsSimpleElement(element: DomNode) returns (b: bool)
      requires element.Valid() && element.kind == ElementType
      ensures b <==> IsSimple(element.Tree())
    {
      SimpleFacts(element);
      b := element.firstChild != null && element.firstChild.kind == TextType
        && element.lastChild == element.firstChild && !element.firstChild.cdata;
    }

    static lemma SimpleFacts(element: DomNode)
      requires element.Valid() && element.kind == ElementType
      ensures element.firstChild == (if element.kids == [] then null else element.kids[0])
      ensures IsSimple(element.Tree()) <==>
              element.firstChild != null && element.firstChild.kind == TextType
              && element.lastChild == element.firstChild && !element.firstChild.cdata
    {
      assert element.Nested() && element.Linked();
      if element.kids != [] {
        assert element.TreeFacts(0);
      }
    }

    /** The start tag of `VisitEnter`, up to its attributes. */
    method OpenTag(element: DomNode)
      requires element.Valid() && element.kind == ElementType && depth >= 0
      modifies this`buffer
      ensures buffer == old(buffer) + (Indent(Settings(), depth) + "<" + CString(element.value) + PrintAttrs(Walk(element.attrs)))
    {
      hide *;
      ghost var b, i, a := buffer, Indent(Settings(), depth), PrintAttrs(Walk(element.attrs));
      AppendFour(b, i, "<", CString(element.value), a);
      DoIndent();
      buffer := buffer + "<";
      buffer := buffer + CString(element.value);
      PrintAttributes(element.attrs);
    }

    /** `VisitEnter` of an element. */
    method VisitEnter(element: DomNode)
      requires element.Valid() && element.kind == ElementType && depth >= 0 && !simpleTextPrint
      modifies this`buffer, this`depth, this`simpleTextPrint
      ensures depth == old(depth) + 1 && element.Tree().Element?
      ensures simpleTextPrint == IsSimple(element.Tree())
      ensures buffer == old(buffer) + EnterText(element.Tree(), old(depth), Settings())
    {
      hide *;
      EnterFacts(element);
      ghost var b, t := buffer, element.Tree();
      EnterUnfold(t, depth, Settings());
      var simple := IsSimpleElement(element);
      OpenTag(element);
      ghost var s := Indent(Settings(), depth) + "<" + CString(element.value) + PrintAttrs(Walk(element.attrs));
      if element.firstChild == null {
        ConcatAssoc(b, s, " />");
        ConcatAssoc(b, s + " />", lineBreak);
        buffer := buffer + " />";
        DoLineBreak();
      } else {
        ConcatAssoc(b, s, ">");
        buffer := buffer + ">";
        if simple {
          simpleTextPrint := true;
        } else {
          ConcatAssoc(b, s + ">", lineBreak);
          DoLineBreak();
        }
      }
      depth := depth + 1;
    }

    static lemma EnterFacts(element: DomNode)
      requires element.Valid() && element.kind == ElementType
      ensures var t := element.Tree();
              && t.Element? && t.name == element.value && t.attrs == element.attrs
              && (t.kids == [] <==> element.firstChild == null)
              && (IsSimple(t) ==> element.firstChild != null)
    {
      SimpleFacts(element);
      element.ElementTree();
    }

    /** `VisitExit` of an element. */
    method VisitExit(element: DomNode)
      requires element.Valid() && element.kind == ElementType && depth >= 1 && simpleTextPrint == IsSimple(element.Tree())
      modifies this`buffer, this`depth, this`simpleTextPrint
      ensures depth == old(depth) - 1 && !simpleTextPrint
      ensures buffer == old(buffer) + ExitText(element.Tree(), depth, Settings())
    {
      hide *;
      ghost var b := buffer;
      EnterFacts(element);
      depth := depth - 1;
      ExitUnfold(element.Tree(), depth, Settings());
      if element.firstChild == null {
        assert b + "" == b;
      } else {
        ghost var i := if simpleTextPrint then "" else Indent(Settings(), depth);
        if simpleTextPrint {
          simpleTextPrint := false;
          assert b + "" == b;
        } else {
          DoIndent();
        }
        AppendFive(b, i, "</", CString(element.value), ">", lineBreak);
        buffer := buffer + "</";
        buffer := buffer + CString(element.value);
        buffer := buffer + ">";
        DoLineBreak();
      }
    }

    /** `Visit` of a leaf: a text, a comment or an unknown tag. */
    method Visit(leaf: DomNode)
      requires leaf.Valid() && leaf.kind != ElementType && leaf.kind != DocumentType && depth >= 0
      requires simpleTextPrint ==> leaf.kind == TextType && !leaf.cdata
      modifies this`buffer
      ensures buffer == old(buffer) +
                if simpleTextPrint then Encode(leaf.value) else PrintNode(leaf.Tree(), depth, Settings())
    {
      if simpleTextPrint {
        var str := EncodeString(leaf.value);
        buffer := buffer + str;
        return;
      }
      ghost var b, i, l := buffer, Indent(Settings(), depth), lineBreak;
      leaf.LeafTree();
      var core := Core(leaf);
      hide *;
      DoIndent();
      buffer := buffer + core;
      DoLineBreak();
      ConcatAssoc(b, i, core);
      ConcatAssoc(b, i + core, l);
      NodeText(leaf.Tree(), depth, Settings());
    }

    /** The text a leaf adds between its indentation and its line break. */
    method Core(leaf: DomNode) returns (core: string)
      requires leaf.Valid() && leaf.kind != ElementType && leaf.kind != DocumentType
      ensures forall d: nat, l: Layout :: core == PrintCore(leaf.Tree(), d, l)
    {
      leaf.LeafTree();
      if leaf.kind == CommentType {
        core := "<!--" + CString(leaf.value) + "-->";
      } else if leaf.kind == UnknownType {
        core := "<" + CString(leaf.value) + ">";
      } else if leaf.cdata {
        core := "<![CDATA[" + CString(leaf.value) + "]]>";
      } else {
        core := EncodeString(leaf.value);
      }
    }

    /** What visiting the first `k` children of an element has appended. */
    ghost function KidsText(t: Node, k: nat, depth: nat): string
      requires t.Element? && k <= |t.kids|
      reads this`indent, this`lineBreak
    {
      if IsSimple(t) then (if k == 0 then "" else Encode(t.kids[0].value)) else PrintKids(t.kids[..k], depth, Settings())
    }

    /** `Accept`: visits the node and all below it, and leaves `depth` and `simpleTextPrint` as they were. */
    method Accept(node: DomNode)
      requires node.Valid() && node.kind != DocumentType && depth >= 0
      requires simpleTextPrint ==> node.kind == TextType && !node.cdata
      modifies this`buffer, this`depth, this`simpleTextPrint
      ensures depth == old(depth) && simpleTextPrint == old(simpleTextPrint)
      ensures buffer == old(buffer) +
                if simpleTextPrint then Encode(node.value) else PrintNode(node.Tree(), depth, Settings())
      decreases node.repr, 2
    {
      hide *;
      if node.kind != ElementType {
        Visit(node);
        return;
      }
      ghost var b, d, t := buffer, depth, node.Tree();
      VisitEnter(node);
      ghost var enter, kids := EnterText(t, d, Settings()), KidsText(t, |t.kids|, d + 1);
      AcceptKids(node);
      ConcatAssoc(b, enter, kids);
      VisitExit(node);
      ConcatAssoc(b, enter + kids, ExitText(t, d, Settings()));
      WholeText(t, d);
    }

    /** The loop of `Accept` over the children of an element. */
    method AcceptKids(node: DomNode)
      requires node.Valid() && node.kind == ElementType && depth >= 1 && node.Tree().Element?
      requires simpleTextPrint == IsSimple(node.Tree())
      modifies this`buffer, this`depth, this`simpleTextPrint
      ensures depth == old(depth) && simpleTextPrint == old(simpleTextPrint)
      ensures buffer == old(buffer) + KidsText(node.Tree(), |node.Tree().kids|, depth)
      decreases node.repr, 1
    {
      hide *;
      ghost var b, d, t := buffer, depth, node.Tree();
      ghost var k: nat := 0;
      node.ElementTree();
      var child := node.FirstKid();
      NoKidsText(t, d);
      assert b + "" == b;
      while child != null
        invariant k <= |node.kids| && child == (if k < |node.kids| then node.kids[k] else null)
        invariant depth == d && simpleTextPrint == IsSimple(t)
        invariant buffer == b + KidsText(t, k, d)
        decreases |node.kids| - k
      {
        AcceptKid(node, child, k);
        KidsTextNext(t, k, d);
        ConcatAssoc(b, KidsText(t, k, d), KidText(t, k, d, Settings()));
        child := node.NextKid(child, k);
        k := k + 1;
      }
    }

    /** One round of it. */
    method AcceptKid(node: DomNode, child: DomNode, ghost k: nat)
      requires node.Valid() && node.kind == ElementType && depth >= 1 && node.Tree().Element?
      requires k < |node.kids| == |node.Tree().kids| && child == node.kids[k]
      requires simpleTextPrint == IsSimple(node.Tree())
      modifies this`buffer, this`depth, this`simpleTextPrint
      ensures depth == old(depth) && simpleTextPrint == old(simpleTextPrint)
      ensures buffer == old(buffer) + KidText(node.Tree(), k, depth, Settings())
      decreases node.repr, 0
    {
      hide *;
      KidFits(node, k);
      ghost var t := node.Tree();
      Accept(child);
      KidTextUnfold(t, k, depth, Settings());
    }

    lemma NoKidsText(t: Node, depth: nat)
      requires t.Element?
      ensures KidsText(t, 0, depth) == ""
    {
    }

    lemma KidsTextNext(t: Node, k: nat, depth: nat)
      requires t.Element? && k < |t.kids|
      ensures KidsText(t, k + 1, depth) == KidsText(t, k, depth) + KidText(t, k, depth, Settings())
    {
      hide PrintNode;
      hide PrintKids;
      if !IsSimple(t) {
        assert t.kids[..k + 1] == t.kids[..k] + [t.kids[k]];
        PrintKidsSnoc(t.kids[..k], t.kids[k], depth, Settings());
      }
    }

    /** A child can be visited in the mode its element has set. */
    lemma KidFits(node: DomNode, k: nat)
      requires node.Valid() && node.kind == ElementType && k < |node.kids|
      ensures |node.Tree().kids| == |node.kids|
      ensures var c := node.kids[k]; c.Valid() && c.kind != DocumentType && c.repr < node.repr
      ensures node.kids[k].Valid() && node.Tree().kids[k] == node.kids[k].Tree()
      ensures IsSimple(node.Tree()) ==> node.kids[k].kind == TextType && !node.kids[k].cdata && node.Tree().kids[0].value == node.kids[k].value
    {
      assert node.TreeFacts(k);
      node.ValidKid(k);
    }

    lemma WholeText(t: Node, d: nat)
      requires t.Element?
      ensures EnterText(t, d, Settings()) + KidsText(t, |t.kids|, d + 1) + ExitText(t, d, Settings()) == PrintNode(t, d, Settings())
    {
      var l := Settings();
      var i, s, b, k := Indent(l, d), StartTag(t), l.lineBreak, KidsText(t, |t.kids|, d + 1);
      var b', i' := if IsSimple(t) then "" else b, if IsSimple(t) then "" else i;
      PiecesOf(t, d);
      hide *;
      if t.kids == [] {
        ConcatAssoc(i, s, " />");
        ConcatAssoc(i + s, " />", b);
        assert EnterText(t, d, l) + "" + "" == EnterText(t, d, l);
      } else {
        ElementText(i, s, b, b', i', k, CString(t.name));
      }
    }

    lemma PiecesOf(t: Node, d: nat)
      requires t.Element?
      ensures var l := Settings();
              var i, s, b, k := Indent(l, d), StartTag(t), l.lineBreak, KidsText(t, |t.kids|, d + 1);
              var b', i' := if IsSimple(t) then "" else b, if IsSimple(t) then "" else i;
              && EnterText(t, d, l) == i + s + (if t.kids == [] then " />" + b else ">" + b')
              && (t.kids == [] ==> k == "" && ExitText(t, d, l) == "" && PrintNode(t, d, l) == i + (s + " />") + b)
              && (t.kids != [] ==>
                    && ExitText(t, d, l) == i' + "</" + CString(t.name) + ">" + b
                    && PrintNode(t, d, l) == i + (s + ">" + (b' + k + i') + "</" + CString(t.name) + ">") + b)
    {
      var l := Settings();
      var k := KidsText(t, |t.kids|, d + 1);
      assert t.kids[..|t.kids|] == t.kids;
      assert "" + k + "" == k && ">" + "" == ">";
      hide StartTag;
      hide Indent;
      hide PrintKids;
      hide PrintNode;
      NodeText(t, d, l);
    }

    /** The pieces an element with children is printed from. */
    static lemma ElementText(i: string, s: string, b: string, b': string, i': string, k: string, name: string)
      ensures (i + s + (">" + b')) + k + (i' + "</" + name + ">" + b)
           == i + (s + ">" + (b' + k + i') + "</" + name + ">") + b
    {
      var e := "</" + name + ">";
      assert i' + "</" + name + ">" + b == i' + (e + b);
      assert s + ">" + (b' + k + i') + "</" + name + ">" == s + ">" + b' + k + i' + e;
      assert (i + s + (">" + b')) + k + (i' + (e + b)) == i + (s + ">" + b' + k + i' + e) + b;
    }

    /** `Accept` of a document. */
    method AcceptDocument(doc: DomNode)
      requires doc.Valid() && doc.kind == DocumentType && depth == 0 && !simpleTextPrint
      modifies this`buffer, this`depth, this`simpleTextPrint
      ensures depth == 0 && !simpleTextPrint
      ensures buffer == old(buffer) + PrintDocument(doc.Trees(0), Settings())
    {
      hide *;
      ghost var b, t := buffer, doc.Trees(0);
      ghost var k: nat := 0;
      var child := doc.FirstKid();
      NoDocumentText(Settings());
      assert t[..0] == [] && buffer == b + "";
      while child != null
        invariant k <= |doc.kids| && child == (if k < |doc.kids| then doc.kids[k] else null)
        invariant depth == 0 && !simpleTextPrint
        invariant buffer == b + PrintKids(t[..k], 0, Settings())
        decreases |doc.kids| - k
      {
        assert doc.TreeFacts(k);
        Accept(child);
        assert t[..k + 1] == t[..k] + [t[k]];
        PrintKidsSnoc(t[..k], t[k], 0, Settings());
        ConcatAssoc(b, PrintKids(t[..k], 0, Settings()), PrintNode(t[k], 0, Settings()));
        child := doc.NextKid(child, k);
        k := k + 1;
      }
      assert t[..k] == t;
      DocumentText(t, Settings());
    }
  }

  lemma NoDocumentText(l: Layout)
    ensures PrintKids([], 0, l) == ""
  {
  }

  lemma DocumentText(t: seq<Node>, l: Layout)
    ensures PrintDocument(t, l) == PrintKids(t, 0, l)
  {
  }

  /** What visiting the `k`-th child appends. */
  function KidText(t: Node, k: nat, depth: nat, l: Layout): string
    requires t.Element? && k < |t.kids|
  {
    if IsSimple(t) then Encode(t.kids[0].value) else PrintNode(t.kids[k], depth, l)
  }

  lemma KidTextUnfold(t: Node, k: nat, depth: nat, l: Layout)
    requires t.Element? && k < |t.kids|
    ensures KidText(t, k, depth, l) == if IsSimple(t) then Encode(t.kids[0].value) else PrintNode(t.kids[k], depth, l)
    ensures IsSimple(t) ==> t.kids[0].Text?
  {
  }

  lemma EnterUnfold(n: Node, depth: nat, l: Layout)
    requires n.Element?
    ensures var s := Indent(l, depth) + "<" + CString(n.name) + PrintAttrs(Walk(n.attrs));
            EnterText(n, depth, l) ==
              if n.kids == [] then s + " />" + l.lineBreak else if IsSimple(n) then s + ">" else s + ">" + l.lineBreak
  {
    var i, a := Indent(l, depth), PrintAttrs(Walk(n.attrs));
    var tail := if n.kids == [] then " />" + l.lineBreak else if IsSimple(n) then ">" else ">" + l.lineBreak;
    var e := CString(n.name);
    assert EnterText(n, depth, l) == i + ("<" + e + a) + tail;
    var s := i + "<" + e + a;
    assert i + ("<" + e + a) == s by {
      ConcatAssoc(i, "<", e);
      ConcatAssoc(i, "<" + e, a);
    }
    ConcatAssoc(s, " />", l.lineBreak);
    ConcatAssoc(s, ">", l.lineBreak);
  }

  lemma ExitUnfold(n: Node, depth: nat, l: Layout)
    requires n.Element?
    ensures ExitText(n, depth, l) ==
              if n.kids == [] then "" else (if IsSimple(n) then "" else Indent(l, depth)) + "</" + CString(n.name) + ">" + l.lineBreak
    ensures IsSimple(n) ==> n.kids != []
  {
  }

  lemma NodeText(n: Node, depth: nat, l: Layout)
    ensures PrintNode(n, depth, l) == Indent(l, depth) + PrintCore(n, depth, l) + l.lineBreak
  {
  }

  /** What `VisitEnter` appends. */
  function EnterText(n: Node, depth: nat, l: Layout): string
    requires n.Element?
  {
    Indent(l, depth) + StartTag(n) +
      if n.kids == [] then " />" + l.lineBreak else if IsSimple(n) then ">" else ">" + l.lineBreak
  }

  /** What `VisitExit` appends. */
  function ExitText(n: Node, depth: nat, l: Layout): string
    requires n.Element?
  {
    if n.kids == [] then ""
    else (if IsSimple(n) then "" else Indent(l, depth)) + "</" + CString(n.name) + ">" + l.lineBreak
  }
}
