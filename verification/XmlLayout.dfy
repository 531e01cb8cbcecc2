/** The printed text line by line: what stands on which line, and how far it is indented. */
module XmlLayout {
  import opened XmlChars
  import opened XmlText
  import opened XmlTree
  import opened XmlPrint

  /** A line opens an element, closes one, or is whole. */
  datatype Kind = Opens | Closes | Whole

  datatype Line = Line(kind: Kind, depth: nat, text: string)

  /** An element with children that are not just one plain text takes a line for each of its tags; anything else takes
      one line. */
  function NodeLines(n: Node, depth: nat): seq<Line>
    decreases n, 1
  {
    match n
    case Element(name, attrs, kids) =>
      var start, end := "<" + CString(name) + PrintAttrs(Walk(attrs)), "</" + CString(name) + ">";
      if kids == [] then [Line(Whole, depth, start + " />")]
      else if |kids| == 1 && kids[0].Text? && !kids[0].cdata then
        [Line(Whole, depth, start + ">" + Encode(kids[0].value) + end)]
      else [Line(Opens, depth, start + ">")] + KidsLines(kids, depth + 1) + [Line(Closes, depth, end)]
    case Text(value, true) => [Line(Whole, depth, "<![CDATA[" + CString(value) + "]]>")]
    case Text(value, false) => [Line(Whole, depth, Encode(value))]
    case Comment(value) => [Line(Whole, depth, "<!--" + CString(value) + "-->")]
    case Unknown(value) => [Line(Whole, depth, "<" + CString(value) + ">")]
  }

  function KidsLines(kids: seq<Node>, depth: nat): seq<Line>
    decreases kids
  {
    if kids == [] then [] else NodeLines(kids[0], depth) + KidsLines(kids[1..], depth)
  }

  /** Every line behind as many indents as its depth, and with its line break. */
  function Laid(lines: seq<Line>, l: Layout): string {
    if lines == [] then ""
    else Repeat(l.indent, lines[0].depth) + lines[0].text + l.lineBreak + Laid(lines[1..], l)
  }

  lemma {:induction false} LaidJoin(a: seq<Line>, b: seq<Line>, l: Layout)
    ensures Laid(a + b, l) == Laid(a, l) + Laid(b, l)
  {
    if a == [] {
      assert a + b == b;
    } else {
      assert (a + b)[1..] == a[1..] + b;
      LaidJoin(a[1..], b, l);
      hide Repeat;
      ConcatAssoc(Repeat(l.indent, a[0].depth) + a[0].text + l.lineBreak, Laid(a[1..], l), Laid(b, l));
    }
  }

  lemma LaidOne(k: Kind, depth: nat, text: string, l: Layout)
    ensures Laid([Line(k, depth, text)], l) == Repeat(l.indent, depth) + text + l.lineBreak
  {
    hide Repeat;
    var s := Repeat(l.indent, depth) + text + l.lineBreak;
    assert s + "" == s;
  }

  /** A node prints as its lines. */
  lemma {:induction false} PrintsLines(n: Node, depth: nat, l: Layout)
    ensures PrintNode(n, depth, l) == Laid(NodeLines(n, depth), l)
    decreases n, 1
  {
    match n
    case Element(name, attrs, kids) =>
      if kids != [] && !IsSimple(n) {
        KidsPrintLines(kids, depth + 1, l);
        OpenElement(n, depth, l);
      } else {
        OneLineElement(n, depth, l);
      }
    case Text(value, cdata) =>
      LaidOne(Whole, depth, if cdata then "<![CDATA[" + CString(value) + "]]>" else Encode(value), l);
    case Comment(value) => LaidOne(Whole, depth, "<!--" + CString(value) + "-->", l);
    case Unknown(value) => LaidOne(Whole, depth, "<" + CString(value) + ">", l);
  }

  lemma OneLineElement(n: Node, depth: nat, l: Layout)
    requires n.Element? && (n.kids == [] || IsSimple(n))
    ensures PrintNode(n, depth, l) == Laid(NodeLines(n, depth), l)
  {
    var start, e := "<" + CString(n.name) + PrintAttrs(Walk(n.attrs)), CString(n.name);
    var text := if n.kids == [] then start + " />" else start + ">" + Encode(n.kids[0].value) + ("</" + e + ">");
    assert NodeLines(n, depth) == [Line(Whole, depth, text)];
    assert PrintCore(n, depth, l) == text by {
      if n.kids != [] {
        var v := Encode(n.kids[0].value);
        assert PrintCore(n, depth, l) == start + ">" + v + "</" + e + ">";
        hide *;
        ConcatAssoc(start + ">" + v, "</", e + ">");
        ConcatAssoc(start + ">" + v + "</", e, ">");
        ConcatAssoc("</", e, ">");
      }
    }
    hide PrintCore, NodeLines, PrintAttrs, Walk, Encode, Repeat, CString;
    LaidOne(Whole, depth, text, l);
  }

  lemma OpenElement(n: Node, depth: nat, l: Layout)
    requires n.Element? && n.kids != [] && !IsSimple(n)
    requires PrintKids(n.kids, depth + 1, l) == Laid(KidsLines(n.kids, depth + 1), l)
    ensures PrintNode(n, depth, l) == Laid(NodeLines(n, depth), l)
  {
    var start, e := "<" + CString(n.name) + PrintAttrs(Walk(n.attrs)), CString(n.name);
    var i, b, k, ks := Indent(l, depth), l.lineBreak, PrintKids(n.kids, depth + 1, l), KidsLines(n.kids, depth + 1);
    var first, last := [Line(Opens, depth, start + ">")], [Line(Closes, depth, "</" + e + ">")];
    assert NodeLines(n, depth) == first + ks + last;
    assert PrintContent(n, depth, l) == b + k + i;
    assert PrintCore(n, depth, l) == start + ">" + (b + k + i) + "</" + e + ">";
    assert PrintNode(n, depth, l) == i + (start + ">" + (b + k + i) + "</" + e + ">") + b;
    assert i == Repeat(l.indent, depth);
    hide *;
    LaidJoin(first + ks, last, l);
    LaidJoin(first, ks, l);
    LaidOne(Opens, depth, start + ">", l);
    LaidOne(Closes, depth, "</" + e + ">", l);
    Pieces(i, start + ">", b, k, e);
  }

  lemma Pieces(i: string, s: string, b: string, k: string, e: string)
    ensures i + (s + (b + k + i) + "</" + e + ">") + b == (i + s + b) + k + (i + ("</" + e + ">") + b)
  {
    var t := "</" + e + ">";
    assert s + (b + k + i) + "</" + e + ">" == s + (b + k + i) + t;
    assert i + (s + (b + k + i) + t) + b == (i + s + b) + k + (i + t + b);
  }

  lemma {:induction false} KidsPrintLines(kids: seq<Node>, depth: nat, l: Layout)
    ensures PrintKids(kids, depth, l) == Laid(KidsLines(kids, depth), l)
    decreases kids, 0
  {
    if kids != [] {
      PrintsLines(kids[0], depth, l);
      KidsPrintLines(kids[1..], depth, l);
      hide PrintNode, NodeLines, Laid;
      LaidJoin(NodeLines(kids[0], depth), KidsLines(kids[1..], depth), l);
    }
  }

  // ----- how far a line is indented

  /** The lines of a kind among the first `i`. */
  function Count(lines: seq<Line>, i: nat, k: Kind): (c: nat)
    requires i <= |lines|
    ensures c <= i
  {
    if i == 0 then 0 else Count(lines, i - 1, k) + if lines[i - 1].kind == k then 1 else 0
  }

  lemma {:induction false} CountJoin(a: seq<Line>, b: seq<Line>, i: nat, k: Kind)
    requires i <= |a + b|
    ensures Count(a + b, i, k) == if i <= |a| then Count(a, i, k) else Count(a, |a|, k) + Count(b, i - |a|, k)
    decreases i
  {
    if i > 0 {
      CountJoin(a, b, i - 1, k);
      assert (a + b)[i - 1] == if i <= |a| then a[i - 1] else b[i - 1 - |a|];
    }
  }

  /** From `depth` on every line is indented by the elements open in front of it, a closing one like the one it closes;
      at the end all are closed. */
  predicate Indented(lines: seq<Line>, depth: nat) {
    && Count(lines, |lines|, Opens) == Count(lines, |lines|, Closes)
    && forall i :: 0 <= i < |lines| ==> IndentedAt(lines, depth, i)
  }

  predicate IndentedAt(lines: seq<Line>, depth: nat, i: nat)
    requires i < |lines|
  {
    lines[i].depth + Count(lines, i, Closes) + (if lines[i].kind == Closes then 1 else 0) == depth + Count(lines, i, Opens)
  }

  lemma IndentedJoin(a: seq<Line>, b: seq<Line>, depth: nat)
    requires Indented(a, depth) && Indented(b, depth)
    ensures Indented(a + b, depth)
  {
    var all := a + b;
    CountJoin(a, b, |all|, Opens);
    CountJoin(a, b, |all|, Closes);
    forall i | 0 <= i < |all| ensures IndentedAt(all, depth, i) {
      JoinAt(a, b, depth, i);
    }
    hide Count, IndentedAt;
  }

  lemma JoinAt(a: seq<Line>, b: seq<Line>, depth: nat, i: nat)
    requires Indented(a, depth) && Indented(b, depth) && i < |a + b|
    ensures IndentedAt(a + b, depth, i)
  {
    CountJoin(a, b, i, Opens);
    CountJoin(a, b, i, Closes);
    assert i == |a| ==> Count(b, 0, Opens) == 0 && Count(b, 0, Closes) == 0;
    hide Count;
    if i < |a| {
      assert (a + b)[i] == a[i] && IndentedAt(a, depth, i);
    } else {
      assert (a + b)[i] == b[i - |a|] && IndentedAt(b, depth, i - |a|);
    }
  }

  lemma IndentedWrap(ks: seq<Line>, depth: nat, s: string, t: string)
    requires Indented(ks, depth + 1)
    ensures Indented([Line(Opens, depth, s)] + ks + [Line(Closes, depth, t)], depth)
  {
    var first, last := [Line(Opens, depth, s)], [Line(Closes, depth, t)];
    var all := first + ks + last;
    WrapCounts(first, ks, last, |all|, Opens);
    WrapCounts(first, ks, last, |all|, Closes);
    forall i | 0 <= i < |all| ensures IndentedAt(all, depth, i) {
      WrapAt(first, ks, last, depth, i);
    }
    hide Count, IndentedAt;
  }

  lemma WrapAt(first: seq<Line>, ks: seq<Line>, last: seq<Line>, depth: nat, i: nat)
    requires Indented(ks, depth + 1) && |first| == |last| == 1 && i < |ks| + 2
    requires first[0].kind == Opens && last[0].kind == Closes && first[0].depth == last[0].depth == depth
    ensures IndentedAt(first + ks + last, depth, i)
  {
    WrapCounts(first, ks, last, i, Opens);
    WrapCounts(first, ks, last, i, Closes);
    hide Count;
    if i == 0 {
      assert (first + ks + last)[0] == first[0];
    } else if i <= |ks| {
      assert (first + ks + last)[i] == ks[i - 1] && IndentedAt(ks, depth + 1, i - 1);
    } else {
      assert (first + ks + last)[i] == last[0];
    }
  }

  lemma WrapCounts(first: seq<Line>, ks: seq<Line>, last: seq<Line>, i: nat, k: Kind)
    requires |first| == |last| == 1 && i <= |ks| + 2
    ensures var f, e := if first[0].kind == k then 1 else 0, if last[0].kind == k then 1 else 0;
            Count(first + ks + last, i, k) ==
              if i == 0 then 0 else if i <= |ks| + 1 then f + Count(ks, i - 1, k) else f + Count(ks, |ks|, k) + e
  {
    CountJoin(first + ks, last, i, k);
    CountJoin(first, ks, if i <= |ks| + 1 then i else |ks| + 1, k);
    assert Count(first, 1, k) == Count(first, 0, k) + if first[0].kind == k then 1 else 0;
    assert Count(last, 1, k) == Count(last, 0, k) + if last[0].kind == k then 1 else 0;
    assert i > 0 ==> Count(ks, 0, k) == 0;
  }

  lemma IndentedOne(depth: nat, text: string)
    ensures Indented([Line(Whole, depth, text)], depth)
  {
    var lines := [Line(Whole, depth, text)];
    assert Count(lines, 1, Opens) == Count(lines, 0, Opens) && Count(lines, 1, Closes) == Count(lines, 0, Closes);
  }

  /** The lines of a printed node are indented by the elements open around them. */
  lemma {:induction false} NodeIndented(n: Node, depth: nat)
    ensures Indented(NodeLines(n, depth), depth)
    decreases n, 1
  {
    hide Indented;
    match n
    case Element(name, attrs, kids) =>
      var start, end := "<" + CString(name) + PrintAttrs(Walk(attrs)), "</" + CString(name) + ">";
      if kids == [] || IsSimple(n) {
        IndentedOne(depth, NodeLines(n, depth)[0].text);
      } else {
        KidsIndented(kids, depth + 1);
        IndentedWrap(KidsLines(kids, depth + 1), depth, start + ">", end);
      }
    case Text(_, _) => IndentedOne(depth, NodeLines(n, depth)[0].text);
    case Comment(_) => IndentedOne(depth, NodeLines(n, depth)[0].text);
    case Unknown(_) => IndentedOne(depth, NodeLines(n, depth)[0].text);
  }

  lemma {:induction false} KidsIndented(kids: seq<Node>, depth: nat)
    ensures Indented(KidsLines(kids, depth), depth)
    decreases kids, 0
  {
    hide NodeLines;
    if kids != [] {
      NodeIndented(kids[0], depth);
      KidsIndented(kids[1..], depth);
      hide Indented;
      IndentedJoin(NodeLines(kids[0], depth), KidsLines(kids[1..], depth), depth);
    }
  }

  /** A document prints as its lines, every one indented by the elements open around it. */
  lemma DocumentLines(nodes: seq<Node>, l: Layout)
    ensures PrintDocument(nodes, l) == Laid(KidsLines(nodes, 0), l) && Indented(KidsLines(nodes, 0), 0)
  {
    KidsPrintLines(nodes, 0, l);
    KidsIndented(nodes, 0);
  }

  /** Repeating gives that many copies, one behind the other. */
  lemma {:induction false} RepeatAt(s: string, n: nat, i: nat)
    requires i < n
    ensures |Repeat(s, n)| == n * |s| && (i + 1) * |s| <= n * |s| && Repeat(s, n)[i * |s|..(i + 1) * |s|] == s
  {
    RepeatLength(s, n);
    RepeatLength(s, n - 1);
    var t := Repeat(s, n - 1);
    assert Repeat(s, n) == s + t;
    if i == 0 {
      assert (s + t)[0..|s|] == s;
    } else {
      RepeatAt(s, n - 1, i - 1);
      Times(i, |s|);
      Times(i + 1, |s|);
      Times(n, |s|);
      assert (s + t)[|s| + (i - 1) * |s|..|s| + i * |s|] == t[(i - 1) * |s|..i * |s|];
    }
  }

  lemma Times(i: nat, k: nat)
    requires i > 0
    ensures i * k == k + (i - 1) * k
  {
  }

  lemma {:induction false} RepeatLength(s: string, n: nat)
    ensures |Repeat(s, n)| == n * |s|
  {
    if n > 0 {
      RepeatLength(s, n - 1);
      Times(n, |s|);
    }
  }
}
