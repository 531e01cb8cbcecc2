/** Printing a copy: when the text of a copied tree is that of its original. */
module XmlCopy {
  import opened XmlChars
  import opened XmlText
  import opened XmlTree
  import opened XmlPrint

  /** No plain text of the tree, and no attribute value that a walk reaches, holds a terminator. */
  predicate PrintsWhole(n: Node) {
    match n
    case Element(_, attrs, kids) => PlainValues(Walk(attrs)) && AllPrintWhole(kids)
    case Text(value, cdata) => cdata || NUL !in value
    case Comment(_) => true
    case Unknown(_) => true
  }

  predicate AllPrintWhole(kids: seq<Node>) {
    forall k :: k in kids ==> PrintsWhole(k)
  }

  // ----- texts that part

  /** The two texts differ at a place that both have, so whatever follows them they stay different. */
  ghost predicate Parts(x: string, y: string) {
    exists i :: 0 <= i < |x| && i < |y| && x[i] != y[i]
  }

  lemma PartsAt(x: string, y: string, i: nat)
    requires i < |x| && i < |y| && x[i] != y[i]
    ensures Parts(x, y)
  {
  }

  lemma PartsBehind(a: string, x: string, y: string)
    requires Parts(x, y)
    ensures Parts(a + x, a + y)
  {
    var i :| 0 <= i < |x| && i < |y| && x[i] != y[i];
    PartsAt(a + x, a + y, |a| + i);
  }

  lemma PartsFollowed(x: string, y: string, b: string, c: string)
    requires Parts(x, y)
    ensures Parts(x + b, y + c) && x + b != y + c
  {
    var i :| 0 <= i < |x| && i < |y| && x[i] != y[i];
    assert (x + b)[i] == x[i] && (y + c)[i] == y[i];
    PartsAt(x + b, y + c, i);
  }

  /** A text whose first character is one that a printed value can be followed by. */
  predicate Stops(d: string) {
    d != "" && d[0] != '&' && d[0] != NUL
  }

  lemma CutNext(v: string)
    requires v != "" && v[0] != NUL
    ensures CString(v) == [v[0]] + CString(v[1..])
    ensures "&#x" <= v <==> "&#x" <= CString(v)
    ensures NUL in v ==> NUL in v[1..]
  {
    var c := CString(v);
    assert forall i :: 0 <= i < |c| ==> c[i] == v[i];
    if "&#x" <= v {
      assert v[0] == '&' && v[1] == '#' && v[2] == 'x';
      assert |c| >= 3;
    }
  }

  /** A cut value, encoded and followed by its delimiter, parts from the encoding of the whole one. */
  lemma {:induction false} CutValueParts(v: string, d: string, e: string)
    requires NUL in v && Stops(d)
    ensures Parts(Encode(CString(v)) + d, Encode(v) + e)
    decreases |v|
  {
    hide EncodeChar;
    hide PassLength;
    hide IndexOf;
    var c := CString(v);
    if v[0] == NUL {
      NulStarts(v, e);
      assert Encode(c) + d == d;
      PartsAt(d, Encode(v) + e, 0);
    } else {
      CutNext(v);
      hide Encode;
      if !("&#x" <= v) {
        var a, x, y := EncodeChar(v[0]), Encode(CString(v[1..])), Encode(v[1..]);
        CutValueParts(v[1..], d, e);
        PartsBehind(a, x + d, y + e);
        EncodeNext(v);
        EncodeNext(c);
        assert c[1..] == CString(v[1..]);
        ConcatAssoc(a, x, d);
        ConcatAssoc(a, y, e);
      } else if IndexOf(v, ';') < |c| {
        ClosedPart(v, d, e);
      } else {
        OpenPart(v, d, e);
      }
    }
  }

  lemma NulStarts(v: string, e: string)
    requires v != "" && v[0] == NUL
    ensures var y := Encode(v) + e; y != "" && y[0] == '&'
  {
  }

  lemma EncodeNext(s: string)
    requires s != "" && !("&#x" <= s)
    ensures Encode(s) == EncodeChar(s[0]) + Encode(s[1..])
  {
  }

  lemma ClosedPart(v: string, d: string, e: string)
    requires NUL in v && Stops(d) && "&#x" <= v && "&#x" <= CString(v) && IndexOf(v, ';') < |CString(v)|
    ensures Parts(Encode(CString(v)) + d, Encode(v) + e)
    decreases |v|, 0
  {
    var c, k := CString(v), IndexOf(v, ';');
    SameIndex(c, v, ';');
    EncodeClosedReference(v, k);
    EncodeClosedReference(c, k);
    CutBehind(v, k + 1);
    CutValueParts(v[k + 1..], d, e);
    var a, x, y := v[..k + 1], Encode(CString(v[k + 1..])), Encode(v[k + 1..]);
    hide *;
    PrefixUpTo(c, v, k + 1);
    PartsBehind(a, x + d, y + e);
    ConcatAssoc(a, x, d);
    ConcatAssoc(a, y, e);
  }

  lemma PrefixUpTo(c: string, v: string, k: nat)
    requires c <= v && k <= |c|
    ensures c[..k] == v[..k]
  {
  }

  lemma SameIndex(c: string, v: string, x: char)
    requires c <= v && IndexOf(v, x) < |c|
    ensures IndexOf(c, x) == IndexOf(v, x)
  {
    assert forall i :: 0 <= i < |c| ==> c[i] == v[i];
    assert c[IndexOf(v, x)] == x;
  }

  lemma CutBehind(v: string, k: nat)
    requires k <= |CString(v)|
    ensures CString(v)[k..] == CString(v[k..]) && (NUL in v ==> NUL in v[k..])
  {
    hide *;
    if k == 0 {
      assert v[0..] == v && CString(v)[0..] == CString(v);
    } else {
      CutStart(v);
      CutNext(v);
      CutBehind(v[1..], k - 1);
      assert v[1..][k - 1..] == v[k..];
      assert ([v[0]] + CString(v[1..]))[k..] == CString(v[1..])[k - 1..];
    }
  }

  lemma CutStart(v: string)
    requires CString(v) != ""
    ensures v != "" && v[0] != NUL
  {
  }

  /** A reference that is open up to the terminator. */
  lemma OpenPart(v: string, d: string, e: string)
    requires NUL in v && Stops(d) && "&#x" <= v && "&#x" <= CString(v) && IndexOf(v, ';') >= |CString(v)|
    ensures Parts(Encode(CString(v)) + d, Encode(v) + e)
  {
    var c := CString(v);
    var last := c[|c| - 1];
    CutOpen(v);
    OpenEncoded(c);
    OpenWhole(v);
    EncodedStart(last);
    StopsUnfold(d);
    hide *;
    LastParts(c, EncodeChar(last), d, Encode(v), e);
  }

  lemma LastParts(c: string, last: string, d: string, y: string, e: string)
    requires c != "" && d != "" && d[0] != '&' && d[0] != NUL
    requires last == [c[|c| - 1]] || (|last| > 1 && last[0] == '&' && (c[|c| - 1] == '&' ==> last[1] == 'a'))
    requires c[|c| - 1] == '&' ==> |last| > 1
    requires |y| > |c| && y[..|c|] == c && (y[|c|] == NUL || y[|c|] == '&')
    ensures Parts(c[..|c| - 1] + last + d, y + e)
  {
    var m, x, z := |c| - 1, c[..|c| - 1] + last + d, y + e;
    assert z[m] == y[..|c|][m] && z[m + 1] == y[m + 1];
    assert x[m] == last[0];
    if last[0] != c[m] {
      PartsAt(x, z, m);
    } else {
      assert x[m + 1] == if |last| > 1 then last[1] else d[0];
      PartsAt(x, z, m + 1);
    }
  }

  lemma StopsUnfold(d: string)
    requires Stops(d)
    ensures d != "" && d[0] != '&' && d[0] != NUL
  {
  }

  lemma EncodedStart(c: char)
    ensures var e := EncodeChar(c);
            && (e == [c] || (|e| > 1 && e[0] == '&' && (c == '&' ==> e[1] == 'a')))
            && (c == '&' ==> |e| > 1)
  {
  }

  lemma CutOpen(v: string)
    requires NUL in v && IndexOf(v, ';') >= |CString(v)|
    ensures |CString(v)| < |v| && v[|CString(v)|] == NUL
    ensures IndexOf(CString(v), ';') == |CString(v)|
    ensures |CString(v)| < IndexOf(v, ';')
  {
    var c := CString(v);
    assert forall i :: 0 <= i < |c| ==> c[i] == v[i] && v[i] != ';';
  }

  lemma OpenEncoded(c: string)
    requires "&#x" <= c && IndexOf(c, ';') == |c|
    ensures Encode(c) == c[..|c| - 1] + EncodeChar(c[|c| - 1])
    ensures EncodeChar(c[|c| - 1]) != ""
  {
    hide EncodeChar;
    var k := |c| - 1;
    EncodeReference(c);
    var t := c[k..];
    assert t == [c[k]] && t[1..] == "" && !("&#x" <= t);
    assert Encode(t) == EncodeChar(c[k]) + "";
  }

  lemma OpenWhole(v: string)
    requires "&#x" <= v && |CString(v)| < |v| && v[|CString(v)|] == NUL && |CString(v)| < IndexOf(v, ';')
    ensures var c, y := CString(v), Encode(v); |y| > |c| && y[..|c|] == c && (y[|c|] == NUL || y[|c|] == '&')
  {
    var c := CString(v);
    var k := PassLength(v);
    EncodeReference(v);
    hide IndexOf;
    assert v[..k] + Encode(v[k..]) == Encode(v);
    assert |c| <= k;
    if |c| == k {
      assert v[k..][0] == NUL;
      NulStarts(v[k..], "");
      assert Encode(v[k..]) + "" == Encode(v[k..]);
    }
  }

  // ----- attributes

  lemma CutTwice(s: string)
    ensures CString(CString(s)) == CString(s)
  {
  }

  /** An attribute whose value is cut prints up to the closing quote of the cut value, and there the texts part. */
  lemma CutAttrParts(a: Attr, d: string, e: string)
    requires NUL !in a.name && NUL in a.value
    ensures Parts(PrintAttr(Cut(a)) + d, PrintAttr(a) + e)
  {
    var n, q, c, v := Encode(a.name) + "=" + Quote(a.value), Quote(a.value), Encode(CString(a.value)), Encode(a.value);
    AttrForm(a);
    AttrForm(Cut(a));
    assert Quote(Cut(a).value) == q && Cut(a).name == a.name by {
      CutTwice(a.value);
    }
    CutValueParts(a.value, q + d, q + e);
    assert PrintAttr(Cut(a)) == n + c + q;
    hide *;
    PartsBehind(n, c + (q + d), v + (q + e));
    ConcatFour(n, c, q, d);
    ConcatFour(n, v, q, e);
  }

  lemma AttrForm(a: Attr)
    ensures PrintAttr(a) == Encode(a.name) + "=" + Quote(a.value) + Encode(a.value) + Quote(a.value)
  {
  }

  lemma ConcatFour(a: string, b: string, c: string, d: string)
    ensures a + (b + (c + d)) == a + b + c + d
  {
  }

  /** What can stand behind the attributes of a start tag. */
  predicate EndsStartTag(y: string) {
    " />" <= y || ">" <= y
  }

  lemma EmptyAttrParts(a: Attr, y: string, z: string)
    requires a.name == "" && EndsStartTag(y)
    ensures Parts(y, " " + PrintAttr(a) + z)
  {
    var r := " " + PrintAttr(a) + z;
    assert r[0] == ' ' && r[1] == '=';
    if ">" <= y {
      PartsAt(y, r, 0);
    } else {
      PartsAt(y, r, 1);
    }
  }

  /** What a copy prints behind the first attribute of `w`. */
  function CopiedRest(w: seq<Attr>): string
    requires w != []
  {
    if |w| == 1 || Cut(w[1]) == Attr("", "") then "" else PrintAttrs(Walk(CutAll(w[1..])))
  }

  lemma CopiedFirst(w: seq<Attr>)
    requires w != []
    ensures PrintAttrs(Walk(CutAll(w))) == " " + PrintAttr(Cut(w[0])) + CopiedRest(w)
    ensures PrintAttrs(w) == " " + PrintAttr(w[0]) + PrintAttrs(w[1..])
  {
    hide PrintAttr;
    var c := CutAll(w);
    assert c[1..] == CutAll(w[1..]);
    var k := Walk(c);
    assert k[0] == c[0] == Cut(w[0]);
    assert PrintAttrs(k) == " " + PrintAttr(k[0]) + PrintAttrs(k[1..]);
    if |w| > 1 && Cut(w[1]) != Attr("", "") {
      assert k[1..] == Walk(c[1..]);
    } else {
      assert k[1..] == [];
    }
  }

  /** The attributes of a copy part from the original ones at the first value that is cut. */
  lemma {:induction false} CutAttrsPart(w: seq<Attr>, y: string, z: string)
    requires Walk(w) == w && PlainNames(w) && !PlainValues(w) && EndsStartTag(y)
    ensures Parts(PrintAttrs(Walk(CutAll(w))) + y, PrintAttrs(w) + z)
    decreases |w|
  {
    var x, t := CopiedRest(w), PrintAttrs(w[1..]);
    CopiedFirst(w);
    if NUL in w[0].value {
      CutAttrParts(w[0], x + y, t + z);
      GlueParts(" ", PrintAttr(Cut(w[0])), x, y, PrintAttr(w[0]), t, z);
    } else {
      assert !PlainValues(w[1..]) by {
        var i :| 0 <= i < |w| && NUL in w[i].value;
        assert w[1..][i - 1] == w[i];
      }
      assert Parts(x + y, t + z) by {
        if Cut(w[1]) == Attr("", "") {
          CutEmptyParts(w[1..], y, z);
          assert x + y == y;
        } else {
          CutAttrsPart(w[1..], y, z);
        }
      }
      hide *;
      CutNothing(w[0]);
      var a := " " + PrintAttr(w[0]);
      PartsBehind(a, x + y, t + z);
      ConcatAssoc(a, x, y);
      ConcatAssoc(a, t, z);
    }
  }

  lemma GlueParts(s: string, a: string, x: string, y: string, b: string, t: string, z: string)
    requires Parts(a + (x + y), b + (t + z))
    ensures Parts(s + a + x + y, s + b + t + z)
  {
    PartsBehind(s, a + (x + y), b + (t + z));
    hide *;
    assert s + (a + (x + y)) == s + a + x + y;
    assert s + (b + (t + z)) == s + b + t + z;
  }

  lemma CutNothing(a: Attr)
    requires NUL !in a.name && NUL !in a.value
    ensures Cut(a) == a
  {
  }

  lemma CutEmptyParts(w: seq<Attr>, y: string, z: string)
    requires w != [] && NUL !in w[0].name && Cut(w[0]) == Attr("", "") && EndsStartTag(y)
    ensures Parts(y, PrintAttrs(w) + z)
  {
    CopiedFirst(w);
    var a, t := " " + PrintAttr(w[0]), PrintAttrs(w[1..]);
    EmptyAttrParts(w[0], y, t + z);
    hide *;
    ConcatAssoc(a, t, z);
  }

  /** Without terminators in the values the walk over the copied attributes prints what the walk over the original
      ones does. */
  lemma WalkAgain(attrs: seq<Attr>)
    ensures Walk(Walk(attrs)) == Walk(attrs)
  {
    var w := Walk(attrs);
    WalkCompleteIff(w);
    forall i | 1 <= i < |w| ensures w[i] != Attr("", "") {
      WalkPrefix(attrs, i);
    }
  }

  /** The attribute part of a start tag of the copy: the same text, or one that parts from it. */
  lemma CopiedAttrs(attrs: seq<Attr>, y: string, z: string)
    requires UniqueNames(attrs) && PlainNames(attrs) && EndsStartTag(y)
    ensures PlainValues(Walk(attrs)) ==> PrintAttrs(Walk(CopyAttrs(attrs))) == PrintAttrs(Walk(attrs))
    ensures !PlainValues(Walk(attrs)) ==> Parts(PrintAttrs(Walk(CopyAttrs(attrs))) + y, PrintAttrs(Walk(attrs)) + z)
  {
    var w := Walk(attrs);
    CutUnique(attrs);
    WalkAgain(attrs);
    assert PlainNames(w) by {
      assert forall i :: 0 <= i < |w| ==> w[i] == attrs[i];
    }
    CutAllIff(w);
    if !PlainValues(w) {
      CutAttrsPart(w, y, z);
    }
  }

  // ----- nodes

  /** What an element prints behind its attributes. */
  function After(n: Node, depth: nat, l: Layout): string
    requires n.Element?
  {
    if n.kids == [] then " />" else ">" + PrintContent(n, depth, l) + "</" + CString(n.name) + ">"
  }

  lemma CoreForm(n: Node, depth: nat, l: Layout)
    requires n.Element?
    ensures PrintCore(n, depth, l) == "<" + CString(n.name) + (PrintAttrs(Walk(n.attrs)) + After(n, depth, l))
    ensures EndsStartTag(After(n, depth, l))
  {
    hide PrintAttrs, PrintContent, Walk;
    var h, a, e := "<" + CString(n.name), PrintAttrs(Walk(n.attrs)), CString(n.name);
    if n.kids == [] {
      assert PrintCore(n, depth, l) == (h + a) + " />";
      ConcatAssoc(h, a, " />");
    } else {
      var c := PrintContent(n, depth, l);
      assert PrintCore(n, depth, l) == (h + a) + ">" + c + "</" + e + ">";
      assert (h + a) + ">" + c + "</" + e + ">" == h + (a + (">" + c + "</" + e + ">"));
    }
  }

  lemma NodeForm(n: Node, depth: nat, l: Layout)
    ensures PrintNode(n, depth, l) == Indent(l, depth) + (PrintCore(n, depth, l) + l.lineBreak)
  {
    hide PrintCore, Indent;
    ConcatAssoc(Indent(l, depth), PrintCore(n, depth, l), l.lineBreak);
  }

  /** A layout in which a line break ends what stands in front of it. */
  predicate Breaks(l: Layout) {
    l.lineBreak != "" && IsWhite(l.lineBreak[0])
  }

  /** `x` is the text `y`, if `whole`; if not, it is another text whatever follows, provided lines are broken. */
  ghost predicate SameOrParts(x: string, y: string, whole: bool, breaks: bool) {
    if whole then x == y else breaks ==> Parts(x, y)
  }

  lemma {:induction false} CopyPrints(n: Node, depth: nat, l: Layout)
    requires Copyable(n)
    ensures SameOrParts(PrintNode(Copy(n), depth, l), PrintNode(n, depth, l), PrintsWhole(n), Breaks(l))
    decreases n, 1
  {
    NodeForm(n, depth, l);
    NodeForm(Copy(n), depth, l);
    var c, x, y := Copy(n), PrintCore(Copy(n), depth, l), PrintCore(n, depth, l);
    match n
    case Element(_, _, _) =>
      ElementPrints(n, depth, l);
      hide *;
      WrapParts(Indent(l, depth), x, y, l.lineBreak, PrintsWhole(n), Breaks(l));
    case Text(value, cdata) =>
      CutTwice(value);
      if !cdata {
        TextPrints(value, l.lineBreak, l.lineBreak);
        if NUL in value && Breaks(l) {
          PartsBehind(Indent(l, depth), Encode(CString(value)) + l.lineBreak, Encode(value) + l.lineBreak);
        }
      }
    case Comment(value) => CutTwice(value);
    case Unknown(value) => CutTwice(value);
  }

  lemma TextPrints(value: string, d: string, e: string)
    ensures NUL !in value ==> Encode(CString(value)) == Encode(value)
    ensures NUL in value && d != "" && (IsWhite(d[0]) || d[0] == '<') ==>
              Parts(Encode(CString(value)) + d, Encode(value) + e)
  {
    if NUL in value && d != "" && (IsWhite(d[0]) || d[0] == '<') {
      CutValueParts(value, d, e);
    }
  }

  lemma WrapParts(a: string, x: string, y: string, b: string, whole: bool, breaks: bool)
    requires SameOrParts(x, y, whole, breaks)
    ensures SameOrParts(a + (x + b), a + (y + b), whole, breaks)
  {
    if !whole && breaks {
      PartsFollowed(x, y, b, b);
      PartsBehind(a, x + b, y + b);
    }
  }

  lemma CopyFacts(n: Node)
    requires n.Element? && Copyable(n)
    ensures var c := Copy(n);
            && c.Element? && c.name == CString(n.name) && c.attrs == CopyAttrs(n.attrs) && c.kids == CopyAll(n.kids)
            && |c.kids| == |n.kids| && (IsSimple(c) <==> IsSimple(n))
            && (IsSimple(n) ==> c.kids[0].value == CString(n.kids[0].value))
            && CString(c.name) == CString(n.name)
    ensures UniqueNames(n.attrs) && PlainNames(n.attrs)
    ensures forall k :: k in n.kids ==> Copyable(k)
    ensures PrintsWhole(n) <==> PlainValues(Walk(n.attrs)) && AllPrintWhole(n.kids)
  {
    hide Walk, CopyAttrs, PlainValues, UniqueNames, PlainNames, AllPrintWhole;
    CutTwice(n.name);
    if n.kids != [] {
      assert Copy(n).kids[0] == Copy(n.kids[0]);
    }
  }

  lemma {:induction false} ElementPrints(n: Node, depth: nat, l: Layout)
    requires n.Element? && Copyable(n)
    ensures SameOrParts(PrintCore(Copy(n), depth, l), PrintCore(n, depth, l), PrintsWhole(n), Breaks(l))
    decreases n, 0
  {
    var c := Copy(n);
    CopyFacts(n);
    CoreForm(n, depth, l);
    CoreForm(c, depth, l);
    CopiedAttrs(n.attrs, After(c, depth, l), After(n, depth, l));
    AfterPrints(n, depth, l);
    var h, a, b := "<" + CString(n.name), PrintAttrs(Walk(c.attrs)), PrintAttrs(Walk(n.attrs));
    var y, z := After(c, depth, l), After(n, depth, l);
    hide *;
    if PlainValues(Walk(n.attrs)) {
      LeadParts(a, y, z, AllPrintWhole(n.kids), Breaks(l));
      LeadParts(h, a + y, b + z, AllPrintWhole(n.kids), Breaks(l));
    } else {
      PartsBehind(h, a + y, b + z);
      SomeParts(h + (a + y), h + (b + z), Breaks(l));
    }
  }

  lemma SomeParts(x: string, y: string, breaks: bool)
    requires Parts(x, y)
    ensures SameOrParts(x, y, false, breaks)
  {
  }

  lemma LeadParts(a: string, x: string, y: string, whole: bool, breaks: bool)
    requires SameOrParts(x, y, whole, breaks)
    ensures SameOrParts(a + x, a + y, whole, breaks)
  {
    if !whole && breaks {
      PartsBehind(a, x, y);
    }
  }

  lemma JoinParts(x: string, y: string, a: string, b: string, first: bool, rest: bool, breaks: bool)
    requires SameOrParts(x, y, first, breaks) && SameOrParts(a, b, rest, breaks)
    ensures SameOrParts(x + a, y + b, first && rest, breaks)
  {
    if first {
      LeadParts(x, a, b, rest, breaks);
    } else if breaks {
      PartsFollowed(x, y, a, b);
    }
  }

  /** What stands behind the attributes of an element with children. */
  lemma AfterForm(n: Node, depth: nat, l: Layout)
    requires n.Element? && n.kids != []
    ensures var e := "</" + CString(n.name) + ">";
            After(n, depth, l) ==
              if IsSimple(n) then ">" + (Encode(n.kids[0].value) + e)
              else ">" + l.lineBreak + (PrintKids(n.kids, depth + 1, l) + (Indent(l, depth) + e))
  {
    var b, e := l.lineBreak, "</" + CString(n.name) + ">";
    hide Encode, PrintKids, Indent;
    if IsSimple(n) {
      var v := Encode(n.kids[0].value);
      assert ">" + v + "</" + CString(n.name) + ">" == ">" + (v + e);
    } else {
      var k, i := PrintKids(n.kids, depth + 1, l), Indent(l, depth);
      assert PrintContent(n, depth, l) == b + k + i;
      assert ">" + (b + k + i) + "</" + CString(n.name) + ">" == ">" + b + (k + (i + e));
    }
  }

  lemma {:induction false} AfterPrints(n: Node, depth: nat, l: Layout)
    requires n.Element? && Copyable(n)
    ensures SameOrParts(After(Copy(n), depth, l), After(n, depth, l), AllPrintWhole(n.kids), Breaks(l))
    decreases n.kids, 2
  {
    var c, e := Copy(n), "</" + CString(n.name) + ">";
    CopyFacts(n);
    if n.kids != [] {
      AfterForm(n, depth, l);
      AfterForm(c, depth, l);
      var tail := Indent(l, depth) + e;
      if IsSimple(n) {
        SimplePrints(n, e, Breaks(l));
      } else {
        KidsPrint(n.kids, depth + 1, l);
        hide *;
        var x, y := PrintKids(c.kids, depth + 1, l), PrintKids(n.kids, depth + 1, l);
        SameText(tail, Breaks(l));
        JoinParts(x, y, tail, tail, AllPrintWhole(n.kids), true, Breaks(l));
        LeadParts(">" + l.lineBreak, x + tail, y + tail, AllPrintWhole(n.kids), Breaks(l));
      }
    }
  }

  lemma SameText(x: string, breaks: bool)
    ensures SameOrParts(x, x, true, breaks)
  {
  }

  lemma SimplePrints(n: Node, e: string, breaks: bool)
    requires IsSimple(n) && e != "" && e[0] == '<'
    ensures var v := n.kids[0].value;
            SameOrParts(">" + (Encode(CString(v)) + e), ">" + (Encode(v) + e), AllPrintWhole(n.kids), breaks)
  {
    var v := n.kids[0].value;
    assert n.kids == [n.kids[0]] && n.kids[0] in n.kids;
    assert AllPrintWhole(n.kids) <==> PrintsWhole(n.kids[0]);
    TextPrints(v, e, e);
    assert SameOrParts(Encode(CString(v)) + e, Encode(v) + e, AllPrintWhole(n.kids), breaks);
    hide Encode, CString, Parts;
    LeadParts(">", Encode(CString(v)) + e, Encode(v) + e, AllPrintWhole(n.kids), breaks);
  }

  lemma {:induction false} KidsPrint(kids: seq<Node>, depth: nat, l: Layout)
    requires forall k :: k in kids ==> Copyable(k)
    ensures SameOrParts(PrintKids(CopyAll(kids), depth, l), PrintKids(kids, depth, l), AllPrintWhole(kids), Breaks(l))
    decreases kids, 1
  {
    if kids == [] {
      assert SameOrParts("", "", true, Breaks(l));
    } else {
      var n, rest := kids[0], kids[1..];
      CopyPrints(n, depth, l);
      KidsPrint(rest, depth, l);
      KidsForm(kids, depth, l);
      hide *;
      JoinParts(PrintNode(Copy(n), depth, l), PrintNode(n, depth, l), PrintKids(CopyAll(rest), depth, l),
                PrintKids(rest, depth, l), PrintsWhole(n), AllPrintWhole(rest), Breaks(l));
    }
  }

  lemma KidsForm(kids: seq<Node>, depth: nat, l: Layout)
    requires kids != []
    ensures PrintKids(kids, depth, l) == PrintNode(kids[0], depth, l) + PrintKids(kids[1..], depth, l)
    ensures PrintKids(CopyAll(kids), depth, l)
         == PrintNode(Copy(kids[0]), depth, l) + PrintKids(CopyAll(kids[1..]), depth, l)
    ensures AllPrintWhole(kids) <==> PrintsWhole(kids[0]) && AllPrintWhole(kids[1..])
  {
    hide PrintNode, Copy, PrintsWhole;
    assert CopyAll(kids)[1..] == CopyAll(kids[1..]);
    assert kids == [kids[0]] + kids[1..];
  }

  /** A copy prints as its original does exactly when no value that is printed in full holds a terminator, whether or
      not the walk over the attributes has reached them all. */
  lemma CopyPrintsSameIff(n: Node, depth: nat, l: Layout)
    requires Copyable(n) && Breaks(l)
    ensures PrintNode(Copy(n), depth, l) == PrintNode(n, depth, l) <==> PrintsWhole(n)
  {
    CopyPrints(n, depth, l);
    var x, y := PrintNode(Copy(n), depth, l), PrintNode(n, depth, l);
    hide *;
    if !PrintsWhole(n) {
      PartsFollowed(x, y, "", "");
      assert x + "" == x && y + "" == y;
    }
  }

  /** In any layout, line breaks or not, such a copy prints the same. */
  lemma CopyPrintsSame(n: Node, depth: nat, l: Layout)
    requires Copyable(n) && PrintsWhole(n)
    ensures PrintNode(Copy(n), depth, l) == PrintNode(n, depth, l)
  {
    CopyPrints(n, depth, l);
  }
}
