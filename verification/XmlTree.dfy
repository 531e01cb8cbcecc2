/** The document tree as a value: what a DOM node and its descendants say,
    without the pointers that link them. */
module XmlTree {
  import opened XmlChars

  datatype Attr = Attr(name: string, value: string)

  datatype Node =
    | Element(name: string, attrs: seq<Attr>, kids: seq<Node>)
    | Text(value: string, cdata: bool)
    | Comment(value: string)
    | Unknown(value: string)

  /** The index of the attribute called `name`, as `TiXmlAttributeSet::Find`; `|attrs|` when absent. */
  function FindAttr(attrs: seq<Attr>, name: string): (k: nat)
    ensures k <= |attrs|
    ensures forall i :: 0 <= i < k ==> attrs[i].name != name
    ensures k < |attrs| ==> attrs[k].name == name
  {
    if attrs == [] || attrs[0].name == name then 0 else 1 + FindAttr(attrs[1..], name)
  }

  predicate HasAttr(attrs: seq<Attr>, name: string) {
    FindAttr(attrs, name) < |attrs|
  }

  predicate UniqueNames(attrs: seq<Attr>) {
    forall i, j :: 0 <= i < j < |attrs| ==> attrs[i].name != attrs[j].name
  }

  /** `TiXmlAttribute::Next` takes an attribute with empty name and empty value for the sentinel,
      so a walk from the first attribute stops in front of such a one. */
  function Walk(attrs: seq<Attr>): (w: seq<Attr>)
    ensures w <= attrs
  {
    if |attrs| <= 1 then attrs
    else if attrs[1] == Attr("", "") then [attrs[0]]
    else [attrs[0]] + Walk(attrs[1..])
  }

  /** The walk reaches every attribute exactly when none behind the first is empty in both parts. */
  lemma {:induction false} WalkCompleteIff(attrs: seq<Attr>)
    ensures Walk(attrs) == attrs <==> forall i :: 1 <= i < |attrs| ==> attrs[i] != Attr("", "")
  {
    if |attrs| > 1 && attrs[1] != Attr("", "") {
      var t := attrs[1..];
      WalkCompleteIff(t);
      if Walk(t) == t {
        forall i | 1 <= i < |attrs| ensures attrs[i] != Attr("", "") {
          assert i > 1 ==> t[i - 1] == attrs[i];
        }
      } else {
        var i :| 1 <= i < |t| && t[i] == Attr("", "");
        assert attrs[i + 1] == Attr("", "");
        assert Walk(attrs)[1..] == Walk(t);
      }
    }
  }

  /** A walk that has come to index `i` goes on unless the list ends or the next attribute is empty in both parts. */
  lemma WalkPrefix(attrs: seq<Attr>, i: nat)
    requires i <= |Walk(attrs)|
    ensures Walk(attrs)[..i] == attrs[..i]
    ensures i < |Walk(attrs)| <==> i < |attrs| && (i == 0 || attrs[i] != Attr("", ""))
  {
    if |attrs| > 1 && attrs[1] != Attr("", "") && i > 0 {
      var t, w := attrs[1..], Walk(attrs[1..]);
      WalkPrefix(t, i - 1);
      assert Walk(attrs) == [attrs[0]] + w;
      hide Walk;
      assert ([attrs[0]] + w)[..i] == [attrs[0]] + w[..i - 1];
      assert attrs[..i] == [attrs[0]] + t[..i - 1];
      assert i < |attrs| ==> t[i - 1] == attrs[i];
    }
  }

  // ----- setting and copying attributes

  /** `SetAttribute`: an existing name keeps its place, a new one goes last. */
  function Put(attrs: seq<Attr>, a: Attr): (r: seq<Attr>)
    ensures HasAttr(r, a.name)
  {
    var k := FindAttr(attrs, a.name);
    var r := if k < |attrs| then attrs[k := a] else attrs + [a];
    assert r[k] == a;
    FindUpTo(r, a.name, k);
    r
  }

  lemma FindUpTo(attrs: seq<Attr>, name: string, k: nat)
    requires k < |attrs| && attrs[k].name == name
    ensures FindAttr(attrs, name) <= k
  {
  }

  function PutAll(attrs: seq<Attr>, more: seq<Attr>): seq<Attr>
    decreases |more|
  {
    if more == [] then attrs else Put(PutAll(attrs, more[..|more| - 1]), more[|more| - 1])
  }

  /** A copy goes through `const char*`, so every string of it ends in front of its first terminator. */
  function Cut(a: Attr): Attr {
    Attr(CString(a.name), CString(a.value))
  }

  function CutAll(attrs: seq<Attr>): (r: seq<Attr>)
    ensures |r| == |attrs|
    ensures forall i {:trigger r[i]} :: 0 <= i < |attrs| ==> r[i] == Cut(attrs[i])
  {
    if attrs == [] then [] else [Cut(attrs[0])] + CutAll(attrs[1..])
  }

  lemma PutNext(attrs: seq<Attr>, i: nat)
    requires i < |attrs|
    ensures PutAll([], CutAll(attrs[..i + 1])) == Put(PutAll([], CutAll(attrs[..i])), Cut(attrs[i]))
  {
    var c := CutAll(attrs[..i + 1]);
    assert c[..i] == CutAll(attrs[..i]);
  }

  /** What the copy of an attribute list holds: every attribute the walk reaches, cut and set in turn. */
  function CopyAttrs(attrs: seq<Attr>): seq<Attr> {
    PutAll([], CutAll(Walk(attrs)))
  }

  lemma {:induction false} PutAllUnique(attrs: seq<Attr>)
    requires UniqueNames(attrs)
    ensures PutAll([], attrs) == attrs
    decreases |attrs|
  {
    if attrs != [] {
      var init, last := attrs[..|attrs| - 1], attrs[|attrs| - 1];
      PutAllUnique(init);
      assert FindAttr(init, last.name) == |init|;
      assert init + [last] == attrs;
    }
  }

  /** Names without terminators, as every way to set one takes a `const char*`. */
  predicate PlainNames(attrs: seq<Attr>) {
    forall i :: 0 <= i < |attrs| ==> NUL !in attrs[i].name
  }

  predicate PlainValues(attrs: seq<Attr>) {
    forall i :: 0 <= i < |attrs| ==> NUL !in attrs[i].value
  }

  lemma CutUnique(attrs: seq<Attr>)
    requires UniqueNames(attrs) && PlainNames(attrs)
    ensures CopyAttrs(attrs) == CutAll(Walk(attrs)) && UniqueNames(CutAll(Walk(attrs)))
  {
    var w := Walk(attrs);
    assert forall i :: 0 <= i < |w| ==> w[i] == attrs[i] && CutAll(w)[i].name == w[i].name;
    PutAllUnique(CutAll(w));
  }

  /** Cutting changes nothing exactly when there is no terminator. */
  lemma CutAllIff(attrs: seq<Attr>)
    requires PlainNames(attrs)
    ensures CutAll(attrs) == attrs <==> PlainValues(attrs)
  {
    forall i | 0 <= i < |attrs| ensures Cut(attrs[i]) == attrs[i] <==> NUL !in attrs[i].value {
      CStringIff(attrs[i].value);
    }
    var c := CutAll(attrs);
    assert forall i :: 0 <= i < |attrs| ==> c[i] == Cut(attrs[i]);
    assert c == attrs <==> forall i :: 0 <= i < |attrs| ==> c[i] == attrs[i];
  }

  lemma CStringIff(s: string)
    ensures CString(s) == s <==> NUL !in s
  {
  }

  /** The attributes of a copy are the original ones exactly when the walk reaches all of them and no value holds a
      terminator. */
  lemma CopyAttrsIff(attrs: seq<Attr>)
    requires UniqueNames(attrs) && PlainNames(attrs)
    ensures CopyAttrs(attrs) == attrs <==>
            (forall i :: 1 <= i < |attrs| ==> attrs[i] != Attr("", "")) && PlainValues(attrs)
  {
    WalkCompleteIff(attrs);
    CutUnique(attrs);
    CutAllIff(attrs);
    assert |CutAll(Walk(attrs))| == |Walk(attrs)| && Walk(attrs) <= attrs;
  }

  /** `FindOrCreate` adds a new attribute while its name is still empty, and `Add` asserts that no
      attribute of that name is there: no attribute may follow one with an empty name. */
  predicate Copyable(n: Node) {
    match n
    case Element(_, attrs, kids) =>
      && UniqueNames(attrs) && PlainNames(attrs)
      && (forall i :: 0 <= i < |Walk(attrs)| - 1 ==> attrs[i].name != "")
      && forall k :: k in kids ==> Copyable(k)
    case _ => true
  }

  /** The copy of a tree. */
  function Copy(n: Node): Node {
    match n
    case Element(name, attrs, kids) => Element(CString(name), CopyAttrs(attrs), CopyAll(kids))
    case Text(value, cdata) => Text(CString(value), cdata)
    case Comment(value) => Comment(CString(value))
    case Unknown(value) => Unknown(CString(value))
  }

  function CopyAll(kids: seq<Node>): (r: seq<Node>)
    ensures |r| == |kids|
    ensures forall i :: 0 <= i < |kids| ==> r[i] == Copy(kids[i])
  {
    if kids == [] then [] else [Copy(kids[0])] + CopyAll(kids[1..])
  }

  /** Every attribute of the tree is reached by a walk. */
  predicate FullyWalked(n: Node) {
    match n
    case Element(_, attrs, kids) =>
      && (forall i :: 1 <= i < |attrs| ==> attrs[i] != Attr("", ""))
      && forall k :: k in kids ==> FullyWalked(k)
    case _ => true
  }

  /** No string of the tree holds a terminator. */
  predicate Terminated(n: Node) {
    match n
    case Element(name, attrs, kids) => NUL !in name && PlainValues(attrs) && forall k :: k in kids ==> Terminated(k)
    case Text(value, _) => NUL !in value
    case Comment(value) => NUL !in value
    case Unknown(value) => NUL !in value
  }

  lemma CopyAllIff(kids: seq<Node>)
    ensures CopyAll(kids) == kids <==> forall k :: k in kids ==> Copy(k) == k
  {
    var c := CopyAll(kids);
    hide *;
    assert c == kids <==> forall i :: 0 <= i < |kids| ==> c[i] == kids[i];
    assert forall i :: 0 <= i < |kids| ==> kids[i] in kids;
  }

  /** A copy says the same as its original exactly when every attribute of the original is reached and none of its
      strings holds a terminator. */
  lemma {:induction false} CopyIff(n: Node)
    requires Copyable(n)
    ensures Copy(n) == n <==> FullyWalked(n) && Terminated(n)
  {
    hide CString;
    hide Walk;
    hide CopyAttrs;
    hide CopyAll;
    hide UniqueNames;
    hide PlainNames;
    hide PlainValues;
    match n
    case Element(name, attrs, kids) =>
      CStringIff(name);
      CopyAttrsIff(attrs);
      CopyAllIff(kids);
      forall k | k in kids ensures Copy(k) == k <==> FullyWalked(k) && Terminated(k) {
        CopyIff(k);
      }
    case Text(value, _) => CStringIff(value);
    case Comment(value) => CStringIff(value);
    case Unknown(value) => CStringIff(value);
  }

  /** The copy of a tree whose values a reference has given a terminator is not the tree: `p&#0;q` is read as three
      characters, and copied as one. */
  lemma CopyLosesTail()
    ensures Copy(Text("p\0q", false)) == Text("p", false)
  {
    assert CString("p\0q"[1..]) == "";
  }
}
