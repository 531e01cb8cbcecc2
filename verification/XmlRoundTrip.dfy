/** What a printed tree reads back as: the tree itself when its values survive, and otherwise the tree with its
    references replaced, its texts condensed and its leaves cut. */
module XmlRoundTrip {
  import opened XmlChars
  import opened XmlText
  import opened XmlTree
  import opened XmlPrint
  import opened XmlParse

  // ----- well-shaped trees

  /** `tag` does not occur in `s`. */
  predicate Lacks(s: string, tag: string) {
    forall i :: 0 <= i < |s| ==> !(tag <= s[i..])
  }

  predicate IsPlainText(n: Node) {
    n.Text? && !n.cdata
  }

  predicate NamedAttrs(attrs: seq<Attr>) {
    UniqueNames(attrs) && forall i :: 0 <= i < |attrs| ==> IsName(attrs[i].name)
  }

  predicate GoodUnknown(value: string) {
    Identify("<" + value + ">").UnknownKind? && Lacks(value, ">")
  }

  /** An unknown tag that reads as an end tag when it stands inside an element. */
  predicate ClosesTag(n: Node) {
    n.Unknown? && n.value != "" && n.value[0] == '/'
  }

  /** What holds of every node of an accepted document: names, unique attributes, no blank texts, no end of a leaf
      inside it. */
  predicate Shaped(n: Node) {
    match n
    case Element(name, attrs, kids) => IsName(name) && NamedAttrs(attrs) && ShapedKids(kids)
    case Text(value, cdata) => if cdata then Lacks(value, CDATA_END) else !AllWhite(value)
    case Comment(value) => Lacks(value, COMMENT_END)
    case Unknown(value) => GoodUnknown(value)
  }

  /** Well-shaped children, no two plain texts side by side. */
  predicate ShapedKids(kids: seq<Node>) {
    && (forall k :: k in kids ==> Shaped(k) && !ClosesTag(k))
    && forall i :: 0 <= i < |kids| - 1 ==> !(IsPlainText(kids[i]) && IsPlainText(kids[i + 1]))
  }

  // ----- what they read back as

  predicate LegibleAttrs(attrs: seq<Attr>) {
    forall i :: 0 <= i < |attrs| ==> Legible(attrs[i].value)
  }

  /** Every reference in an attribute value or a plain text is closed and spells a number. */
  predicate LegibleNode(n: Node) {
    match n
    case Element(_, attrs, kids) => LegibleAttrs(attrs) && LegibleNodes(kids)
    case Text(value, cdata) => cdata || Legible(value)
    case Comment(_) => true
    case Unknown(_) => true
  }

  predicate LegibleNodes(nodes: seq<Node>) {
    forall n :: n in nodes ==> LegibleNode(n)
  }

  function ReadAttr(a: Attr): Attr
    requires Legible(a.value)
  {
    Attr(a.name, Reading(a.value))
  }

  function ReadAttrs(attrs: seq<Attr>): (r: seq<Attr>)
    requires LegibleAttrs(attrs)
    ensures |r| == |attrs|
    ensures forall i :: 0 <= i < |attrs| ==> r[i] == ReadAttr(attrs[i])
  {
    if attrs == [] then [] else
      assert forall i :: 0 <= i < |attrs[1..]| ==> attrs[1..][i] == attrs[i + 1];
      [ReadAttr(attrs[0])] + ReadAttrs(attrs[1..])
  }

  /** A node after printing and parsing: references replaced, blanks of a text condensed, leaves cut at their
      terminator. */
  function Read(n: Node): (r: Node)
    requires LegibleNode(n)
    ensures r.Element? == n.Element? && IsPlainText(r) == IsPlainText(n) && (ClosesTag(r) ==> ClosesTag(n))
    decreases n, 0
  {
    match n
    case Element(name, attrs, kids) => Element(name, ReadAttrs(attrs), ReadNodes(kids))
    case Text(value, cdata) => if cdata then Text(CString(value), true) else Text(TextReading(value), false)
    case Comment(value) => Comment(CString(value))
    case Unknown(value) => Unknown(CString(value))
  }

  /** A plain text of which only white space is left is dropped. */
  predicate Dropped(n: Node)
    requires LegibleNode(n)
  {
    IsPlainText(n) && AllWhite(TextReading(n.value))
  }

  function ReadOne(n: Node): (r: seq<Node>)
    requires LegibleNode(n)
    ensures |r| <= 1
    decreases n, 1
  {
    if Dropped(n) then [] else [Read(n)]
  }

  function ReadNodes(nodes: seq<Node>): (r: seq<Node>)
    requires LegibleNodes(nodes)
    ensures |r| <= |nodes|
    decreases nodes
  {
    if nodes == [] then [] else ReadOne(nodes[0]) + ReadNodes(nodes[1..])
  }

  predicate GoodLayout(l: Layout) {
    AllWhite(l.indent) && AllWhite(l.lineBreak)
  }

  // ----- attributes

  lemma NameCharPlain(c: char)
    requires IsNameChar(c)
    ensures c != '&' && EncodeChar(c) == [c]
  {
  }

  lemma {:induction false} EncodeName(s: string)
    requires forall i :: 0 <= i < |s| ==> IsNameChar(s[i])
    ensures Encode(s) == s
  {
    if s != "" {
      EncodeName(s[1..]);
      NameCharPlain(s[0]);
      hide EncodeChar;
      assert [s[0]] + s[1..] == s;
    }
  }

  lemma AttrValueBack(name: string, value: string, quote: string, x: string)
    requires quote == "'" || quote == "\""
    requires Legible(value) && x != ""
    ensures ParseAttrValue(name, quote + (Encode(value) + (quote + x)))
         == ParsedAttr(Attr(name, Reading(value)), Some(x), NoError)
  {
    assert IsDelimiter(quote) && IsQuote(quote[0]);
    hide *;
    var tail := quote + x;
    assert quote <= tail && tail[1..] == x;
    ReadTextReads(value, tail, quote);
    assert (quote + (Encode(value) + tail))[1..] == Encode(value) + tail;
    assert [quote[0]] == quote;
    AttrValueUnfold(name, quote[0], Encode(value) + tail);
    PastEndOf(quote, x);
  }

  lemma PastEndOf(end: string, x: string)
    requires x != "" && end != ""
    ensures end <= end + x && PastEnd(Some(end + x), end) == Some(x)
  {
    assert (end + x)[|end|..] == x;
  }

  lemma AttrValueUnfold(name: string, quote: char, r: string)
    requires IsQuote(quote)
    ensures var t := ReadText(r, false, true, [quote]);
            ParseAttrValue(name, [quote] + r) == ParsedAttr(Attr(name, t.text), t.rest, NoError)
  {
    hide ReadText;
    assert ([quote] + r)[1..] == r;
  }

  lemma AttributeBack(a: Attr, x: string)
    requires IsName(a.name) && Legible(a.value) && x != ""
    ensures ParseAttribute(PrintAttr(a) + x) == ParsedAttr(ReadAttr(a), Some(x), NoError)
  {
    hide ParseAttrValue;
    hide Encode;
    hide Quote;
    hide Legible;
    hide Reading;
    var quote := Quote(a.value);
    var v := quote + (Encode(a.value) + (quote + x));
    var r := a.name + ("=" + v);
    EncodeName(a.name);
    assert PrintAttr(a) + x == r;
    ReadNameOf(a.name, "=" + v);
    AttrValueBack(a.name, a.value, quote, x);
    assert r[0] == a.name[0] && !IsWhite(r[0]);
    assert ("=" + v)[1..] == v;
  }

  lemma NamedAttrsNext(seen: seq<Attr>, attrs: seq<Attr>, b: Attr)
    requires NamedAttrs(seen + attrs) && attrs != [] && b.name == attrs[0].name
    ensures IsName(attrs[0].name) && forall i :: 0 <= i < |seen| ==> seen[i].name != attrs[0].name
    ensures NamedAttrs(seen + [b] + attrs[1..])
  {
    hide *;
    var a, rest := attrs[0], attrs[1..];
    NamedMiddle(seen, a, rest, attrs);
    Exchange(seen, a, b, rest, attrs);
    SameNames(seen + attrs, seen + [b] + rest);
  }

  lemma ReadAttrsNext(seen: seq<Attr>, attrs: seq<Attr>)
    requires LegibleAttrs(attrs) && attrs != []
    ensures Legible(attrs[0].value) && LegibleAttrs(attrs[1..]) && ReadAttr(attrs[0]).name == attrs[0].name
    ensures seen + [ReadAttr(attrs[0])] + ReadAttrs(attrs[1..]) == seen + ReadAttrs(attrs)
  {
    hide Legible, Reading;
    assert ReadAttrs(attrs) == [ReadAttr(attrs[0])] + ReadAttrs(attrs[1..]);
  }

  lemma NamedMiddle(seen: seq<Attr>, a: Attr, rest: seq<Attr>, attrs: seq<Attr>)
    requires NamedAttrs(seen + attrs) && attrs == [a] + rest
    ensures IsName(a.name) && forall i :: 0 <= i < |seen| ==> seen[i].name != a.name
  {
    hide IsName;
    var all := seen + attrs;
    assert all[|seen|] == a;
    assert forall i :: 0 <= i < |seen| ==> all[i] == seen[i];
  }

  lemma Exchange(seen: seq<Attr>, a: Attr, b: Attr, rest: seq<Attr>, attrs: seq<Attr>)
    requires attrs == [a] + rest && a.name == b.name
    ensures var all, next := seen + attrs, seen + [b] + rest;
            |next| == |all| && forall i :: 0 <= i < |all| ==> next[i].name == all[i].name
  {
  }

  lemma SameNames(all: seq<Attr>, next: seq<Attr>)
    requires NamedAttrs(all) && |next| == |all|
    requires forall i :: 0 <= i < |all| ==> next[i].name == all[i].name
    ensures NamedAttrs(next)
  {
    hide IsName;
  }

  lemma PrintNoAttrs(x: string)
    ensures PrintAttrs([]) + x == x
  {
  }

  lemma PrintAttrsNext(attrs: seq<Attr>, x: string)
    requires attrs != []
    ensures PrintAttrs(attrs) + x == " " + (PrintAttr(attrs[0]) + (PrintAttrs(attrs[1..]) + x))
    ensures PrintAttrs(attrs[1..]) + x == "" ==> x == ""
  {
    hide PrintAttr;
    var a, b := PrintAttr(attrs[0]), PrintAttrs(attrs[1..]);
    assert (" " + a + b) + x == " " + (a + (b + x));
  }

  /** The attribute loop reads a printed attribute list behind those already read, every value as it reads. */
  lemma {:induction false} AttrsBack(name: string, seen: seq<Attr>, attrs: seq<Attr>, x: string)
    requires NamedAttrs(seen + attrs) && LegibleAttrs(attrs) && x != ""
    ensures ParseTag(name, seen, PrintAttrs(attrs) + x, true) == ParseTag(name, seen + ReadAttrs(attrs), x, true)
    decreases attrs
  {
    hide *;
    if attrs == [] {
      PrintNoAttrs(x);
      assert seen + ReadAttrs(attrs) == seen;
    } else {
      var a := attrs[0];
      ReadAttrsNext(seen, attrs);
      NamedAttrsNext(seen, attrs, ReadAttr(a));
      var y := PrintAttrs(attrs[1..]) + x;
      PrintAttrsNext(attrs, x);
      AttributeBack(a, y);
      TagAttribute(name, seen, a, ReadAttr(a), y);
      AttrsBack(name, seen + [ReadAttr(a)], attrs[1..], x);
    }
  }

  /** One round of the attribute loop, which reads `b`. */
  lemma TagAttribute(name: string, seen: seq<Attr>, a: Attr, b: Attr, y: string)
    requires IsName(a.name) && b.name == a.name && y != ""
    requires forall i :: 0 <= i < |seen| ==> seen[i].name != a.name
    requires ParseAttribute(PrintAttr(a) + y) == ParsedAttr(b, Some(y), NoError)
    ensures ParseTag(name, seen, " " + (PrintAttr(a) + y), true) == ParseTag(name, seen + [b], y, true)
  {
    hide ParseAttribute;
    hide Encode;
    EncodeName(a.name);
    var r := PrintAttr(a) + y;
    assert r[0] == a.name[0];
    SkipWhiteOver(" ", r);
  }

  // ----- the parts of an element

  lemma ElementUnfold(name: string, r: string)
    requires IsName(name)
    requires r != "" && !IsNameChar(r[0])
    ensures ParseElement("<" + (name + r), true) == ParseTag(name, [], r, true)
  {
    hide ParseTag;
    ReadNameOf(name, r);
    assert ("<" + (name + r))[1..] == name + r;
    assert (name + r)[0] == name[0];
  }

  lemma EndTagBack(name: string, x: string)
    ensures ParseEndTag(name, Some("</" + name + ">" + x)) == Some(x)
  {
    var endTag := "</" + name;
    var r := "</" + name + ">" + x;
    assert r == endTag + (">" + x);
    assert r[|endTag|..] == ">" + x;
    assert (">" + x)[1..] == x;
  }

  lemma EmptyTagUnfold(name: string, attrs: seq<Attr>, x: string)
    ensures ParseTag(name, attrs, " />" + x, true) == Parsed(Element(name, attrs, []), Some(x), NoError)
  {
    assert " />" + x == " " + ("/>" + x);
    SkipWhiteOver(" ", "/>" + x);
    assert ("/>" + x)[2..] == x;
  }

  lemma OpenTagUnfold(name: string, attrs: seq<Attr>, content: string, kids: seq<Node>, x: string)
    requires ParseValue(Some(content + ("</" + name + ">" + x)), true)
          == ParsedKids(kids, Some("</" + name + ">" + x), NoError)
    ensures ParseTag(name, attrs, ">" + (content + ("</" + name + ">" + x)), true)
         == Parsed(Element(name, attrs, kids), Some(x), NoError)
  {
    hide ParseValue;
    hide ParseEndTag;
    EndTagBack(name, x);
    var r := content + ("</" + name + ">" + x);
    assert (">" + r)[1..] == r;
  }

  // ----- children

  lemma {:induction false} IndentWhite(l: Layout, depth: nat)
    requires GoodLayout(l)
    ensures AllWhite(Indent(l, depth))
  {
    if depth > 0 {
      IndentWhite(l, depth - 1);
    }
  }

  /** `ReadValue` looks at its text from the first character that is not white. */
  lemma ValueSame(a: string, b: string)
    requires SkipWhite(a) == SkipWhite(b) && SkipWhite(a) != ""
    ensures ParseValue(Some(a), true) == ParseValue(Some(b), true)
  {
    hide ParseNode;
    hide ParseText;
    assert a != "" && b != "";
  }

  /** White space in front of a readable text does not change what it finds. */
  lemma ValueSkips(w: string, z: string)
    requires AllWhite(w) && SkipWhite(z) != ""
    ensures ParseValue(Some(w + z), true) == ParseValue(Some(z), true)
  {
    SkipWhiteMore(w, z);
    hide *;
    ValueSame(w + z, z);
  }

  lemma {:induction false} SkipWhiteMore(w: string, z: string)
    requires AllWhite(w)
    ensures SkipWhite(w + z) == SkipWhite(z)
  {
    if w == "" {
      assert w + z == z;
    } else {
      assert (w + z)[1..] == w[1..] + z;
      SkipWhiteMore(w[1..], z);
    }
  }

  /** The printed children followed by the white space and the end tag after them. */
  function KidsText(kids: seq<Node>, depth: nat, l: Layout, gap: string, tail: string): string {
    PrintKids(kids, depth, l) + (gap + tail)
  }

  /** The same text from its first character that is not indentation. */
  function KidsStart(kids: seq<Node>, depth: nat, l: Layout, gap: string, tail: string): string {
    if kids == [] then tail
    else PrintCore(kids[0], depth, l) + (l.lineBreak + KidsText(kids[1..], depth, l, gap, tail))
  }

  function KidsLead(kids: seq<Node>, depth: nat, l: Layout, gap: string): string {
    if kids == [] then gap else Indent(l, depth)
  }

  lemma KidsTextSplit(kids: seq<Node>, depth: nat, l: Layout, gap: string, tail: string)
    ensures KidsText(kids, depth, l, gap, tail)
         == KidsLead(kids, depth, l, gap) + KidsStart(kids, depth, l, gap, tail)
  {
    if kids == [] {
      assert "" + (gap + tail) == gap + tail;
    } else {
      hide PrintCore;
      hide Indent;
      var i, c, b, p, e := Indent(l, depth), PrintCore(kids[0], depth, l), l.lineBreak, PrintKids(kids[1..], depth, l), gap + tail;
      assert PrintKids(kids, depth, l) == (i + c + b) + p;
      ConcatAll(i, c, b, p, e);
    }
  }

  lemma ConcatAll(a: string, b: string, c: string, d: string, e: string)
    ensures (a + b + c + d) + e == a + (b + (c + (d + e)))
  {
  }

  lemma FirstOf(z: string)
    requires z != "" && z[0] == '<'
    ensures "<" <= z && "<" + z[1..] == z
  {
  }

  lemma SkipNothing(r: string)
    requires r != "" ==> !IsWhite(r[0])
    ensures SkipWhite(r) == r
  {
  }

  /** `r` starts with character data that reads as `value` and ends in front of `z`. */
  predicate StartsText(r: string, value: string, z: string) {
    r != "" && r[0] != '<' && !IsWhite(r[0]) && SkipWhite(r) == r
    && ParseText(r, true) == Parsed(Text(value, false), Some(z), NoError)
  }

  lemma StartsTextFold(r: string, value: string, z: string)
    requires r != "" && r[0] != '<' && !IsWhite(r[0]) && SkipWhite(r) == r
    requires ParseText(r, true) == Parsed(Text(value, false), Some(z), NoError)
    ensures StartsText(r, value, z)
  {
  }

  /** A plain text child is read up to the tag behind the white space that follows it. */
  lemma TextBack(value: string, w: string, z: string)
    requires Legible(value) && DropBlanks(value) != "" && AllWhite(w)
    requires |z| >= 2 && z[0] == '<'
    ensures StartsText(Encode(DropBlanks(value)) + (w + z), TextReading(value), z)
  {
    assert IsDelimiter("<");
    TextReadingUnfold(value);
    hide *;
    var v := DropBlanks(value);
    var r := Encode(v) + (w + z);
    TextStart(v, w + z);
    SkipNothing(r);
    TrimReads(v, false, w, z, "<");
    FirstOf(z);
    ReadTextTrim(r, z);
    ParseTextUnfold(r);
    StartsTextFold(r, TextReading(value), z);
  }

  lemma TextReadingUnfold(value: string)
    requires Legible(value)
    ensures Legible(DropBlanks(value)) && TextReading(value) == TrimReading(DropBlanks(value), false)
  {
  }

  lemma TextStart(s: string, x: string)
    requires s != "" && s[0] != ' '
    ensures var r := Encode(s) + x; r != "" && r[0] != '<' && !IsWhite(r[0])
  {
    assert IsDelimiter("<");
    hide EncodeChar;
    if "&#x" <= s {
      EncodeReference(s);
      assert s[0] == '&' && (Encode(s) + x)[0] == '&';
    } else {
      EncodeNext(s, x);
      EncodedCharStart(s[0], Encode(s[1..]) + x, "<");
    }
  }

  lemma EncodeNext(s: string, x: string)
    requires s != "" && !("&#x" <= s)
    ensures Encode(s) + x == EncodeChar(s[0]) + (Encode(s[1..]) + x)
    ensures EncodeChar(s[0]) != ""
  {
    hide EncodeChar;
    assert (EncodeChar(s[0]) + Encode(s[1..])) + x == EncodeChar(s[0]) + (Encode(s[1..]) + x);
  }

  lemma ReadTextTrim(r: string, z: string)
    requires r != "" && !IsWhite(r[0])
    requires |z| >= 2 && "<" <= z && ReadTrim(r, false, "<").rest == Some(z)
    ensures ReadText(r, true, true, "<") == TextRead(ReadTrim(r, false, "<").text, Some(z[1..]))
  {
    hide ReadTrim;
  }

  lemma ParseTextUnfold(r: string)
    requires r != "" && !IsWhite(r[0]) && r[0] != '<'
    ensures var t := ReadText(r, true, true, "<");
            ParseText(r, true) == Parsed(Text(t.text, false), if t.rest.Some? then Some("<" + t.rest.value) else None, NoError)
  {
    hide ReadText;
  }

  // ----- leaves

  /** An end tag none of whose copies can overlap the start of another one. */
  predicate IsTerminator(end: string) {
    end == COMMENT_END || end == CDATA_END || end == ">"
  }

  lemma LacksTail(s: string, end: string)
    requires Lacks(s, end) && s != ""
    ensures !(end <= s) && Lacks(s[1..], end)
  {
    assert s[0..] == s;
    forall i | 0 <= i < |s[1..]| ensures !(end <= s[1..][i..]) {
      assert s[1..][i..] == s[i + 1..];
    }
  }

  lemma NoOverlap(s: string, end: string, x: string)
    requires IsTerminator(end) && s != "" && !(end <= s)
    ensures !(end <= s + (end + x))
  {
    var r := s + (end + x);
    if |s| >= |end| {
      assert r[..|end|] == s[..|end|];
    } else if |s| == 1 {
      assert r[|end| - 1] == end[|end| - 2] || |end| == 1;
    } else {
      assert r[2] == end[0];
    }
  }

  lemma {:induction false} UntilBack(s: string, end: string, x: string)
    requires IsTerminator(end) && Lacks(s, end)
    ensures Until(s + (end + x), end) == |s|
  {
    var r := s + (end + x);
    if s == "" {
      assert r == end + x;
    } else {
      LacksTail(s, end);
      NoOverlap(s, end, x);
      assert r[1..] == s[1..] + (end + x);
      UntilBack(s[1..], end, x);
    }
  }

  /** `r` starts with a tag, an end tag only if `n` looks like one, and parses as `n` with `x` left to read. */
  predicate StartsNode(r: string, n: Node, x: string) {
    r != "" && r[0] == '<' && ("</" <= r ==> ClosesTag(n))
    && ParseNode(r, true) == Parsed(n, if n.Text? && x == "" then None else Some(x), NoError)
  }

  /** What is cut off holds no more ends than before. */
  lemma LacksCut(s: string, end: string)
    requires Lacks(s, end)
    ensures Lacks(CString(s), end)
  {
    var t := CString(s);
    forall i | 0 <= i < |t| ensures !(end <= t[i..]) {
      assert t[i..] <= s[i..];
    }
  }

  lemma GoodUnknownCut(value: string)
    requires GoodUnknown(value)
    ensures GoodUnknown(CString(value))
  {
    LacksCut(value, ">");
    UnknownKindCut(value, CString(value));
  }

  /** The kind of an unknown tag does not depend on its last characters. */
  lemma UnknownKindCut(value: string, t: string)
    requires Identify("<" + value + ">").UnknownKind? && t <= value
    ensures Identify("<" + t + ">").UnknownKind?
  {
    var r, s := "<" + value + ">", "<" + t + ">";
    assert forall i :: 0 <= i <= |t| ==> s[i] == r[i];
    assert s[|t| + 1] == '>';
    assert s[..|s| - 1] <= r;
    if COMMENT_HEADER <= s {
      HeaderCut(COMMENT_HEADER, r, s);
    }
    if CDATA_HEADER <= s {
      HeaderCut(CDATA_HEADER, r, s);
    }
  }

  lemma HeaderCut(h: string, r: string, s: string)
    requires '>' !in h && s != "" && s[|s| - 1] == '>' && s[..|s| - 1] <= r && h <= s
    ensures h <= r
  {
    assert s[|s| - 1] in s;
    assert |h| == |s| ==> h == s;
    assert h == s[..|s| - 1][..|h|];
  }

  lemma CommentBack(value: string, x: string)
    requires Lacks(value, COMMENT_END)
    ensures StartsNode("<!--" + value + "-->" + x, Comment(value), x)
  {
    var body := value + ("-->" + x);
    var r := "<!--" + value + "-->" + x;
    assert r == "<!--" + body && r[1] == '!';
    IdentifiedComment(r);
    UntilBack(value, COMMENT_END, x);
    hide Until, Identify;
    assert r[4..] == body;
    assert body[..|value|] == value;
    assert body[|value| + 3..] == x;
  }

  lemma IdentifiedComment(r: string)
    requires COMMENT_HEADER <= r
    ensures Identify(r) == CommentKind && !("</" <= r)
  {
    assert r[1] == COMMENT_HEADER[1] == '!';
    assert ToLower(r[1]) != ToLower("<?xml"[1]);
  }

  lemma CDataBack(value: string, x: string)
    requires Lacks(value, CDATA_END)
    ensures StartsNode("<![CDATA[" + value + "]]>" + x, Text(value, true), x)
  {
    hide Until;
    hide ReadText;
    var body := value + ("]]>" + x);
    var r := "<![CDATA[" + value + "]]>" + x;
    assert r == "<![CDATA[" + body;
    assert r[9..] == body;
    UntilBack(value, CDATA_END, x);
    assert body[..|value|] == value;
    assert body[|value|..] == "]]>" + x;
    CDataEndRead(x);
    assert r[1] == '!' && r[2] == '[';
  }

  lemma CDataEndRead(x: string)
    ensures ReadText("]]>" + x, false, true, CDATA_END).rest == if x == "" then None else Some(x)
  {
    var r := "]]>" + x;
    assert CDATA_END <= r;
    assert r[3..] == x;
  }

  lemma UnknownBack(value: string, x: string)
    requires GoodUnknown(value)
    ensures StartsNode("<" + value + ">" + x, Unknown(value), x)
  {
    hide Until;
    hide Identify;
    var body := value + (">" + x);
    var r := "<" + value + ">" + x;
    assert r == "<" + body;
    assert r[1..] == body;
    UntilBack(value, ">", x);
    assert body[..|value|] == value;
    assert body[|value| + 1..] == x;
    UnknownKindStable(value, x);
    assert r[1] == if value == "" then '>' else value[0];
  }

  /** What follows an unknown tag does not change its kind. */
  lemma UnknownKindStable(value: string, x: string)
    requires Identify("<" + value + ">").UnknownKind? && Lacks(value, ">")
    ensures Identify("<" + value + ">" + x).UnknownKind?
  {
    var r, r' := "<" + value + ">", "<" + value + ">" + x;
    assert forall i :: 0 <= i < |r| ==> r'[i] == r[i];
    assert r[|value| + 1] == '>' && r'[|value| + 1] == '>';
    assert r'[1] == r[1];
  }

  // ----- the steps of ReadValue on printed text

  lemma ValueText(r: string, value: string, z: string)
    requires StartsText(r, value, z)
    ensures var u := ParseValue(Some(z), true);
            ParseValue(Some(r), true) ==
              ParsedKids((if AllWhite(value) then [] else [Text(value, false)]) + u.kids, u.rest, u.error)
  {
    hide ParseText;
    hide ParseNode;
  }

  lemma ValueNode(r: string, n: Node, x: string)
    requires StartsNode(r, n, x) && x != "" && !ClosesTag(n)
    ensures var u := ParseValue(Some(x), true);
            ParseValue(Some(r), true) == ParsedKids([n] + u.kids, u.rest, u.error)
  {
    hide ParseNode;
    SkipNothing(r);
  }

  lemma ValueEnd(tail: string)
    requires "</" <= tail
    ensures ParseValue(Some(tail), true) == ParsedKids([], Some(tail), NoError)
  {
    hide ParseNode;
    assert tail[0] == '<';
    SkipNothing(tail);
  }

  /** A printed node other than plain text starts with `<` and has two characters at least. */
  lemma CoreStart(n: Node, depth: nat, l: Layout)
    requires !IsPlainText(n)
    ensures var c := PrintCore(n, depth, l); |c| >= 2 && c[0] == '<'
  {
    hide PrintContent;
    hide PrintAttrs;
  }

  lemma NotBlank(value: string)
    requires !AllWhite(value)
    ensures DropBlanks(value) != ""
  {
    if value != "" && value[0] == ' ' {
      NotBlank(value[1..]);
    }
  }

  /** Printed children have something that is no white space to start with, a tag unless the first is plain text. */
  lemma KidsStartReadable(kids: seq<Node>, depth: nat, l: Layout, gap: string, tail: string)
    requires ShapedKids(kids) && "</" <= tail
    ensures var z := KidsStart(kids, depth, l, gap, tail);
            SkipWhite(z) != "" && (kids == [] || !IsPlainText(kids[0]) ==> |z| >= 2 && z[0] == '<')
  {
    if kids == [] {
      assert tail[0] == '<';
    } else {
      var x := l.lineBreak + KidsText(kids[1..], depth, l, gap, tail);
      assert Shaped(kids[0]);
      hide SkipWhite;
      if IsPlainText(kids[0]) {
        TextReadable(kids[0].value, x);
      } else {
        CoreStart(kids[0], depth, l);
        hide PrintCore;
        SkipNothing(PrintCore(kids[0], depth, l) + x);
      }
    }
  }

  lemma TextReadable(value: string, x: string)
    requires !AllWhite(value)
    ensures SkipWhite(Encode(value) + x) == Encode(DropBlanks(value)) + x && DropBlanks(value) != ""
    ensures Encode(DropBlanks(value)) + x != ""
  {
    hide Encode, SkipWhite;
    NotBlank(value);
    SkipWhiteEncoded(value, x);
    TextStart(DropBlanks(value), x);
  }

  lemma ShapedKidsTail(kids: seq<Node>)
    requires ShapedKids(kids) && LegibleNodes(kids) && kids != []
    ensures Shaped(kids[0]) && !ClosesTag(kids[0]) && ShapedKids(kids[1..])
    ensures LegibleNode(kids[0]) && LegibleNodes(kids[1..])
    ensures IsPlainText(kids[0]) && kids[1..] != [] ==> !IsPlainText(kids[1..][0])
  {
  }

  lemma ReadNext(nodes: seq<Node>)
    requires LegibleNodes(nodes) && nodes != []
    ensures LegibleNode(nodes[0]) && LegibleNodes(nodes[1..])
    ensures ReadNodes(nodes) == ReadOne(nodes[0]) + ReadNodes(nodes[1..])
    ensures !IsPlainText(nodes[0]) ==> ReadOne(nodes[0]) == [Read(nodes[0])]
  {
  }

  // ----- the induction

  /** The children of an element, printed with any white space between them and before the end tag, are read as they
      read. */
  lemma {:induction false} KidsBack(kids: seq<Node>, depth: nat, l: Layout, gap: string, tail: string)
    requires ShapedKids(kids) && LegibleNodes(kids) && GoodLayout(l) && AllWhite(gap) && "</" <= tail
    ensures ParseValue(Some(KidsStart(kids, depth, l, gap, tail)), true) == ParsedKids(ReadNodes(kids), Some(tail), NoError)
    decreases kids, 0
  {
    if kids == [] {
      ValueEnd(tail);
    } else {
      var n, rest := kids[0], kids[1..];
      assert kids == [n] + rest;
      ShapedKidsTail(kids);
      ReadNext(kids);
      var z := KidsStart(rest, depth, l, gap, tail);
      var w := l.lineBreak + KidsLead(rest, depth, l, gap);
      KidsStartSplit(kids, depth, l, gap, tail);
      KidsLeadWhite(rest, depth, l, gap);
      KidsStartReadable(rest, depth, l, gap, tail);
      KidsBack(rest, depth, l, gap, tail);
      if IsPlainText(n) {
        hide ParseValue, Read, ReadNodes, Shaped, LegibleNode;
        PlainTextKid(n, depth, l, w, z);
      } else {
        NodeBack(n, depth, l, w + z);
        hide *;
        ValueNode(PrintCore(n, depth, l) + (w + z), Read(n), w + z);
        ValueSkips(w, z);
      }
    }
  }

  lemma PlainTextKid(n: Node, depth: nat, l: Layout, w: string, z: string)
    requires IsPlainText(n) && Shaped(n) && LegibleNode(n) && AllWhite(w)
    requires |z| >= 2 && z[0] == '<'
    ensures var u := ParseValue(Some(z), true);
            ParseValue(Some(PrintCore(n, depth, l) + (w + z)), true) == ParsedKids(ReadOne(n) + u.kids, u.rest, u.error)
  {
    var v := n.value;
    assert PrintCore(n, depth, l) == Encode(v);
    hide ParseValue, StartsText, Encode, SkipWhite, Legible, TextReading;
    TextReadable(v, w + z);
    TextBack(v, w, z);
    var r := Encode(DropBlanks(v)) + (w + z);
    ValueText(r, TextReading(v), z);
    StartsTextSkips(r, TextReading(v), z);
    ValueSame(Encode(v) + (w + z), r);
  }

  lemma StartsTextSkips(r: string, value: string, z: string)
    requires StartsText(r, value, z)
    ensures SkipWhite(r) == r && r != ""
  {
  }

  lemma KidsStartSplit(kids: seq<Node>, depth: nat, l: Layout, gap: string, tail: string)
    requires kids != []
    ensures KidsStart(kids, depth, l, gap, tail)
         == PrintCore(kids[0], depth, l)
            + (l.lineBreak + KidsLead(kids[1..], depth, l, gap) + KidsStart(kids[1..], depth, l, gap, tail))
  {
    KidsTextSplit(kids[1..], depth, l, gap, tail);
    var lead, z := KidsLead(kids[1..], depth, l, gap), KidsStart(kids[1..], depth, l, gap, tail);
    var c, t := PrintCore(kids[0], depth, l), KidsText(kids[1..], depth, l, gap, tail);
    assert KidsStart(kids, depth, l, gap, tail) == c + (l.lineBreak + t);
    hide *;
    ConcatAssoc(l.lineBreak, lead, z);
  }

  lemma KidsLeadWhite(kids: seq<Node>, depth: nat, l: Layout, gap: string)
    requires GoodLayout(l) && AllWhite(gap)
    ensures AllWhite(l.lineBreak + KidsLead(kids, depth, l, gap))
  {
    hide Indent;
    IndentWhite(l, depth);
  }

  /** A printed node that is not plain text is read as it reads, whatever follows it. */
  lemma {:induction false} NodeBack(n: Node, depth: nat, l: Layout, x: string)
    requires Shaped(n) && LegibleNode(n) && !IsPlainText(n) && GoodLayout(l)
    ensures StartsNode(PrintCore(n, depth, l) + x, Read(n), x)
    decreases n, 2
  {
    match n
    case Comment(value) =>
      LacksCut(value, COMMENT_END);
      CommentBack(CString(value), x);
    case Text(value, _) =>
      LacksCut(value, CDATA_END);
      CDataBack(CString(value), x);
    case Unknown(value) =>
      GoodUnknownCut(value);
      UnknownBack(CString(value), x);
    case Element(name, attrs, kids) => ElementBack(n, depth, l, x);
  }

  lemma {:induction false} NameWhole(s: string)
    requires forall i :: 0 <= i < |s| ==> IsNameChar(s[i])
    ensures CString(s) == s
  {
    if s != "" {
      NameWhole(s[1..]);
    }
  }

  lemma ElementFacts(n: Node)
    requires n.Element? && Shaped(n) && LegibleNode(n)
    ensures IsName(n.name) && NamedAttrs(n.attrs) && ShapedKids(n.kids) && CString(n.name) == n.name
    ensures LegibleAttrs(n.attrs) && LegibleNodes(n.kids)
    ensures Read(n) == Element(n.name, ReadAttrs(n.attrs), ReadNodes(n.kids))
    ensures n.kids == [] ==> ReadNodes(n.kids) == []
  {
    NameWhole(n.name);
  }

  lemma {:induction false} ElementBack(n: Node, depth: nat, l: Layout, x: string)
    requires n.Element? && Shaped(n) && LegibleNode(n) && GoodLayout(l)
    ensures StartsNode(PrintCore(n, depth, l) + x, Read(n), x)
    decreases n, 1
  {
    ElementFacts(n);
    var attrs := ReadAttrs(n.attrs);
    if n.kids == [] {
      hide *;
      EmptyTagUnfold(n.name, attrs, x);
      CoreSplitEmpty(n, depth, l, x);
      TagBack(n.name, n.attrs, Read(n), " />" + x, PrintCore(n, depth, l) + x, x);
    } else {
      var end := "</" + n.name + ">" + x;
      ContentBack(n, depth, l, end);
      hide *;
      OpenTagUnfold(n.name, attrs, PrintContent(n, depth, l), ReadNodes(n.kids), x);
      CoreSplit(n, depth, l, x);
      TagBack(n.name, n.attrs, Read(n), ">" + (PrintContent(n, depth, l) + end), PrintCore(n, depth, l) + x, x);
    }
  }

  /** What is read between the tags of an element with children. */
  lemma {:induction false} ContentBack(n: Node, depth: nat, l: Layout, end: string)
    requires n.Element? && n.kids != [] && Shaped(n) && LegibleNode(n) && GoodLayout(l) && "</" <= end
    ensures ParseValue(Some(PrintContent(n, depth, l) + end), true) == ParsedKids(ReadNodes(n.kids), Some(end), NoError)
    decreases n, 0
  {
    ElementFacts(n);
    if IsSimple(n) {
      SimpleBack(n, depth, l, end);
    } else {
      IndentWhite(l, depth);
      var gap := Indent(l, depth);
      KidsBack(n.kids, depth + 1, l, gap, end);
      KidsTextSplit(n.kids, depth + 1, l, gap, end);
      KidsStartReadable(n.kids, depth + 1, l, gap, end);
      KidsLeadWhite(n.kids, depth + 1, l, gap);
      ContentSplit(n, depth, l, end);
      hide *;
      ValueSkips(l.lineBreak + KidsLead(n.kids, depth + 1, l, gap), KidsStart(n.kids, depth + 1, l, gap, end));
    }
  }

  lemma SimpleBack(n: Node, depth: nat, l: Layout, end: string)
    requires IsSimple(n) && ShapedKids(n.kids) && LegibleNodes(n.kids) && "</" <= end
    ensures ParseValue(Some(PrintContent(n, depth, l) + end), true) == ParsedKids(ReadNodes(n.kids), Some(end), NoError)
  {
    var t := n.kids[0];
    assert t in n.kids && n.kids == [t];
    assert end[0] == '<';
    ReadNext(n.kids);
    assert ReadNodes(n.kids[1..]) == [];
    assert PrintCore(t, depth, l) == PrintContent(n, depth, l);
    hide ParseValue, Encode, ReadNodes, ReadOne, LegibleNode;
    ValueEnd(end);
    PlainTextKid(t, depth, l, "", end);
    assert "" + end == end;
  }

  lemma ContentSplit(n: Node, depth: nat, l: Layout, end: string)
    requires n.Element? && n.kids != [] && !IsSimple(n)
    ensures PrintContent(n, depth, l) + end
         == l.lineBreak + KidsLead(n.kids, depth + 1, l, Indent(l, depth))
            + KidsStart(n.kids, depth + 1, l, Indent(l, depth), end)
  {
    var gap := Indent(l, depth);
    KidsTextSplit(n.kids, depth + 1, l, gap, end);
    var k := PrintKids(n.kids, depth + 1, l);
    var b := l.lineBreak;
    assert PrintContent(n, depth, l) == b + k + gap;
    assert KidsText(n.kids, depth + 1, l, gap, end) == k + (gap + end);
    var lead, z := KidsLead(n.kids, depth + 1, l, gap), KidsStart(n.kids, depth + 1, l, gap, end);
    hide *;
    ConcatAll("", b, k, gap, end);
    assert "" + b == b && "" + (b + (k + (gap + end))) == b + (k + (gap + end));
    ConcatAssoc(b, lead, z);
  }

  /** An element whose tag loop reads `y` as `m` is read as `m` from its start tag on. */
  lemma TagBack(name: string, attrs: seq<Attr>, m: Node, y: string, r: string, x: string)
    requires m.Element? && IsName(name) && NamedAttrs(attrs) && LegibleAttrs(attrs)
    requires r == "<" + (name + (PrintAttrs(Walk(attrs)) + y))
    requires y != "" && (y[0] == ' ' || y[0] == '>')
    requires ParseTag(name, ReadAttrs(attrs), y, true) == Parsed(m, Some(x), NoError)
    ensures StartsNode(r, m, x)
  {
    NotNameChars();
    assert [] + attrs == attrs;
    hide *;
    WalkNamed(attrs);
    assert [] + ReadAttrs(attrs) == ReadAttrs(attrs);
    AttrsBack(name, [], attrs, y);
    AttrsStart(attrs, y);
    ElementUnfold(name, PrintAttrs(attrs) + y);
    NodeIsElement(name, PrintAttrs(attrs) + y, m, x);
  }

  lemma NotNameChars()
    ensures !IsNameChar(' ') && !IsNameChar('>')
  {
  }

  lemma CoreSplitEmpty(n: Node, depth: nat, l: Layout, x: string)
    requires n.Element? && n.kids == [] && CString(n.name) == n.name
    ensures PrintCore(n, depth, l) + x == "<" + (n.name + (PrintAttrs(Walk(n.attrs)) + (" />" + x)))
  {
    var a := PrintAttrs(Walk(n.attrs));
    assert PrintCore(n, depth, l) == ("<" + n.name + a) + " />";
    hide *;
    ConcatRight("<", n.name, a, " />", x);
  }

  lemma CoreSplit(n: Node, depth: nat, l: Layout, x: string)
    requires n.Element? && n.kids != [] && CString(n.name) == n.name
    ensures PrintCore(n, depth, l) + x
         == "<" + (n.name + (PrintAttrs(Walk(n.attrs)) + (">" + (PrintContent(n, depth, l) + ("</" + n.name + ">" + x)))))
  {
    var a := PrintAttrs(Walk(n.attrs));
    var c := PrintContent(n, depth, l);
    var e := "</" + n.name + ">";
    assert PrintCore(n, depth, l) == ("<" + n.name + a) + ">" + c + "</" + n.name + ">";
    hide *;
    ConcatAssoc(("<" + n.name + a) + ">" + c + "</", n.name, ">");
    ConcatAssoc(("<" + n.name + a) + ">" + c, "</", n.name + ">");
    ConcatAssoc("</", n.name, ">");
    ConcatAssoc(("<" + n.name + a) + ">" + c, e, x);
    ConcatAssoc(("<" + n.name + a) + ">", c, e + x);
    ConcatRight("<", n.name, a, ">", c + (e + x));
  }

  lemma ConcatRight(a: string, b: string, c: string, d: string, e: string)
    ensures a + b + c + d + e == a + (b + (c + (d + e)))
  {
    ConcatAssoc(a + b + c, d, e);
    ConcatAssoc(a + b, c, d + e);
    ConcatAssoc(a, b, c + (d + e));
  }

  lemma WalkNamed(attrs: seq<Attr>)
    requires NamedAttrs(attrs)
    ensures Walk(attrs) == attrs
  {
    forall i | 1 <= i < |attrs| ensures attrs[i] != Attr("", "") {
      assert IsName(attrs[i].name);
    }
    WalkCompleteIff(attrs);
  }

  lemma AttrsStart(attrs: seq<Attr>, y: string)
    requires y != "" && !IsNameChar(y[0])
    ensures var r := PrintAttrs(attrs) + y; r != "" && !IsNameChar(r[0])
  {
    hide PrintAttr;
  }

  lemma NodeIsElement(name: string, r: string, n: Node, x: string)
    requires IsName(name) && n.Element?
    requires ParseElement("<" + (name + r), true) == Parsed(n, Some(x), NoError)
    ensures StartsNode("<" + (name + r), n, x)
  {
    hide ParseElement;
    var s := "<" + (name + r);
    assert s[1] == name[0];
    IdentifyElement(s);
    hide Identify;
  }

  lemma IdentifyElement(s: string)
    requires |s| > 1 && s[0] == '<' && IsNameStart(s[1])
    ensures Identify(s).ElementKind? && !("</" <= s)
  {
    assert s[1] != '?' && s[1] != '!' && s[1] != '/';
  }

  // ----- documents

  /** Nodes that can stand at the top of a document. */
  predicate ShapedNodes(nodes: seq<Node>) {
    forall n :: n in nodes ==> Shaped(n) && !IsPlainText(n)
  }

  lemma {:induction false} NodesBack(nodes: seq<Node>, l: Layout, w: string)
    requires ShapedNodes(nodes) && LegibleNodes(nodes) && GoodLayout(l) && AllWhite(w)
    ensures var v := ParseNodes(SkipWhiteSpace(Some(w + PrintKids(nodes, 0, l))), true);
            v.kids == ReadNodes(nodes) && v.error == NoError && !Readable(v.rest)
    decreases nodes
  {
    if nodes == [] {
      SkipWhiteOver(w, "");
    } else {
      var n, rest := nodes[0], nodes[1..];
      assert n in nodes && nodes == [n] + rest;
      var x := l.lineBreak + PrintKids(rest, 0, l);
      var r := PrintCore(n, 0, l) + x;
      FirstNode(nodes, l);
      ReadNext(nodes);
      NodeBack(n, 0, l, x);
      NodesBack(rest, l, l.lineBreak);
      hide *;
      StartsNodeFacts(r, Read(n), x);
      SkipWhiteOver(w, r);
      NodesUnfold(w + r, r, Read(n), x);
    }
  }

  lemma FirstNode(nodes: seq<Node>, l: Layout)
    requires nodes != []
    ensures PrintKids(nodes, 0, l) == PrintCore(nodes[0], 0, l) + (l.lineBreak + PrintKids(nodes[1..], 0, l))
  {
    hide PrintCore;
    var c := PrintCore(nodes[0], 0, l);
    assert Indent(l, 0) + c + l.lineBreak == c + l.lineBreak;
    ConcatAssoc(c, l.lineBreak, PrintKids(nodes[1..], 0, l));
  }

  lemma StartsNodeFacts(r: string, n: Node, x: string)
    requires StartsNode(r, n, x)
    ensures r != "" && r[0] == '<' && !IsWhite(r[0])
  {
  }

  lemma NodesUnfold(s: string, r: string, n: Node, x: string)
    requires StartsNode(r, n, x) && SkipWhite(s) == r && s != ""
    ensures var u := ParseNodes(SkipWhiteSpace(Some(x)), true);
            ParseNodes(SkipWhiteSpace(Some(s)), true) == ParsedKids([n] + u.kids, u.rest, u.error)
  {
    hide ParseNode;
  }

  /** Printing a document of well-shaped, legible nodes with any white layout and parsing the text gives the nodes as
      they read, with no error and nothing left to read. */
  lemma DocumentReads(nodes: seq<Node>, l: Layout)
    requires nodes != [] && ShapedNodes(nodes) && LegibleNodes(nodes) && GoodLayout(l)
    ensures var v := ParseDocument(PrintDocument(nodes, l), true);
            v.kids == ReadNodes(nodes) && v.error == NoError && !Readable(v.rest)
  {
    NodesBack(nodes, l, "");
    assert "" + PrintKids(nodes, 0, l) == PrintKids(nodes, 0, l);
    CoreStart(nodes[0], 0, l);
    ReadNext(nodes);
    hide PrintCore;
    hide ParseNodes;
    hide Read;
    FirstNode(nodes, l);
  }

  // ----- the printed text is a C string

  lemma EncodeCharPlain(c: char)
    ensures NUL !in EncodeChar(c)
  {
  }

  lemma {:induction false} EncodePlain(s: string)
    requires Legible(s)
    ensures NUL !in Encode(s)
    decreases |s|
  {
    hide EncodeChar, SpellsNumber;
    if s != "" {
      if "&#x" <= s {
        var k := IndexOf(s, ';');
        EncodeClosedReference(s, k);
        EncodePlain(s[k + 1..]);
        hide Encode;
        assert s[..k + 1] == s[..k] + [s[k]];
      } else {
        EncodeCharPlain(s[0]);
        EncodePlain(s[1..]);
      }
    }
  }

  lemma {:induction false} WhitePlain(s: string)
    requires AllWhite(s)
    ensures NUL !in s
  {
  }

  lemma {:induction false} AttrsPlain(attrs: seq<Attr>)
    requires LegibleAttrs(attrs) && forall i :: 0 <= i < |attrs| ==> IsName(attrs[i].name)
    ensures NUL !in PrintAttrs(attrs)
  {
    hide IsNameChar, Encode, Legible, Quote;
    if attrs != [] {
      assert forall i :: 0 <= i < |attrs[1..]| ==> attrs[1..][i] == attrs[i + 1];
      AttrsPlain(attrs[1..]);
      EncodePlain(attrs[0].value);
      EncodeName(attrs[0].name);
      NamePlain(attrs[0].name);
    }
  }

  lemma NamePlain(name: string)
    requires IsName(name)
    ensures NUL !in name
  {
  }

  lemma {:induction false} NodePlain(n: Node, depth: nat, l: Layout)
    requires Shaped(n) && LegibleNode(n) && GoodLayout(l)
    ensures NUL !in PrintNode(n, depth, l)
    decreases n, 2
  {
    IndentWhite(l, depth);
    WhitePlain(Indent(l, depth));
    WhitePlain(l.lineBreak);
    hide Encode, Indent;
    match n
    case Element(_, _, _) =>
      ElementPlain(n, depth, l);
      hide PrintCore;
    case Text(value, cdata) =>
      if !cdata {
        EncodePlain(value);
      }
    case Comment(_) =>
    case Unknown(_) =>
  }

  lemma {:induction false} ElementPlain(n: Node, depth: nat, l: Layout)
    requires n.Element? && Shaped(n) && LegibleNode(n) && GoodLayout(l)
    ensures NUL !in PrintCore(n, depth, l)
    decreases n, 1
  {
    ElementFacts(n);
    NamePlain(n.name);
    WalkNamed(n.attrs);
    AttrsPlain(n.attrs);
    var a := PrintAttrs(n.attrs);
    if n.kids != [] {
      ContentPlain(n, depth, l);
      var c, e := PrintContent(n, depth, l), CString(n.name);
      assert PrintCore(n, depth, l) == ("<" + e + a) + ">" + c + "</" + e + ">";
    } else {
      assert PrintCore(n, depth, l) == ("<" + CString(n.name) + a) + " />";
    }
    hide *;
  }

  lemma {:induction false} ContentPlain(n: Node, depth: nat, l: Layout)
    requires n.Element? && n.kids != [] && ShapedKids(n.kids) && LegibleNodes(n.kids) && GoodLayout(l)
    ensures NUL !in PrintContent(n, depth, l)
    decreases n, 0
  {
    assert n.kids[0] in n.kids;
    IndentWhite(l, depth);
    WhitePlain(Indent(l, depth));
    WhitePlain(l.lineBreak);
    if IsSimple(n) {
      SimplePlain(n.kids[0]);
    } else {
      KidsPlain(n.kids, depth + 1, l);
    }
    hide Encode, Indent, PrintKids, Shaped, LegibleNode;
  }

  lemma SimplePlain(n: Node)
    requires IsPlainText(n) && LegibleNode(n)
    ensures NUL !in Encode(n.value)
  {
    EncodePlain(n.value);
  }

  lemma {:induction false} KidsPlain(kids: seq<Node>, depth: nat, l: Layout)
    requires (forall k :: k in kids ==> Shaped(k)) && LegibleNodes(kids) && GoodLayout(l)
    ensures NUL !in PrintKids(kids, depth, l)
    decreases kids, 0
  {
    hide PrintNode, Shaped, LegibleNode;
    if kids != [] {
      assert kids[0] in kids;
      NodePlain(kids[0], depth, l);
      KidsPlain(kids[1..], depth, l);
    }
  }

  /** The text printed for well-shaped, legible nodes holds no terminator, so it is read to its end. */
  lemma DocumentPlain(nodes: seq<Node>, l: Layout)
    requires ShapedNodes(nodes) && LegibleNodes(nodes) && GoodLayout(l)
    ensures CString(PrintDocument(nodes, l)) == PrintDocument(nodes, l)
  {
    KidsPlain(nodes, 0, l);
  }

  // ----- the trees that read as themselves

  /** No `&#x` in an attribute value or a plain text, blanks condensed, and no terminator in the other leaves. */
  predicate Survives(n: Node) {
    match n
    case Element(_, attrs, kids) =>
      && (forall i :: 0 <= i < |attrs| ==> NoHexRef(attrs[i].value))
      && forall k :: k in kids ==> Survives(k)
    case Text(value, cdata) => if cdata then NUL !in value else NoHexRef(value) && CondenseBlanks(value) == value
    case Comment(value) => NUL !in value
    case Unknown(value) => NUL !in value
  }

  predicate Good(n: Node) {
    Shaped(n) && Survives(n)
  }

  lemma {:induction false} SurvivorsLegible(n: Node)
    requires Survives(n)
    ensures LegibleNode(n)
  {
    match n
    case Element(_, attrs, kids) =>
      forall i | 0 <= i < |attrs| ensures Legible(attrs[i].value) {
        PlainReading(attrs[i].value, false);
      }
      forall k | k in kids ensures LegibleNode(k) {
        SurvivorsLegible(k);
      }
    case Text(value, cdata) =>
      if !cdata {
        PlainReading(value, false);
      }
    case Comment(_) =>
    case Unknown(_) =>
  }

  /** A well-shaped, legible node reads as itself exactly when its values survive. */
  lemma {:induction false} ReadIff(n: Node)
    requires Shaped(n) && LegibleNode(n)
    ensures Read(n) == n <==> Survives(n)
    ensures Survives(n) ==> !Dropped(n)
  {
    hide CString, Reading, TextReading, Legible, NoHexRef, CondenseBlanks, AllWhite, Lacks, GoodUnknown, IsName;
    match n
    case Element(_, attrs, kids) =>
      AttrsIff(attrs);
      forall k | k in kids ensures Shaped(k) && LegibleNode(k) && (Read(k) == k <==> Survives(k)) && (Survives(k) ==> !Dropped(k)) {
        ReadIff(k);
      }
      hide Survives, Shaped, LegibleNode;
      NodesIff(kids);
    case Text(value, cdata) =>
      if cdata {
        CStringIff(value);
      } else {
        TextReadingIff(value);
      }
    case Comment(value) => CStringIff(value);
    case Unknown(value) => CStringIff(value);
  }

  lemma AttrsIff(attrs: seq<Attr>)
    requires LegibleAttrs(attrs)
    ensures ReadAttrs(attrs) == attrs <==> forall i :: 0 <= i < |attrs| ==> NoHexRef(attrs[i].value)
  {
    hide NoHexRef, Reading, Legible;
    forall i | 0 <= i < |attrs| ensures ReadAttr(attrs[i]) == attrs[i] <==> NoHexRef(attrs[i].value) {
      ReadingIff(attrs[i].value);
    }
    var r := ReadAttrs(attrs);
    assert forall i :: 0 <= i < |attrs| ==> r[i] == ReadAttr(attrs[i]);
    assert r == attrs <==> forall i :: 0 <= i < |attrs| ==> r[i] == attrs[i];
  }

  /** As nothing is added, a sequence of nodes reads as itself exactly when each of them does. */
  lemma {:induction false} NodesIff(nodes: seq<Node>)
    requires LegibleNodes(nodes)
    requires forall n :: n in nodes ==> (Read(n) == n <==> Survives(n)) && (Survives(n) ==> !Dropped(n))
    ensures ReadNodes(nodes) == nodes <==> forall n :: n in nodes ==> Survives(n)
  {
    hide Read, Survives, Dropped, LegibleNode;
    if nodes != [] {
      var n, rest := nodes[0], nodes[1..];
      assert n in nodes && nodes == [n] + rest;
      NodesIff(rest);
      ReadNodesHead(nodes);
    }
  }

  lemma ReadNodesHead(nodes: seq<Node>)
    requires LegibleNodes(nodes) && nodes != []
    ensures LegibleNode(nodes[0]) && LegibleNodes(nodes[1..])
    ensures ReadNodes(nodes) == nodes <==>
            !Dropped(nodes[0]) && Read(nodes[0]) == nodes[0] && ReadNodes(nodes[1..]) == nodes[1..]
  {
    hide Read, Dropped;
    var n, rest := nodes[0], nodes[1..];
    assert nodes == [n] + rest;
    var r, t := ReadOne(n), ReadNodes(rest);
    assert ReadNodes(nodes) == r + t;
    if r == [] {
      assert |r + t| < |nodes|;
    } else {
      assert r == [r[0]];
      assert (r + t)[0] == r[0] && (r + t)[1..] == t;
    }
  }

  /** The nodes of a document read as themselves exactly when they survive. */
  lemma DocumentIff(nodes: seq<Node>)
    requires ShapedNodes(nodes) && LegibleNodes(nodes)
    ensures ReadNodes(nodes) == nodes <==> forall n :: n in nodes ==> Survives(n)
  {
    hide Shaped, Survives, Read, Dropped;
    forall n | n in nodes ensures (Read(n) == n <==> Survives(n)) && (Survives(n) ==> !Dropped(n)) {
      ReadIff(n);
    }
    NodesIff(nodes);
  }

  /** Top-level nodes: at least one, and no plain text among them. */
  predicate GoodDocument(nodes: seq<Node>) {
    nodes != [] && forall n :: n in nodes ==> Good(n) && !IsPlainText(n)
  }

  /** Printing a document with any white layout and parsing the text gives the same nodes, with no error
      and nothing left to read. */
  lemma DocumentBack(nodes: seq<Node>, l: Layout)
    requires GoodDocument(nodes) && GoodLayout(l)
    ensures var v := ParseDocument(PrintDocument(nodes, l), true);
            v.kids == nodes && v.error == NoError && !Readable(v.rest)
  {
    forall n | n in nodes ensures LegibleNode(n) {
      SurvivorsLegible(n);
    }
    hide Shaped, Survives, Read, ParseDocument, PrintDocument;
    DocumentIff(nodes);
    DocumentReads(nodes, l);
  }
}
