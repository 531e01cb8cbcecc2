/** What the parser accepts: where it stops, which elements it takes as closed,
    when it records an error, and which trees it can build. */
module XmlAccept {
  import opened XmlChars
  import opened XmlText
  import opened XmlTree
  import opened XmlPrint
  import opened XmlParse
  import opened XmlRoundTrip

  // ----- every pointer lies inside the input

  /** `t` is the end of `r`. */
  predicate Suffix(t: string, r: string) {
    |t| <= |r| && r[|r| - |t|..] == t
  }

  /** A pointer that is null or inside `r`. */
  predicate Inside(p: Ptr, r: string) {
    p.Some? ==> Suffix(p.value, r)
  }

  lemma SuffixTrans(t: string, s: string, r: string)
    requires Suffix(t, s) && Suffix(s, r)
    ensures Suffix(t, r)
  {
    assert s[|s| - |t|..] == r[|r| - |s|..][|s| - |t|..];
  }

  lemma InsideTrans(p: Ptr, s: string, r: string)
    requires Inside(p, s) && Suffix(s, r)
    ensures Inside(p, r)
  {
    if p.Some? {
      SuffixTrans(p.value, s, r);
    }
  }

  lemma SkipInside(p: Ptr, r: string)
    requires Inside(p, r)
    ensures Inside(SkipWhiteSpace(p), r)
  {
    if Readable(p) {
      SkipWhiteSplits(p.value);
      SuffixTrans(SkipWhite(p.value), p.value, r);
    }
  }

  lemma NameInside(r: string)
    ensures Inside(ReadName(r).rest, r)
  {
    hide NameSpan;
  }

  lemma CharInside(r: string)
    requires r != ""
    ensures Inside(GetChar(r).rest, r)
  {
    hide ReadNumericRef;
  }

  lemma {:induction false} KeepInside(r: string, end: string)
    ensures Inside(ReadKeep(r, end).rest, r)
    decreases |r|
  {
    if r != "" && !(end <= r) {
      CharInside(r);
      hide GetChar;
      var c := GetChar(r);
      if c.rest.Some? {
        KeepInside(c.rest.value, end);
        InsideTrans(ReadKeep(c.rest.value, end).rest, c.rest.value, r);
      }
    }
  }

  lemma {:induction false} TrimInside(r: string, gap: bool, end: string)
    ensures Inside(ReadTrim(r, gap, end).rest, r)
    decreases |r|
  {
    if r != "" && !(end <= r) {
      if IsWhite(r[0]) {
        TrimInside(r[1..], true, end);
        InsideTrans(ReadTrim(r[1..], true, end).rest, r[1..], r);
      } else {
        CharInside(r);
        hide GetChar;
        var c := GetChar(r);
        if c.rest.Some? {
          TrimInside(c.rest.value, false, end);
          InsideTrans(ReadTrim(c.rest.value, false, end).rest, c.rest.value, r);
        }
      }
    }
  }

  lemma PastEndInside(p: Ptr, end: string, r: string)
    requires Inside(p, r) && (Readable(p) ==> end <= p.value)
    ensures Inside(PastEnd(p, end), r)
  {
    if Readable(p) {
      SuffixTrans(p.value[|end|..], p.value, r);
    }
  }

  lemma TextInside(r: string, trim: bool, condense: bool, end: string)
    ensures Inside(ReadText(r, trim, condense, end).rest, r)
  {
    hide ReadKeep;
    hide ReadTrim;
    hide PastEnd;
    hide SkipWhite;
    if !trim || !condense {
      KeepInside(r, end);
      PastEndInside(ReadKeep(r, end).rest, end, r);
    } else if r != "" {
      var s := SkipWhite(r);
      SkipInside(Some(r), r);
      TrimInside(s, false, end);
      InsideTrans(ReadTrim(s, false, end).rest, s, r);
      PastEndInside(ReadTrim(s, false, end).rest, end, r);
    }
  }

  lemma AttributeInside(r: string)
    ensures Inside(ParseAttribute(r).rest, r)
  {
    hide ReadText;
    hide ReadName;
    hide UnquotedSpan;
    var p := SkipWhiteSpace(Some(r));
    SkipInside(Some(r), r);
    hide SkipWhite;
    if Readable(p) {
      var n := ReadName(p.value);
      NameInside(p.value);
      InsideTrans(n.rest, p.value, r);
      if Readable(n.rest) {
        var q := SkipWhiteSpace(n.rest);
        SkipInside(n.rest, r);
        if Readable(q) && q.value[0] == '=' {
          SuffixTrans(q.value[1..], q.value, r);
          var v := SkipWhiteSpace(Some(q.value[1..]));
          SkipInside(Some(q.value[1..]), r);
          if Readable(v) {
            AttrValueInside(n.name, v.value);
            InsideTrans(ParseAttrValue(n.name, v.value).rest, v.value, r);
          }
        }
      }
    }
  }

  lemma AttrValueInside(name: string, r: string)
    requires r != ""
    ensures Inside(ParseAttrValue(name, r).rest, r)
  {
    hide ReadText;
    hide UnquotedSpan;
    if IsQuote(r[0]) {
      TextInside(r[1..], false, true, [r[0]]);
      InsideTrans(ReadText(r[1..], false, true, [r[0]]).rest, r[1..], r);
    }
  }

  /** An attribute that is read has a name. */
  lemma AttributeNamed(r: string)
    ensures ParseAttribute(r).rest.Some? ==> IsName(ParseAttribute(r).attr.name)
  {
    hide ReadText;
    hide UnquotedSpan;
  }

  // ----- the trees that can be built

  predicate EndsWith(s: string, t: string) {
    |t| <= |s| && s[|s| - |t|..] == t
  }

  /** The text `s` of an element ends in `/>`, and then it has no children, or in an end tag with its name. */
  ghost predicate Closed(n: Node, s: string)
    requires n.Element?
  {
    || (n.kids == [] && EndsWith(s, "/>"))
    || exists w :: AllWhite(w) && EndsWith(s, "</" + n.name + w + ">")
  }

  /** What one call of `Parse` on a node guarantees. */
  ghost predicate Sound(r: string, p: Parsed) {
    && Inside(p.rest, r)
    && (p.rest.Some? ==> p.error == NoError)
    && (p.node.Element? && p.error == NoError ==> p.rest.Some?)
    && (p.error == NoError ==> Shaped(p.node) && !IsPlainText(p.node))
    && (p.node.Element? && p.rest.Some? ==> Closed(p.node, r[..|r| - |p.rest.value|]))
  }

  lemma LacksUpTo(r: string, end: string)
    ensures Lacks(r[..Until(r, end)], end)
  {
    var k := Until(r, end);
    hide Until;
    forall i | 0 <= i < k ensures !(end <= r[..k][i..]) {
      assert r[..k][i..] <= r[i..];
    }
  }

  lemma CommentSound(r: string)
    requires COMMENT_HEADER <= r
    ensures Sound(r, ParseComment(r))
  {
    hide Until;
    LacksUpTo(r[4..], COMMENT_END);
    hide Lacks;
    var k := Until(r[4..], COMMENT_END);
    if k < |r[4..]| {
      assert r[4..][k + 3..] == r[k + 7..];
    }
  }

  lemma CDataSound(r: string)
    requires CDATA_HEADER <= r
    ensures Sound(r, ParseCData(r))
  {
    hide Until;
    hide ReadText;
    LacksUpTo(r[9..], CDATA_END);
    hide Lacks;
    var k := Until(r[9..], CDATA_END);
    assert r[9..][k..] == r[k + 9..];
    TextInside(r[9..][k..], false, true, CDATA_END);
    InsideTrans(ReadText(r[9..][k..], false, true, CDATA_END).rest, r[k + 9..], r);
  }

  lemma UnknownSound(r: string)
    requires r != "" && r[0] == '<' && Identify(r).UnknownKind?
    ensures Sound(r, ParseUnknown(r))
  {
    hide Until;
    LacksUpTo(r[1..], ">");
    UnknownKindOf(r);
    hide Lacks;
    hide Identify;
    var k := Until(r[1..], ">");
    if k < |r[1..]| {
      assert r[1..][k + 1..] == r[k + 2..];
    }
  }

  /** The kind of an unknown tag is that of its text between `<` and `>`. */
  lemma UnknownKindOf(r: string)
    requires r != "" && r[0] == '<' && Identify(r).UnknownKind?
    ensures Identify("<" + r[1..][..Until(r[1..], ">")] + ">").UnknownKind?
  {
    hide StartsWithNoCase;
    var k := Until(r[1..], ">");
    hide Until;
    hide Identify;
    var pre := r[..k + 1];
    TagPrefix(r, k);
    KindOfPrefix(pre, r);
  }

  lemma TagPrefix(r: string, k: nat)
    requires r != "" && r[0] == '<' && k < |r| && (k < |r[1..]| ==> ">" <= r[1..][k..])
    ensures "<" + r[1..][..k] == r[..k + 1] && r[..k + 1] <= r && r[..k + 1][0] == '<'
    ensures |r| > k + 1 ==> r[k + 1] == '>'
  {
    assert k < |r[1..]| ==> r[1..][k..][0] == '>' && r[1..][k..][0] == r[k + 1];
  }

  lemma HeaderInPrefix(h: string, pre: string)
    requires '>' !in h && h <= pre + ">"
    ensures h <= pre
  {
    assert (pre + ">")[|pre|] == '>';
  }

  lemma KindOfPrefix(pre: string, r: string)
    requires pre != "" && pre[0] == '<' && pre <= r && Identify(r).UnknownKind?
    requires |r| > |pre| ==> r[|pre|] == '>'
    ensures Identify(pre + ">").UnknownKind?
  {
    var s := pre + ">";
    if COMMENT_HEADER <= s {
      HeaderInPrefix(COMMENT_HEADER, pre);
    }
    if CDATA_HEADER <= s {
      HeaderInPrefix(CDATA_HEADER, pre);
    }
    assert StartsWithNoCase(s, "<?xml") ==> StartsWithNoCase(r, "<?xml") by {
      assert forall i :: 0 <= i < |pre| ==> s[i] == pre[i] && r[i] == pre[i];
      assert s[|pre|] == '>';
    }
  }

  // ----- the mutual induction

  lemma {:induction false} NodeSound(r: string, condense: bool)
    requires r != "" && r[0] == '<'
    ensures Sound(r, ParseNode(r, condense))
    decreases |r|, 4
  {
    match Identify(r)
    case DeclarationKind =>
    case CommentKind => CommentSound(r);
    case CDataKind => CDataSound(r);
    case UnknownKind => UnknownSound(r);
    case ElementKind => ElementSound(r, condense);
  }

  lemma {:induction false} ElementSound(r: string, condense: bool)
    ensures Sound(r, ParseElement(r, condense))
    decreases |r|, 3
  {
    var p := SkipWhiteSpace(Some(r));
    if Readable(p) && p.value[0] == '<' && Readable(ReadName(SkipWhite(p.value[1..])).rest) {
      var n := ReadName(SkipWhite(p.value[1..]));
      ElementNameInside(r, p.value);
      TagSound(n.name, [], n.rest.value, condense);
      hide *;
      ElementIsTag(r, p, n, condense);
      SoundTrans(n.rest.value, r, ParseTag(n.name, [], n.rest.value, condense));
    }
  }

  lemma ElementNameInside(r: string, s: string)
    requires SkipWhiteSpace(Some(r)) == Some(s) && s != ""
    ensures Inside(ReadName(SkipWhite(s[1..])).rest, r)
  {
    SkipInside(Some(r), r);
    var q := SkipWhite(s[1..]);
    SkipWhiteSplits(s[1..]);
    NameInside(q);
    hide *;
    SuffixTail(s);
    SuffixSplit(q, s[1..]);
    SuffixTrans(q, s[1..], s);
    InsideUnfold(r, s);
    SuffixTrans(q, s, r);
    InsideTrans(ReadName(q).rest, q, r);
  }

  lemma InsideUnfold(r: string, s: string)
    requires Inside(Some(s), r)
    ensures Suffix(s, r)
  {
  }

  lemma SuffixTail(s: string)
    requires s != ""
    ensures Suffix(s[1..], s)
  {
  }

  lemma SuffixSplit(q: string, s: string)
    requires |q| <= |s| && q == s[|s| - |q|..]
    ensures Suffix(q, s)
  {
  }

  lemma ElementIsTag(r: string, p: Ptr, n: NameRead, condense: bool)
    requires p == SkipWhiteSpace(Some(r)) && Readable(p) && p.value[0] == '<'
    requires n == ReadName(SkipWhite(p.value[1..])) && Readable(n.rest)
    ensures ParseElement(r, condense) == ParseTag(n.name, [], n.rest.value, condense)
  {
    hide ParseTag;
    hide ReadName;
    hide SkipWhite;
  }

  /** What holds of a parse from `s` holds of the same parse seen from a longer text. */
  lemma SoundTrans(s: string, r: string, p: Parsed)
    requires Sound(s, p) && Suffix(s, r)
    ensures Sound(r, p)
  {
    hide Shaped;
    InsideTrans(p.rest, s, r);
    if p.node.Element? && p.rest.Some? {
      var a, b := s[..|s| - |p.rest.value|], r[..|r| - |p.rest.value|];
      assert EndsWith(b, a);
      ClosedTrans(p.node, a, b);
    }
  }

  lemma ClosedTrans(n: Node, a: string, b: string)
    requires n.Element? && Closed(n, a) && EndsWith(b, a)
    ensures Closed(n, b)
  {
    if n.kids == [] && EndsWith(a, "/>") {
      EndsTrans(b, a, "/>");
    } else {
      var w :| AllWhite(w) && EndsWith(a, "</" + n.name + w + ">");
      EndsTrans(b, a, "</" + n.name + w + ">");
    }
  }

  lemma EndsTrans(b: string, a: string, t: string)
    requires EndsWith(b, a) && EndsWith(a, t)
    ensures EndsWith(b, t)
  {
    SuffixTrans(t, a, b);
  }

  lemma {:induction false} TagSound(name: string, attrs: seq<Attr>, r: string, condense: bool)
    requires IsName(name) && NamedAttrs(attrs)
    ensures Sound(r, ParseTag(name, attrs, r, condense))
    decreases |r|, 2
  {
    var p := SkipWhiteSpace(Some(r));
    SkipInside(Some(r), r);
    if !Readable(p) {
    } else if p.value[0] == '/' {
      EmptyTagSound(name, attrs, r, p.value, condense);
    } else if p.value[0] == '>' {
      var s := p.value[1..];
      SuffixTrans(s, p.value, r);
      ValueSound(Some(s), condense);
      hide *;
      OpenTagSound(name, attrs, r, p.value, condense);
    } else {
      var a := ParseAttribute(p.value);
      AttributeInside(p.value);
      InsideTrans(a.rest, p.value, r);
      if Readable(a.rest) && !HasAttr(attrs, a.attr.name) {
        AttributeNamed(p.value);
        NamedAttrsAppend(attrs, a.attr);
        TagSound(name, attrs + [a.attr], a.rest.value, condense);
        hide *;
        TagAttributeStep(name, attrs, r, p, condense);
        SoundTrans(a.rest.value, r, ParseTag(name, attrs + [a.attr], a.rest.value, condense));
      }
    }
  }

  lemma NamedAttrsAppend(attrs: seq<Attr>, a: Attr)
    requires NamedAttrs(attrs) && IsName(a.name) && !HasAttr(attrs, a.name)
    ensures NamedAttrs(attrs + [a])
  {
    assert forall i :: 0 <= i < |attrs| ==> attrs[i].name != a.name;
  }

  lemma TagAttributeStep(name: string, attrs: seq<Attr>, r: string, p: Ptr, condense: bool)
    requires p == SkipWhiteSpace(Some(r)) && Readable(p) && p.value[0] != '/' && p.value[0] != '>'
    requires var a := ParseAttribute(p.value); Readable(a.rest) && !HasAttr(attrs, a.attr.name)
    ensures var a := ParseAttribute(p.value);
            ParseTag(name, attrs, r, condense) == ParseTag(name, attrs + [a.attr], a.rest.value, condense)
  {
    hide ParseAttribute;
    hide SkipWhiteSpace;
    hide HasAttr;
  }

  lemma EmptyTagSound(name: string, attrs: seq<Attr>, r: string, s: string, condense: bool)
    requires IsName(name) && NamedAttrs(attrs)
    requires SkipWhiteSpace(Some(r)) == Some(s) && s != "" && s[0] == '/' && Suffix(s, r)
    ensures Sound(r, ParseTag(name, attrs, r, condense))
  {
    hide SkipWhiteSpace;
    if s[1..] != "" && s[1] == '>' {
      var b := r[..|r| - |s[2..]|];
      SuffixTrans(s[2..], s, r);
      assert r[|r| - |s|..] == s;
      assert b[|b| - 2] == s[0] && b[|b| - 1] == s[1];
      assert EndsWith(b, "/>");
      assert ShapedKids([]);
    }
  }

  lemma OpenTagSound(name: string, attrs: seq<Attr>, r: string, s: string, condense: bool)
    requires IsName(name) && NamedAttrs(attrs)
    requires SkipWhiteSpace(Some(r)) == Some(s) && s != "" && s[0] == '>' && Suffix(s, r)
    requires SoundValue(Some(s[1..]), ParseValue(Some(s[1..]), condense))
    ensures Sound(r, ParseTag(name, attrs, r, condense))
  {
    OpenTagResult(name, attrs, r, s, condense);
    SuffixTail(s);
    SuffixTrans(s[1..], s, r);
    hide *;
    var v := ParseValue(Some(s[1..]), condense);
    OpenTagFrom(name, attrs, r, s[1..], v);
  }

  /** An element with the value `v` read from `t` on. */
  lemma OpenTagFrom(name: string, attrs: seq<Attr>, r: string, t: string, v: ParsedKids)
    requires IsName(name) && NamedAttrs(attrs) && Suffix(t, r) && SoundValue(Some(t), v)
    ensures var end := ParseEndTag(name, v.rest);
            Sound(r, Parsed(Element(name, attrs, v.kids), end, FirstError(v.error, if end.None? then ReadingEndTag else NoError)))
  {
    var end := ParseEndTag(name, v.rest);
    InsideTrans(v.rest, t, r);
    hide ParseEndTag;
    if end.Some? {
      EndTagSound(name, v.rest.value, r);
      ClosedByTag(Element(name, attrs, v.kids), r, end.value);
      EndTagInside(name, r, end.value);
    }
    hide IsName, NamedAttrs, ShapedKids, Closed, EndTagEnds;
  }

  lemma EndTagInside(name: string, r: string, t: string)
    requires EndTagEnds(name, r, t)
    ensures Inside(Some(t), r)
  {
  }

  lemma ClosedByTag(n: Node, r: string, t: string)
    requires n.Element? && EndTagEnds(n.name, r, t)
    ensures |t| <= |r| && Closed(n, r[..|r| - |t|])
  {
    hide EndsWith;
    hide AllWhite;
  }

  lemma OpenTagResult(name: string, attrs: seq<Attr>, r: string, s: string, condense: bool)
    requires SkipWhiteSpace(Some(r)) == Some(s) && s != "" && s[0] == '>'
    ensures var v := ParseValue(Some(s[1..]), condense);
            var end := ParseEndTag(name, v.rest);
            && ParseTag(name, attrs, r, condense) == Parsed(Element(name, attrs, v.kids), end,
                 FirstError(v.error, if end.None? then ReadingEndTag else NoError))
            && (end.Some? ==> v.rest.Some?)
  {
    hide ParseValue;
    hide SkipWhiteSpace;
    hide ParseEndTag;
  }

  /** An end tag that is accepted carries the element's own name. */
  lemma EndTagSplits(name: string, s: string) returns (w: string)
    requires ParseEndTag(name, Some(s)).Some?
    ensures AllWhite(w) && s == ("</" + name + w + ">") + ParseEndTag(name, Some(s)).value
  {
    var e := "</" + name;
    var u := s[|e|..];
    assert s == e + u;
    SkipWhiteSplits(u);
    var q := SkipWhite(u);
    w := u[..|u| - |q|];
    var t := ParseEndTag(name, Some(s)).value;
    assert q == ">" + t;
    hide *;
    assert u == w + q;
    ConcatAssoc(e + w, ">", t);
    ConcatAssoc(e, w, ">" + t);
  }

  lemma EndTagSound(name: string, s: string, r: string)
    requires Suffix(s, r) && ParseEndTag(name, Some(s)).Some?
    ensures EndTagEnds(name, r, ParseEndTag(name, Some(s)).value)
  {
    hide ParseEndTag;
    var t := ParseEndTag(name, Some(s)).value;
    var w := EndTagSplits(name, s);
    hide AllWhite;
    SuffixBefore("</" + name + w + ">", t, s, r);
  }

  /** What `r` has in front of its end `t` ends in an end tag of `name`. */
  ghost predicate EndTagEnds(name: string, r: string, t: string) {
    Suffix(t, r) && exists w :: AllWhite(w) && EndsWith(r[..|r| - |t|], "</" + name + w + ">")
  }

  lemma SuffixBefore(c: string, t: string, s: string, r: string)
    requires s == c + t && Suffix(s, r)
    ensures Suffix(t, r) && EndsWith(r[..|r| - |t|], c)
  {
    var b := r[..|r| - |s|];
    assert r == b + s;
    assert r == (b + c) + t;
    assert r[..|r| - |t|] == b + c;
  }

  /** What `ReadValue` guarantees. */
  ghost predicate SoundValue(p: Ptr, v: ParsedKids) {
    && (v.rest.Some? <==> v.error == NoError)
    && (v.rest.Some? ==> p.Some? && Suffix(v.rest.value, p.value))
    && (v.error == NoError ==> ShapedKids(v.kids))
    && (Readable(p) && p.value[0] == '<' && v.kids != [] && v.error == NoError ==> !IsPlainText(v.kids[0]))
  }

  lemma {:induction false} ValueSound(p: Ptr, condense: bool)
    ensures SoundValue(p, ParseValue(p, condense))
    decreases if p.Some? then |p.value| else 0, 5, if p.Some? then 1 else 0
  {
    var q := SkipWhiteSpace(p);
    if !Readable(q) || "</" <= q.value {
      ValueStopsSound(p, q, condense);
    } else {
      SkipInside(p, p.value);
      if q.value[0] != '<' {
        SkipWhiteStart(p.value);
      }
      hide ParseValue;
      hide SkipWhiteSpace;
      hide Shaped;
      hide ShapedKids;
      hide Closed;
      if q.value[0] != '<' {
        var r := if condense then q.value else p.value;
        var t := ParseText(r, condense);
        hide ParseText;
        TextNodeInside(r, condense);
        InsideTrans(t.rest, r, p.value);
        ValueSound(t.rest, condense);
        TextStepSound(p, q, condense);
      } else {
        var n := ParseNode(q.value, condense);
        NodeSound(q.value, condense);
        hide ParseNode;
        SoundTrans(q.value, p.value, n);
        ValueSound(n.rest, condense);
        NodeNotClosing(q.value, condense);
        NodeStepSound(p, q, condense);
      }
    }
  }

  lemma SkipWhiteStart(r: string)
    requires r != "" && SkipWhite(r) != "" && SkipWhite(r)[0] != '<'
    ensures r[0] != '<' && SkipWhite(SkipWhite(r)) == SkipWhite(r)
  {
    SkipNothing(SkipWhite(r));
  }

  lemma ValueStopsSound(p: Ptr, q: Ptr, condense: bool)
    requires q == SkipWhiteSpace(p) && (!Readable(q) || "</" <= q.value)
    ensures SoundValue(p, ParseValue(p, condense))
  {
    hide ParseNode;
    hide ParseText;
    assert ShapedKids([]);
    if q.Some? {
      SkipInside(p, p.value);
    }
  }

  lemma TextNodeInside(r: string, condense: bool)
    requires SkipWhite(r) != "" && SkipWhite(r)[0] != '<' && r != "" && r[0] != '<'
    ensures Inside(ParseText(r, condense).rest, r)
    ensures ParseText(r, condense).rest.Some? ==> ParseText(r, condense).rest.value != "" && ParseText(r, condense).rest.value[0] == '<'
    ensures ParseText(r, condense).node.Text? && !ParseText(r, condense).node.cdata
    ensures ParseText(r, condense).error == NoError
  {
    var t := ReadText(r, true, condense, "<");
    if t.rest.Some? {
      TextEndsAt(r, condense);
      hide ReadText;
    }
  }

  /** The character in front of the pointer that `ReadText` returns is the end tag. */
  lemma TextEndsAt(r: string, condense: bool)
    requires ReadText(r, true, condense, "<").rest.Some?
    ensures Suffix("<" + ReadText(r, true, condense, "<").rest.value, r)
  {
    var s := SkipWhite(r);
    var at := if !condense then ReadKeep(r, "<").rest else ReadTrim(s, false, "<").rest;
    if condense {
      SkipInside(Some(r), r);
      TrimInside(s, false, "<");
      InsideTrans(at, s, r);
    } else {
      KeepInside(r, "<");
    }
    assert Readable(at) && "<" <= at.value;
    assert at.value == "<" + at.value[1..];
  }

  lemma TextStepSound(p: Ptr, q: Ptr, condense: bool)
    requires p.Some? && q == SkipWhiteSpace(p) && Readable(q) && q.value[0] != '<'
    requires p.value != "" && p.value[0] != '<' && SkipWhite(p.value) != "" && SkipWhite(p.value)[0] != '<'
    requires SkipWhite(q.value) != "" && SkipWhite(q.value)[0] != '<'
    requires var t := ParseText(if condense then q.value else p.value, condense);
             && Inside(t.rest, p.value) && t.error == NoError && IsPlainText(t.node)
             && (t.rest.Some? ==> t.rest.value != "" && t.rest.value[0] == '<')
             && SoundValue(t.rest, ParseValue(t.rest, condense))
    ensures SoundValue(p, ParseValue(p, condense))
  {
    var t := ParseText(if condense then q.value else p.value, condense);
    var v := ParseValue(t.rest, condense);
    var w := ParseValue(p, condense);
    assert w == ParsedKids((if Blank(t.node) then [] else [t.node]) + v.kids, v.rest, v.error);
    hide ParseText;
    hide ParseValue;
    hide SkipWhiteSpace;
    if v.rest.Some? {
      SuffixTrans(v.rest.value, t.rest.value, p.value);
      if Blank(t.node) {
        assert w.kids == v.kids;
      } else {
        ShapedCons(t.node, v.kids);
      }
    }
  }

  lemma ShapedCons(n: Node, kids: seq<Node>)
    requires Shaped(n) && !ClosesTag(n) && ShapedKids(kids)
    requires kids != [] ==> !(IsPlainText(n) && IsPlainText(kids[0]))
    ensures ShapedKids([n] + kids)
  {
    var all := [n] + kids;
    forall i | 0 <= i < |all| - 1 ensures !(IsPlainText(all[i]) && IsPlainText(all[i + 1])) {
      assert i > 0 ==> all[i] == kids[i - 1];
      assert all[i + 1] == kids[i];
    }
  }

  /** A node in front of which there is no end tag does not look like one. */
  lemma NodeNotClosing(r: string, condense: bool)
    requires r != "" && r[0] == '<' && !("</" <= r)
    ensures !ClosesTag(ParseNode(r, condense).node)
  {
    hide ParseElement;
    if Identify(r).UnknownKind? {
      hide Identify;
      var k := Until(r[1..], ">");
      hide Until;
      if k > 0 {
        assert r[1..][..k][0] == r[1];
        assert r[1] == '/' ==> "</" <= r;
      }
    }
  }

  lemma NodeStepSound(p: Ptr, q: Ptr, condense: bool)
    requires p.Some? && q == SkipWhiteSpace(p) && Readable(q) && q.value[0] == '<' && !("</" <= q.value)
    requires var n := ParseNode(q.value, condense);
             Sound(p.value, n) && !ClosesTag(n.node) && SoundValue(n.rest, ParseValue(n.rest, condense))
    ensures SoundValue(p, ParseValue(p, condense))
  {
    var n := ParseNode(q.value, condense);
    var v := ParseValue(n.rest, condense);
    var w := ParseValue(p, condense);
    assert w == ParsedKids([n.node] + v.kids, v.rest, FirstError(n.error, v.error));
    hide ParseNode;
    hide ParseValue;
    hide SkipWhiteSpace;
    hide Shaped;
    hide Closed;
    if v.rest.Some? {
      SuffixTrans(v.rest.value, n.rest.value, p.value);
      ShapedCons(n.node, v.kids);
    }
  }

  // ----- documents

  lemma {:induction false} NodesSound(p: Ptr, condense: bool)
    ensures var v := ParseNodes(p, condense); v.error == NoError ==> ShapedNodes(v.kids)
    ensures p.Some? ==> Inside(ParseNodes(p, condense).rest, p.value)
    ensures p.None? ==> ParseNodes(p, condense).rest.None?
    decreases if p.Some? then |p.value| else 0
  {
    hide ParseNode;
    hide Shaped;
    if Readable(p) && p.value[0] == '<' {
      var n := ParseNode(p.value, condense);
      NodeSound(p.value, condense);
      var q := SkipWhiteSpace(n.rest);
      SkipInside(n.rest, p.value);
      hide SkipWhiteSpace;
      NodesSound(q, condense);
      if q.Some? {
        InsideTrans(ParseNodes(q, condense).rest, q.value, p.value);
      }
    }
  }

  /** A document parsed without error holds well-shaped nodes only, and the parser stops inside the input. */
  lemma DocumentSound(r: string, condense: bool)
    ensures var v := ParseDocument(r, condense);
            && Inside(v.rest, r)
            && (v.error == NoError ==> v.kids != [] && ShapedNodes(v.kids))
  {
    hide ParseNodes;
    var p := SkipWhiteSpace(Some(r));
    SkipInside(Some(r), r);
    NodesSound(p, condense);
    if p.Some? {
      InsideTrans(ParseNodes(p, condense).rest, p.value, r);
    }
  }

  // ----- which trees come back from printing

  /** A legible node reads as itself, well shaped, exactly when it is good. */
  lemma GoodIff(n: Node)
    requires LegibleNode(n)
    ensures Good(n) <==> Shaped(n) && Read(n) == n
  {
    if Shaped(n) {
      ReadIff(n);
    }
  }

  /** Any document read without error, its references legible, can be printed in another white layout and read again
      without error: the nodes are then those that were read with their references replaced, and the same ones exactly
      when their values survive. */
  lemma ReprintBack(r: string, l: Layout)
    requires GoodLayout(l)
    requires var v := ParseDocument(r, true); v.error == NoError && LegibleNodes(v.kids)
    ensures var v := ParseDocument(r, true);
            var w := ParseDocument(PrintDocument(v.kids, l), true);
            && w.error == NoError && w.kids == ReadNodes(v.kids)
            && (w.kids == v.kids <==> forall n :: n in v.kids ==> Survives(n))
  {
    var v := ParseDocument(r, true);
    DocumentSound(r, true);
    hide ParseDocument, Shaped, Survives, LegibleNode;
    DocumentReads(v.kids, l);
    DocumentIff(v.kids);
  }

  /** Only well-shaped nodes come back from printing: names, unique attributes, no adjacent or blank
      texts and no end of a leaf inside it are all needed. */
  lemma BackOnlyShaped(nodes: seq<Node>, l: Layout)
    requires var v := ParseDocument(PrintDocument(nodes, l), true); v.kids == nodes && v.error == NoError
    ensures nodes != [] && ShapedNodes(nodes)
  {
    DocumentSound(PrintDocument(nodes, l), true);
  }

  /** A document whose references are legible comes back from printing exactly when it is not empty, its nodes are well
      shaped, and their values survive. */
  lemma DocumentBackIff(nodes: seq<Node>, l: Layout)
    requires GoodLayout(l) && LegibleNodes(nodes)
    ensures (var v := ParseDocument(PrintDocument(nodes, l), true); v.kids == nodes && v.error == NoError)
       <==> (nodes != [] && ShapedNodes(nodes) && forall n :: n in nodes ==> Survives(n))
  {
    hide ParseDocument, Shaped, Survives, LegibleNode;
    if nodes != [] && ShapedNodes(nodes) {
      DocumentReads(nodes, l);
      DocumentIff(nodes);
    }
    var v := ParseDocument(PrintDocument(nodes, l), true);
    if v.kids == nodes && v.error == NoError {
      BackOnlyShaped(nodes, l);
    }
  }
}
