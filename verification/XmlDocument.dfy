/** Whole documents: reading a file into nodes, and printing nodes and reading the text again. */
module XmlDocument {
  import opened XmlChars
  import opened XmlTree
  import opened XmlPrint
  import opened XmlParse
  import opened XmlRoundTrip
  import opened Dom
  import opened XmlPrinter
  import opened XmlParser
  import opened Newlines

  /** `LoadFile`: what the document held is dropped; the file is read into a buffer, its newlines are normalised in
      place, and the text is parsed. */
  method LoadFile(document: TiXmlDocument, file: string, condense: bool) returns (ok: bool)
    requires document.node.Standalone() && document.node.kind == DocumentType
    modifies document`errorId, document.node`firstChild, document.node`lastChild, document.node`kids, document.node`repr
    ensures ok <==> document.errorId == NoError
    ensures document.node.Standalone() && fresh(document.node.repr - {document.node})
    ensures file == "" ==> document.node.Trees(0) == [] && document.errorId == FirstError(old(document.errorId), DocumentEmpty)
    ensures file != "" ==>
              var v := ParseDocument(Normalised(file), condense); document.node.Trees(0) == v.kids && document.errorId == v.error
  {
    hide *;
    document.node.Clear();
    if file == "" {
      document.SetError(DocumentEmpty);
      FirstOne(old(document.errorId), DocumentEmpty);
      return false;
    }
    var length := |file|;
    var buf := new char[length + 1];
    forall i | 0 <= i < length {
      buf[i] := file[i];
    }
    buf[length] := NUL;
    assert buf[..] == file + [NUL];
    NormalisedWithEnd(file);
    assert NUL == buf[buf.Length - 1];
    var q := Normalise(buf);
    assert document.node.Trees(0) == [];
    var text := buf[..q];
    var next := ParseDocumentAt(document, text, condense);
    ReadUnfold(text, ParseDocument(text, condense), document.node.Trees(0), next, document.errorId);
    ok := document.errorId == NoError;
  }

  lemma FirstOne(e: Error, f: Error)
    ensures f != NoError ==> FirstError(e, f) != NoError
  {
  }

  lemma ReadUnfold(s: string, r: ParsedKids, trees: seq<Node>, next: Option<nat>, after: Error)
    requires ReadTo(s, r, trees, next, NoError, after)
    ensures trees == r.kids && after == r.error
  {
  }

  /** The terminator behind the text ends it. */
  lemma {:induction false} NormalisedWithEnd(s: string)
    ensures Normalised(s + [NUL]) == Normalised(s)
    decreases |s|
  {
    var t := s + [NUL];
    if s != "" && s[0] != NUL {
      assert t[1..] == s[1..] + [NUL];
      NormalisedWithEnd(s[1..]);
      if s[0] == CR && |s| > 1 && s[1] == LF {
        assert t[2..] == s[2..] + [NUL];
        NormalisedWithEnd(s[2..]);
      }
    }
  }

  /** The nodes of a document, printed by a new visitor in any white layout and parsed through `c_str` into a new
      document, stand for the trees as they read: for the same trees exactly when all values survive. */
  method PrintThenParse(doc: DomNode, indent: string, lineBreak: string) returns (copy: TiXmlDocument)
    requires doc.Valid() && doc.kind == DocumentType && GoodLayout(Layout(indent, lineBreak))
    requires doc.Trees(0) != [] && ShapedNodes(doc.Trees(0)) && LegibleNodes(doc.Trees(0))
    ensures fresh(copy) && fresh(copy.node.repr) && copy.node.Standalone()
    ensures doc.Trees(0) == old(doc.Trees(0)) && copy.errorId == NoError && copy.node.Trees(0) == ReadNodes(doc.Trees(0))
    ensures copy.node.Trees(0) == doc.Trees(0) <==> forall n :: n in doc.Trees(0) ==> Survives(n)
  {
    hide *;
    ghost var trees := doc.Trees(0);
    var printer := new TiXmlPrinter();
    printer.indent, printer.lineBreak := indent, lineBreak;
    printer.AcceptDocument(doc);
    copy := new TiXmlDocument();
    var text := CString(printer.buffer);
    ghost var layout := printer.Settings();
    assert text == PrintDocument(trees, layout) by {
      Appended(PrintDocument(trees, layout));
      DocumentPlain(trees, layout);
    }
    DocumentReads(trees, layout);
    DocumentIff(trees);
    var next := ParseDocumentAt(copy, text, true);
    ReadUnfold(text, ParseDocument(text, true), copy.node.Trees(0), next, copy.errorId);
    assert doc.Trees(0) == trees;
  }

  lemma Appended(s: string)
    ensures "" + s == s
  {
  }
}
