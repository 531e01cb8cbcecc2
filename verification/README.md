# Verified model of the class-room server and its protocol generator

The repository holds a message server for electronic class rooms and a
generator that writes protocol code from an XML file. This project models
their hardest parts in Dafny and proves what they promise.

**The XML engine of the generator.** Text is in the legacy one-byte encoding of
the C locale; UTF-8 has its own module. Input ends at its first terminator. A
value can hold one, as `&#0;` is read as one, and is then cut wherever the
source goes through `const char*`.

- `XmlChars`, `XmlText`: characters, names, entities, the text reader and
  `EncodeString`, as functions on the text left to read and as the loops that
  walk over it.
- `XmlTree`: what a node says, as a value; attribute walks and copies.
- `XmlCopy`: when a copy prints as its original does.
- `XmlParse`, `XmlPrint`: what parsing and printing mean for such values.
- `XmlPieces`, `XmlGrammar`, `XmlLanguage`, `XmlErrors`: an independent grammar of
  the input, character data included. The parser accepts exactly its spellings
  and reads each as what it says; anything else gets the error stated.
- `XmlLayout`: the printed text line by line and how far each is indented.
- `XmlRoundTrip`, `XmlAccept`: what a printed tree reads back as, which trees
  come back themselves, and what every accepted document looks like.
- `Dom`: the nodes with their parent, child and sibling pointers, edited in
  place. Ghost fields hold the child sequence and the subtree of each node.
- `XmlPrinter`, `XmlParser`, `XmlDocument`: the visitor that prints nodes, the
  parser that builds them, and whole files, proved against the values above.
- `AttributeSet`: the circular list with its sentinel, against an
  insertion-ordered map.
- `TinyStr`, `CharRef`, `Utf8`, `Stamp`, `Newlines`: the string buffer and its
  cost, numeric references, the UTF-8 codec, row and column tracking, and the
  in-place newline rewrite.
- `Generator`: the insert-once rewriting of source files.

**The server.**

- `Queue`: the blocking queue as a system of steps under all interleavings.
- `Framing`: length-prefixed messages through fragmented writes and reads.
- `Buffers`: the pool, the two queues and the forwarding functions.
- `Rooms`: teachers, whiteboards and students in rooms, over all runs.
- `PictureCodec`: a placed picture as the digits of a 64-bit number.

Functions say what the code computes; each method has the shape of the code,
with its loops and updates, and is proved equal to its function. The lemmas
then state what the functions promise.

Where the code does not do what one would expect, the exact condition is
proved:

- `EncodeString` copies `&#x` through, so a value survives exactly when it does
  not hold `&#x` (`XmlText.KeepUndoesEncodeIff`, `XmlText.TrimUndoesEncodeIff`),
  and a printed document comes back with the characters its references stand
  for (`XmlRoundTrip.DocumentReads`, `XmlAccept.DocumentBackIff`).
- `TiXmlAttribute::Next` takes an attribute that is empty in name and value for
  the sentinel, so a walk, and with it a copy and the printer, misses the
  attributes behind such a one (`XmlTree.WalkCompleteIff`). A copy also loses
  what stands behind a terminator: it is exact when neither happens
  (`XmlTree.CopyIff`), and prints as its original exactly when no value printed
  in full holds one (`XmlCopy.CopyPrintsSameIff`).
- `FindOrCreate` adds its attribute before it has a name: a run never trips the
  assert of `Add` exactly when no new name comes while the last operation on the
  empty name has set or created it (`AttributeSet.NeverTripsIff`).
- The 32-bit multiplier of a numeric reference wraps: the value is right exactly
  when every digit, at its place, adds less than 2^32 (`CharRef.AccumulateIff`).
- The length table of UTF-8 disagrees with the converter from 140000 (hex) on
  (`Utf8.DecodeUndoesEncodeIff`).
- No run of the queue loses a wake-up exactly when there is at most one consumer
  (`Queue.NoneLostIff`).
- After a hard error the send loop goes on with the next message, so what is on
  the wire is a prefix, whatever the messages say, exactly when nothing is let
  through behind the first one cut (`Framing.PrefixIff`).
- A connection that leaves is still known to a room exactly when it had two of
  the three roles there (`Rooms.LeftIff`, `Rooms.StillKnown`).
- A picture without a student has a number too short to read, and every call of
  `getData` adds the picture once more (`PictureCodec.DecodeUndoesEncodeIff`,
  `PictureCodec.DataTool.GetData`).
- A second run of the generator changes nothing exactly when every check text
  was there before the first or came in with it (`Generator.AgainIff`,
  `Generator.SecondRunIff`). A missing flag line, or a content without its own
  check text, makes the file grow at every run.

Where documentation and code disagree the code is followed: line 711 of
`autoproto/tinyxml.h` promises an exact duplicate of a node.

## Model

| member | source | states |
|---|---|---|
| XmlChars.SkipWhiteFrom | autoproto/tinyxmlparser.cpp:355-359 | the loop of `SkipWhiteSpace` stops at the first character that is not white |
| XmlChars.SkipWhiteSplits | autoproto/tinyxmlparser.cpp:355-359 | what is skipped is white throughout, and what remains is the end of the text |
| XmlChars.ScanName | autoproto/tinyxmlparser.cpp:415-432 | the scan of `ReadName` takes the longest run of name characters from a letter or underscore on |
| XmlChars.ReadNameOf | autoproto/tinyxmlparser.cpp:401-436 | a name in front of anything that cannot continue it is read back whole |
| XmlChars.Classes | autoproto/tinyxmlparser.cpp:129-165 | white space, name starts and name characters, character by character below 127; all from 127 on are letters |
| XmlText.AccumulateBack | autoproto/tinyxmlparser.cpp:454-508 | the digit loop, from the last digit back, gives the wrapped sum, or nothing at a character that is no digit |
| XmlText.NumericRefAt | autoproto/tinyxmlparser.cpp:445-510 | a numeric reference ends at its first `;`, in base 16 after `x` and in base 10 otherwise |
| XmlText.GetCharAt | autoproto/tinyxml.h:327-366 | one character: an entity of the table, a numeric reference, or the byte itself; an unknown entity yields nothing for its `&` |
| XmlText.ReadKeepAt | autoproto/tinyxmlparser.cpp:585-594 | the loop that keeps white space reads up to the end tag |
| XmlText.ReadTrimAt | autoproto/tinyxmlparser.cpp:598-633 | the loop that condenses turns every inner run of white space into one blank and drops a trailing one |
| XmlText.ReadTextAt | autoproto/tinyxmlparser.cpp:574-637 | one of the two loops, then a step over the end tag, which fails at the end of the input; it stops right behind the tag |
| XmlText.PassReference | autoproto/tinyxml.cpp:60-82 | `&#x...` is copied up to its first `;`, which is left for the next round, or up to the last character when there is none |
| XmlText.EncodeString | autoproto/tinyxml.cpp:52-133 | the loop over a string gives its encoding, references passed through |
| XmlText.KeepUndoesEncode | autoproto/tinyxml.cpp:52-133 | without `&#x`, the encoding read up to a quote or `<` gives every character back, and the delimiter is left |
| XmlText.KeepUndoesEncodeIff | autoproto/tinyxml.cpp:52-133 | a value comes back from its encoding exactly when it does not hold `&#x` |
| XmlText.TrimUndoesEncode | autoproto/tinyxmlparser.cpp:598-633 | in condensing mode only runs of 0x20 are condensed, as control characters travel as references |
| XmlText.TrimUndoesEncodeIff | autoproto/tinyxmlparser.cpp:598-633 | a text comes back with its blanks condensed and nothing else changed exactly when it does not hold `&#x` |
| XmlText.ReadTextReads | autoproto/tinyxmlparser.cpp:574-637 | with every reference closed and a number, `ReadText` gives an encoded string with its references replaced, in both modes |
| XmlText.ReadingIff | autoproto/tinyxml.cpp:52-133 | such a string reads as itself exactly when there is no `&#x` in it |
| XmlText.ReadTextUndoesEncode | autoproto/tinyxmlparser.cpp:574-637 | `ReadText` undoes `EncodeString` in both modes |
| XmlText.EncodedIff | autoproto/tinyxml.cpp:83-129 | a character is changed exactly when it is one of the five with an entity or below 32 |
| XmlPieces.PieceRead | autoproto/tinyxml.h:327-366 | a plain character, an entity, a closed numeric reference and a `&` that starts none of them are each read as what they say, the last as nothing |
| XmlPieces.PieceFound | autoproto/tinyxml.h:327-366 | and whatever is read as one character is one of these |
| XmlPieces.KeepSpelled | autoproto/tinyxmlparser.cpp:585-594 | with white space kept, any such pieces up to the delimiter are read as what they say |
| XmlPieces.TextSpelled | autoproto/tinyxmlparser.cpp:574-637 | in condensing mode, as their words with one blank between each two, nothing in front and nothing behind |
| XmlPieces.PlainTextRead | autoproto/tinyxmlparser.cpp:574-637 | text without `&` and its delimiter is read character by character as it is, quotes and all, or as its words |
| XmlTree.WalkCompleteIff | autoproto/tinyxml.cpp:1170-1177 | a walk over attributes reaches all of them exactly when none behind the first is empty in name and value |
| XmlTree.WalkPrefix | autoproto/tinyxml.cpp:1170-1177 | a walk visits a prefix of the list, and when it goes on |
| XmlTree.CopyAttrsIff | autoproto/tinyxml.cpp:853-866 | a copy has the same attributes, in order, exactly when the walk reaches them all and no value holds a terminator |
| XmlTree.CopyIff | autoproto/tinyxml.cpp:853-897 | the copy of a tree equals it exactly when every attribute list in it is walked to its end and no string in it holds a terminator |
| XmlRoundTrip.AttrsBack | autoproto/tinyxmlparser.cpp:1083-1174 | the attribute loop reads a printed list of unique named attributes behind those already read, every value with its references replaced |
| XmlRoundTrip.KidsBack | autoproto/tinyxmlparser.cpp:1179-1247 | printed children, with any white space between them, are read in order up to the end tag, each as it reads; a text of which only white space is left is dropped |
| XmlRoundTrip.NodeBack | autoproto/tinyxmlparser.cpp:818-899 | a printed element, comment, CDATA section or unknown tag is read as it reads, whatever follows it |
| XmlRoundTrip.DocumentReads | autoproto/tinyxmlparser.cpp:704-796 | a printed document of well-shaped nodes with closed, numeric references, for any white indent and line break, parses without error to the same nodes with references replaced, blanks condensed and leaves cut at a terminator |
| XmlRoundTrip.DocumentBack | autoproto/tinyxmlparser.cpp:704-796 | and to the very same nodes when their values survive |
| XmlRoundTrip.ReadIff | autoproto/tinyxmlparser.cpp:704-796 | a well-shaped node reads as itself exactly when its values survive |
| XmlRoundTrip.DocumentPlain | autoproto/tinyxml.cpp:1766-1881 | the text printed for such a document holds no terminator, so parsing it through `c_str` loses nothing |
| XmlGrammar.KindIff | autoproto/tinyxmlparser.cpp:840-892 | the kind of a node, told from its first characters |
| XmlGrammar.AttrRead | autoproto/tinyxmlparser.cpp:1392-1463 | an attribute is read as it says with any white space in front of it and on both sides of its `=`, quoted in either way or not at all |
| XmlGrammar.EndTagRead | autoproto/tinyxmlparser.cpp:1125-1146 | an end tag with any white space in front of its `>` is accepted |
| XmlGrammar.NodeReads | autoproto/tinyxmlparser.cpp:818-899 | every spelling of a node that fits in front of the text behind it is accepted and read as what it says, in both white space modes |
| XmlLanguage.NodeFound | autoproto/tinyxmlparser.cpp:818-899 | whatever node is read without error has a spelling that says the same |
| XmlLanguage.NodeAcceptedIff | autoproto/tinyxmlparser.cpp:818-899 | a node is accepted exactly when the text starts with a spelling of one that fits |
| XmlLanguage.DocumentSpelled | autoproto/tinyxmlparser.cpp:704-796 | every spelling of a document is read without error as what it says, up to the first text that is no node, and where the pointer is left |
| XmlLanguage.DocumentAcceptedIff | autoproto/tinyxmlparser.cpp:704-796 | a document is accepted exactly when it has a spelling |
| XmlLanguage.Unambiguous | autoproto/tinyxmlparser.cpp:704-796 | two spellings of one text say the same |
| XmlErrors.TagCutShort | autoproto/tinyxmlparser.cpp:1083-1090 | the input ending in a start tag is an attribute error |
| XmlErrors.SlashAlone | autoproto/tinyxmlparser.cpp:1091-1103 | a `/` without its `>` is an error of its own |
| XmlErrors.NameRepeated | autoproto/tinyxmlparser.cpp:1158-1168 | a repeated attribute name is an element error, the attributes in front kept |
| XmlErrors.EqualsMissing | autoproto/tinyxmlparser.cpp:1410-1416 | a name without `=` is an attribute error |
| XmlErrors.QuoteOpen | autoproto/tinyxmlparser.cpp:1424-1439 | a quote that is not closed, or is the last character, gives no error of the attribute's own |
| XmlErrors.EndTagIff | autoproto/tinyxmlparser.cpp:1125-1146 | an end tag is accepted exactly when it is `</`, the name, white space and `>` |
| XmlErrors.EndTagWrong | autoproto/tinyxmlparser.cpp:1112-1146 | a value without the element's end tag behind it: the end tag error, the children there |
| XmlErrors.InputEnds | autoproto/tinyxmlparser.cpp:1106-1147 | the input ending behind a start tag: another error at once than after white space |
| XmlErrors.ChildFails | autoproto/tinyxmlparser.cpp:1179-1247 | a child that fails gives its error, and it is the last child |
| XmlErrors.DocumentFails | autoproto/tinyxmlparser.cpp:704-796 | a node that fails gives the document its error, with the nodes up to it |
| XmlErrors.NothingThere | autoproto/tinyxmlparser.cpp:704-796 | a document without a node is an empty one, whatever text it holds |
| XmlAccept.NodeSound | autoproto/tinyxmlparser.cpp:818-899 | parsing a node stops inside the input, fails exactly with an error for an element, and yields well-shaped nodes otherwise |
| XmlAccept.TagSound | autoproto/tinyxmlparser.cpp:1083-1174 | an element is accepted only with unique named attributes, and self-closed without children or closed by an end tag of its own name |
| XmlAccept.EndTagSplits | autoproto/tinyxmlparser.cpp:1125-1146 | an accepted end tag is `</`, the element's name, white space and `>` |
| XmlAccept.ValueSound | autoproto/tinyxmlparser.cpp:1179-1247 | `ReadValue` stops inside the input and never keeps blank or adjacent texts |
| XmlAccept.DocumentSound | autoproto/tinyxmlparser.cpp:704-796 | a document parsed without error is not empty, all its nodes are well shaped, and the pointer returned lies inside the input |
| XmlAccept.GoodIff | autoproto/tinyxml.cpp:1766-1881 | the good nodes are those that are well shaped and read as themselves |
| XmlAccept.ReprintBack | autoproto/tinyxml.cpp:1766-1881 | any document read without error, its references legible, prints in any white layout to a text that reads without error, and to the same nodes exactly when their values survive |
| XmlAccept.BackOnlyShaped | autoproto/tinyxmlparser.cpp:704-796 | only well-shaped nodes come back from printing |
| XmlAccept.DocumentBackIff | autoproto/tinyxmlparser.cpp:704-796 | with legible references a document comes back from printing exactly when it is not empty, well shaped, and all its values survive |
| XmlParser.TiXmlDocument.SetError | autoproto/tinyxmlparser.cpp:798-815 | the first error of a chain is kept |
| XmlParser.KindAt | autoproto/tinyxmlparser.cpp:840-892 | the tests of `Identify`, in their order |
| XmlParser.IdentifyAt | autoproto/tinyxmlparser.cpp:818-899 | a new node of the kind found, in no tree yet |
| XmlParser.ParseCommentAt | autoproto/tinyxmlparser.cpp:1337-1389 | a comment takes all up to `-->`, or to the end of the input |
| XmlParser.ParseCDataAt | autoproto/tinyxmlparser.cpp:1512-1534 | a CDATA section takes all up to `]]>` and fails when nothing follows |
| XmlParser.ParseTextAt | autoproto/tinyxmlparser.cpp:1535-1545 | a text ends in front of the next `<`, which is left to be read |
| XmlParser.ParseUnknownAt | autoproto/tinyxmlparser.cpp:1275-1306 | an unknown tag takes all up to `>` |
| XmlParser.UnquotedAt | autoproto/tinyxmlparser.cpp:1440-1462 | an unquoted value ends at white space, `/`, `>` or a quote |
| XmlParser.ParseAttributeAt | autoproto/tinyxmlparser.cpp:1392-1463 | name, `=` and value of an attribute, and the error recorded when one is missing |
| XmlParser.ParseElementAt | autoproto/tinyxmlparser.cpp:1043-1083 | the node is filled in as the tree the text stands for, the pointer and the first error are those of the grammar |
| XmlParser.ParseTagAt | autoproto/tinyxmlparser.cpp:1083-1174 | the attribute loop refuses a repeated name and hands on to the value or ends the element |
| XmlParser.ParseContentAt | autoproto/tinyxmlparser.cpp:1106-1147 | what follows a start tag: the value and the end tag |
| XmlParser.ParseEndTagAt | autoproto/tinyxmlparser.cpp:1125-1146 | the end tag of a name, white space allowed before its `>` |
| XmlParser.ReadValueAt | autoproto/tinyxmlparser.cpp:1179-1247 | the children linked are the texts and nodes of the value in order, blank texts dropped |
| XmlParser.AddText | autoproto/tinyxmlparser.cpp:1189-1214 | a text is linked unless it is blank |
| XmlParser.AddNode | autoproto/tinyxmlparser.cpp:1226-1236 | a node is identified, parsed and linked, also when its parse has failed |
| XmlParser.ParseNodeAt | autoproto/tinyxmlparser.cpp:818-899 | a new tree, disjoint from all others, that stands for the node the text gives |
| XmlParser.ParseDocumentAt | autoproto/tinyxmlparser.cpp:704-796 | the nodes read are linked behind those already there; result pointer and error, for an empty document and for one with children |
| XmlPrinter.TiXmlPrinter.DoIndent | autoproto/tinyxml.h:1785-1788 | as many indents as the depth |
| XmlPrinter.TiXmlPrinter.PrintAttribute | autoproto/tinyxml.cpp:1210-1233 | name and value encoded, in single quotes when `find` sees a double one in the value, in front of its first terminator |
| XmlPrinter.TiXmlPrinter.PrintAttributes | autoproto/tinyxml.cpp:1772-1776 | every attribute the walk reaches, each behind a blank |
| XmlPrinter.TiXmlPrinter.VisitEnter | autoproto/tinyxml.cpp:1766-1800 | the start tag, one level deeper; simple text printing set for an element whose only child is plain text |
| XmlPrinter.TiXmlPrinter.VisitExit | autoproto/tinyxml.cpp:1803-1826 | the end tag, if any, one level up; simple text printing is off again |
| XmlPrinter.TiXmlPrinter.Visit | autoproto/tinyxml.cpp:1829-1886 | a text, a comment or an unknown tag in either printing mode, leaves up to their terminator and plain text in full |
| XmlPrinter.TiXmlPrinter.Accept | autoproto/tinyxml.cpp:875-886 | visiting a node appends the text of its tree and leaves `depth` and `simpleTextPrint` as they were |
| XmlPrinter.TiXmlPrinter.AcceptDocument | autoproto/tinyxml.cpp:1156-1167 | visiting a document appends the text of all its trees and restores the printer |
| XmlLayout.DocumentLines | autoproto/tinyxml.cpp:1766-1886 | a document prints as its lines: one for each tag of an element with children other than one plain text, one for anything else, each indented by the elements open around it |
| XmlLayout.RepeatAt | autoproto/tinyxml.h:1785-1788 | the indentation is that many copies of the indent |
| XmlPrint.QuoteIff | autoproto/tinyxml.cpp:1210-1233 | single quotes exactly when a double one stands in the value with no terminator in front of it |
| XmlCopy.CopyPrintsSameIff | autoproto/tinyxml.cpp:853-897 | a copy prints as its original does exactly when no plain text and no attribute value that is walked holds a terminator, even when the walk has missed attributes |
| XmlCopy.CopyPrintsSame | autoproto/tinyxml.cpp:853-897 | without such terminators it does so in layouts without line breaks as well |
| XmlDocument.LoadFile | autoproto/tinyxml.cpp:986-1081 | what the document held is dropped, and a file is read as its newline-normalised text parsed; an empty one is an error |
| XmlDocument.PrintThenParse | autoproto/tinyxml.cpp:1156-1167 | nodes printed by the visitor in any white layout and parsed again stand, in new nodes and without error, for the trees as they read: for the same trees exactly when all values survive |
| Dom.DomNode.constructor | autoproto/tinyxml.cpp:136-144 | a new node is the root of a tree of its own |
| Dom.DomNode.Clear | autoproto/tinyxml.cpp:169-183 | the loop visits every child of a root, and none is left in its tree |
| Dom.DomNode.LinkEndChild | autoproto/tinyxml.cpp:186-211 | a document is refused; any other root becomes the last child, all links stay in order, and the trees gain one at the end |
| Dom.DomNode.InsertBeforeChild | autoproto/tinyxml.cpp:230-260 | nothing happens for a null or foreign neighbour or a document; otherwise a copy stands in front of the neighbour |
| Dom.DomNode.InsertAfterChild | autoproto/tinyxml.cpp:263-293 | the same behind the neighbour |
| Dom.DomNode.ReplaceChild | autoproto/tinyxml.cpp:296-332 | a copy takes the place of the child, whose subtree leaves the forest, also when the copied node stood in it |
| Dom.DomNode.RemoveChild | autoproto/tinyxml.cpp:335-359 | the child and its subtree leave, its neighbours point past it, nothing else changes; nothing at all for null or a node that is no child |
| Dom.DomNode.Spliced | autoproto/tinyxml.cpp:186-359 | a child list is linked both ways, with its ends and parents right, once the pointers at both seams of an edit are set |
| Dom.DomNode.EditedTrees | autoproto/tinyxml.cpp:186-359 | an edit of a child list is the same edit of the sequence of trees |
| Dom.DomNode.Clone | autoproto/tinyxml.cpp:889-897 | a copy made of new nodes only that stands for the copied tree, every string cut at its terminator; the original is not touched |
| Dom.DomNode.CopyAttributesTo | autoproto/tinyxml.cpp:858-866 | the attributes the walk reaches are set on the target in turn, cut at their terminators |
| AttributeSet.TiXmlAttributeSet.constructor | autoproto/tinyxml.cpp:1500-1504 | an empty ring |
| AttributeSet.TiXmlAttributeSet.Find | autoproto/tinyxml.cpp:1572-1580 | the first attribute of a name, or null when there is none |
| AttributeSet.TiXmlAttributeSet.Add | autoproto/tinyxml.cpp:1514-1527 | a new attribute goes last and the ring stays closed both ways |
| AttributeSet.TiXmlAttributeSet.Remove | autoproto/tinyxml.cpp:1529-1545 | the attribute leaves the ring, the others keep their order |
| AttributeSet.TiXmlAttributeSet.FindOrCreate | autoproto/tinyxml.cpp:1583-1592 | an existing attribute, or a new one with an empty value at the end: the contents change by one step of a run |
| AttributeSet.TiXmlAttributeSet.SetAttribute | autoproto/tinyxml.cpp:780-786 | an existing name keeps its place, a new one goes last |
| AttributeSet.TiXmlAttributeSet.RemoveAttribute | autoproto/tinyxml.cpp:437-450 | the attribute of a name is dropped, if there is one |
| AttributeSet.TiXmlAttributeSet.Attributes | autoproto/tinyxml.cpp:1170-1177 | a reader's walk sees the list up to the first attribute taken for the sentinel |
| AttributeSet.ApplyRefines | autoproto/tinyxml.cpp:1500-1592 | every operation keeps names unique and does to the list what it does to an insertion-ordered map |
| AttributeSet.RunRefines | autoproto/tinyxml.cpp:1500-1592 | over every run the list stands for the insertion-ordered map of the same run |
| AttributeSet.Perform | autoproto/tinyxml.cpp:1500-1592 | a new ring driven through a run of operations holds what the run makes of the empty list |
| AttributeSet.ThereIff | autoproto/tinyxml.cpp:1500-1592 | after a run an attribute is there exactly when the last operation on its name has set or created it |
| AttributeSet.NeverTripsIff | autoproto/tinyxml.cpp:1583-1592 | a run never trips the assert of `Add` exactly when no new name comes while the last operation on the empty name has set or created it |
| AttributeSet.RunAllowed | autoproto/tinyxml.cpp:1583-1592 | runs that never use the empty name never trip the assert of `Add` |
| AttributeSet.EmptyNameTrips | autoproto/tinyxml.cpp:1583-1592 | after any run an operation trips it exactly when it brings a new name and the last operation on the empty name has set or created it |
| TinyStr.TiXmlString.Reserve | autoproto/tinystr.cpp:37-46 | more capacity when asked for, the contents kept |
| TinyStr.TiXmlString.Assign | autoproto/tinystr.cpp:49-65 | the contents become the argument; a buffer too small or more than three times too big gives way; the shared null representation is not changed |
| TinyStr.TiXmlString.Append | autoproto/tinystr.cpp:68-78 | the contents grow by the argument, with the stated capacity and number of copied bytes |
| TinyStr.TiXmlString.Find | autoproto/tinystr.h:167-177 | the first place of a character from an offset on, not looking past a terminator inside |
| TinyStr.Plus | autoproto/tinystr.cpp:81-98 | concatenation in a new string of exactly the capacity needed |
| TinyStr.RunPaid | autoproto/tinystr.cpp:68-78 | over any run of appends: bytes copied by reallocation at most the capacity, that at most twice the length, and logarithmically many reallocations |
| TinyStr.AppendAll | autoproto/tinystr.cpp:68-78 | a run of appends on a new string gives the concatenation within these bounds |
| CharRef.AccumulateIff | autoproto/tinyxmlparser.cpp:445-508 | the wrapping right-to-left sum is what the digits mean exactly when every place fits in 32 bits |
| CharRef.ReferenceIff | autoproto/tinyxmlparser.cpp:445-512 | the same for whole references with their marks |
| CharRef.ScalarReferenceRead | autoproto/tinyxmlparser.cpp:445-516 | every spelling of a Unicode scalar value, in either base and with any leading zeros, is read as that value, and its bytes decode to it by RFC 3629 |
| Utf8.ConvertUTF32ToUTF8 | autoproto/tinyxmlparser.cpp:88-126 | the bytes and the length written, from the last byte back; the rest of the buffer is not changed |
| Utf8.DecodeUndoesEncodeIff | autoproto/tinyxmlparser.cpp:67-126 | RFC 3629 decoding undoes the conversion exactly for scalar values; the lead byte table gives the length exactly below 140000 (hex) |
| Utf8.EncodeUndoesDecode | autoproto/tinyxmlparser.cpp:88-126 | every well-formed sequence of RFC 3629 is the conversion of a scalar value |
| Utf8.EncodeInjective | autoproto/tinyxmlparser.cpp:88-126 | no two convertible codes have the same bytes |
| Stamp.TiXmlParsingData.Stamp | autoproto/tinyxmlparser.cpp:196-311 | the loop moves row, column and stamp; nothing without a tab size, nothing saved past the terminator |
| Stamp.WalkComposes | autoproto/tinyxmlparser.cpp:196-311 | stamping to one place and then to a later one is stamping straight there, also from inside a pair |
| Stamp.StampMeans | autoproto/tinyxmlparser.cpp:216-248 | the row counts the line breaks begun, CR LF and LF CR once each, and the column is the tab-expanded one |
| Stamp.NextTabIs | autoproto/tinyxmlparser.cpp:250-262 | a tab goes to the first multiple of the tab size behind the column |
| Stamp.PairIff | autoproto/tinyxmlparser.cpp:216-248 | CR LF and LF CR are the pairs |
| Newlines.Normalise | autoproto/tinyxml.cpp:1052-1075 | the two-headed loop writes the normalised text and a terminator, the write head never ahead |
| Newlines.NormalisedMeans | autoproto/tinyxml.cpp:1052-1075 | it is the text up to its terminator with CR LF, and then lone CR, turned into LF (section 2.11 of XML 1.0) |
| Newlines.NoneLeft | autoproto/tinyxml.cpp:1052-1075 | no CR is left |
| Newlines.UnchangedIff | autoproto/tinyxml.cpp:1052-1075 | a text stays as it is exactly when it has neither CR nor terminator |
| Newlines.Idempotent | autoproto/tinyxml.cpp:1052-1075 | normalising again changes nothing |
| Generator.GetLine | autoproto/autoprotocol.cc:329-331 | one line and whether the file has ended |
| Generator.CheckContent | autoproto/autoprotocol.cc:288-308 | true exactly when some line holds the text |
| Generator.CopyWith | autoproto/autoprotocol.cc:329-351 | the line loop writes the lines with the content beside the flag lines it still inserts at |
| Generator.Disk.Replace | autoproto/autoprotocol.cc:310-366 | a file whose check text is there is left alone, any other is rewritten |
| Generator.Disk.ReplaceAll | autoproto/autoprotocol.cc:368-460 | a sequence of calls rewrites each file by the calls that name it |
| Generator.RewrittenLines | autoproto/autoprotocol.cc:329-351 | all old lines in order, those of the content at the first flag line, one empty line at the end |
| Generator.Beside | autoproto/autoprotocol.cc:329-351 | the content stands right behind or right in front of the first flag line, as asked, all lines else in place |
| Generator.EveryLine | autoproto/autoprotocol.cc:329-351 | when the insertion is to go on, each line is dealt with by itself |
| Generator.PresentIff | autoproto/autoprotocol.cc:288-308 | a text without a line break is found exactly when it stands somewhere in the file |
| Generator.StaysPresent | autoproto/autoprotocol.cc:310-366 | nothing that some line holds becomes absent |
| Generator.Grows | autoproto/autoprotocol.cc:310-366 | a call leaves a file alone exactly when the check text is there, and makes it longer otherwise |
| Generator.FlagMissing | autoproto/autoprotocol.cc:329-351 | without check text and flag line nothing goes in and one empty line is added |
| Generator.PresentAfter | autoproto/autoprotocol.cc:310-366 | a text is present after a call exactly when it was before, or the call inserts a content that holds it |
| Generator.AgainIff | autoproto/autoprotocol.cc:310-366 | a second call changes nothing exactly when the check text was there before the first, or the flag was and the content holds the check text |
| Generator.UnchangedIff | autoproto/autoprotocol.cc:288-366 | a sequence of calls changes nothing exactly when all its check texts are there beforehand |
| Generator.SecondRunIff | autoproto/autoprotocol.cc:310-366 | a second run of a sequence of calls changes nothing exactly when every check text was there before the first run or came in with a content at a flag then there |
| Generator.SecondRunUnchanged | autoproto/autoprotocol.cc:310-366 | so it is when each check text is there from the start, or its content holds it and its flag is there or comes in before it is needed |
| Generator.SecondRunOfGeneratorIff | autoproto/autoprotocol.cc:368-460 | the same condition for all calls of the generator on any file, over any protocols |
| Generator.SecondRunOfGenerator | autoproto/autoprotocol.cc:368-460 | it is met by files that hold a check text or a flag line for every call, for protocols with names on one line |
| Generator.Generated | autoproto/autoprotocol.cc:368-460 | after a run every protocol is in both files: its number, what it answers, its structure, its enumeration and its handler |
| Generator.Placement | autoproto/autoprotocol.cc:368-460 | the number and the answer go in front of the first `};`, the handler behind `virtual.o`, the structure and the enumeration behind their flags |
| Generator.MainPlacement | autoproto/autoprotocol.cc:557-559 | the two flags go behind the first `};`, the include in front of the pragma |
| Generator.NumberLineSays | autoproto/autoprotocol.cc:190-209 | the line of a protocol, read as a line of an enumeration, says its name, its number unless that is automatic, and its note |
| Generator.AnswerLineSays | autoproto/autoprotocol.cc:202-209 | the line of an answer says the name with `S` for its first letter |
| Generator.ObjectLineSays | autoproto/autoprotocol.cc:383-391 | the line in the makefile says the handler's object file |
| Generator.StructureIn | autoproto/autoprotocol.cc:399-451 | the call for a structure puts its note, every line of its members and its end into the header |
| Generator.EnumerationIn | autoproto/autoprotocol.cc:409-453 | and so for its enumeration |
| Queue.QueueT.Push | QueueT.h:70-81 | the item goes last, and a signal is due exactly when the queue was empty |
| Queue.QueueT.Pop | QueueT.h:54-63 | the front is taken; nothing from an empty queue |
| Queue.RunSafe | QueueT.h:49-81 | every step with one consumer keeps: asleep means empty or a signal on its way, and taken plus queued is what was put in |
| Queue.FromStart | QueueT.h:49-81 | so it is in every interleaving from the start, with any number of producers, timeouts and spurious wake-ups |
| Queue.SleeperServed | QueueT.h:49-81 | a consumer asleep beside an item is woken by the signal on its way and takes the front |
| Queue.TwoConsumersLose | QueueT.h:70-81 | with two consumers or more a wake-up can be lost |
| Queue.NoneLostIff | QueueT.h:49-81 | no run loses a wake-up exactly when there is at most one consumer |
| Framing.SendLoop | SendTask.cpp:43-71 | the write loop puts on the wire what the results let through, with retries and the hard stop |
| Framing.RecvV | Sock.c:124-146 | the read loop fills the buffer from an index on and leaves the rest of it alone |
| Framing.RecvCb | Evloop.cpp:117-142 | header, then body: a message whole in the buffer, or the connection closed |
| Framing.HeaderBack | Evloop.cpp:129-132 | every `int`, written as its four bytes by division and remainder, least significant first, is read back |
| Framing.HardCuts | SendTask.cpp:43-71 | a message that the answers up to a hard one have not let through ends there |
| Framing.HardEndsReading | Sock.c:124-146 | and so does reading |
| Framing.AllMessages | Evloop.cpp:106-144 | whatever bytes arrive, what is received are messages of their own length, and they are the front of the bytes |
| Framing.PrefixIff | SendTask.cpp:43-71 | a schedule leaves an exact prefix of the bytes for all messages of these lengths exactly when nothing is let through behind the first message cut |
| Framing.SentPrefix | SendTask.cpp:43-71 | then the bytes on the wire are a prefix of the messages |
| Framing.BrokenSendsNothing | SendTask.cpp:65-67 | so it is on a connection that stays broken after a hard error |
| Framing.CutShows | SendTask.cpp:65-67 | whenever something is let through behind a message cut there are messages of these lengths for which what is on the wire is no prefix |
| Framing.SentWhole | SendTask.cpp:43-71 | without hard errors, fragments and retries change nothing |
| Framing.ReceivedPrefix | Evloop.cpp:106-144 | whatever prefix arrives and whatever the calls answer, the messages received are a prefix of those sent |
| Framing.ReceivedWhole | Evloop.cpp:106-144 | without hard errors all messages of 4 to 5120 bytes, their length written in front by the rule of `LengthBytes`, are received in order |
| Framing.EndToEnd | SendTask.cpp:43-71 | for any fragments, interruptions and retries on both sides, nothing let through behind a message cut, the messages received are a prefix of those sent, and all of them when nothing fails hard |
| Buffers.PoolT.Malloc | PoolT.h:64-74 | the front of the free objects, or nothing |
| Buffers.PoolT.Free | PoolT.h:79-84 | the object goes last |
| Buffers.Server.InUse | PoolT.h:97-101 | the count of used buffers is the number of messages received and not yet handled or waiting to be sent |
| Buffers.Conservation | PoolT.h:64-84 | over every run of receive, forward and send steps each buffer is in exactly one place, once, and the sizes add up to the pool size |
| Buffers.Server.RecvCb | Evloop.cpp:106-144 | exactly when a message arrives the front buffer of the pool goes to the end of the received queue, with its sender; otherwise it goes back to the pool |
| Buffers.RunInOrder | PoolT.h:64-84 | over every run the received queue, the queue to send and the pool are first in, first out: what has come in is, in order, what has gone out and what is there |
| Buffers.Server.PostTeacherToWhite | handler/HandleMessage.cpp:50-91 | the teacher's message goes on to the whiteboard of the first room that knows the sender; any other goes back to the pool |
| Buffers.Server.PostWhiteToTeacher | handler/HandleMessage.cpp:93-119 | the whiteboard's message goes on to the teacher |
| Buffers.Server.PostStudentToWhite | handler/HandleMessage.cpp:126-148 | a student's message goes on to the whiteboard |
| Buffers.Server.PostCopy | handler/HandleMessage.cpp:174-185 | one student's copy: new type, receiver and size, the same bytes |
| Buffers.Server.PostTeacherToAllStudent | handler/HandleMessage.cpp:155-210 | a copy for every student in the order of the map, taken from the front of the pool, and the original back to the pool |
| Buffers.Server.SendNext | SendTask.cpp:9-77 | a message is sent to its receiver, or skipped without one, and its buffer given back |
| Rooms.CRoom.AddStudent | content/room.cpp:53-65 | a student of the same connection gives way |
| Rooms.CRoom.Reset | content/room.cpp:335-363 | the room is free, its students' sockets cleared, its members kept |
| Rooms.CRoomManager.GetRoomByFd | content/roommanager.cpp:48-60 | the first room that knows the connection |
| Rooms.CRoomManager.DelClientOf | content/room.cpp:223-242 | a teacher's leaving frees the room and the first room that knows the teacher; a whiteboard or a student just leaves, and no other student does |
| Rooms.CRoomManager.DelClient | content/roommanager.cpp:73-78 | every room in turn |
| Rooms.CRoomManager.HandleSelectedClassRoom | handler/HandleClassRoom.cpp:804-834 | a student known to no room joins; a whiteboard takes the place; a client of another type changes nothing |
| Rooms.CRoomManager.HandleLoginClassRoom | handler/HandleClassRoom.cpp:486-518 | a free room gets its teacher, a used one refuses |
| Rooms.CRoomManager.HandleLogoutClassRoom | handler/HandleClassRoom.cpp:525-563 | the teacher frees the room and stays its teacher |
| Rooms.RunSound | content/room.cpp:223-242 | over every run no connection is a student of two rooms and a used room has a positive teacher |
| Rooms.TeacherStays | handler/HandleClassRoom.cpp:486-518 | as long as a room stays in use its teacher does not change |
| Rooms.StepLaw | content/room.cpp:223-242 | one event, for every room and connection: who joins, leaves, becomes whiteboard or teacher, which room opens or closes; nothing else changes |
| Rooms.StudentIff | handler/HandleClassRoom.cpp:804-834 | over every run a connection is a student of a room exactly when it has joined it, or was there, and has not left since |
| Rooms.UsedIff | handler/HandleClassRoom.cpp:486-563 | over every run a room is in use exactly when a login has opened it, or it was in use, and nothing has closed it since |
| Rooms.WhiteboardIs | handler/HandleClassRoom.cpp:827-831 | the whiteboard is the one set by the last event that set it |
| Rooms.TeacherIs | handler/HandleClassRoom.cpp:486-518 | the teacher is the one set by the last login to the free room, or none after it has left |
| Rooms.OthersKept | content/room.cpp:223-242 | a connection that leaves takes nobody's role but its own |
| Rooms.LeftIff | content/room.cpp:223-242 | a room still knows a connection that has left exactly when it had two of the three roles |
| Rooms.LeftForGood | content/roommanager.cpp:48-78 | with at most one role in every room, no room knows it any more |
| Rooms.OwnRoomsFreed | content/room.cpp:223-231 | and it has freed only the rooms it was the teacher of |
| Rooms.StillKnown | handler/HandleClassRoom.cpp:827-831 | two roles can be had: a student taken for the whiteboard |
| PictureCodec.PartIsCut | content/DataTool.cpp:49-105 | reading digits out of the middle of the printed number is dividing and taking the remainder |
| PictureCodec.EncodeUndoesDecode | content/DataTool.cpp:49-137 | every `long long` of 18 or 19 digits decodes to fields in range, and encoding them gives it back |
| PictureCodec.DecodeUndoesEncodeIff | content/DataTool.cpp:49-137 | a picture in range that fits comes back exactly when it has a student |
| PictureCodec.RangePreserved | content/DataTool.cpp:49-137 | every picture in range with a student from 1 to 91 fits and comes back |
| PictureCodec.PackedDigits | content/DataTool.cpp:125-134 | the number reads, from the left: student, layer, name, scale, angle, `y` and `x`, each in its number of digits |
| PictureCodec.DataTool.SetData | content/DataTool.cpp:125-134 | the seven fields are added, and no `int` or `long long` overflows |
| PictureCodec.DataTool.GetData | content/DataTool.cpp:135-138 | every call adds the picture once more |
| PictureCodec.DataTool.Get | content/DataTool.cpp:49-105 | the number in a stretch of the digit string, or an exception when it is too short |
| PictureCodec.DataTool.GetPicture | content/DataTool.cpp:106-116 | all seven fields, or an exception |

## Left out

- XML declarations: one that is met ends the parse with an error of its own; the source's parser for them asserts at the end of the input.
- UTF-8 mode of the parser and byte order marks: text is in the one-byte encoding; the codec alone is modelled.
- XmlAccept.DocumentBackIff: values with an `&#x` that has no `;`, a terminator before it, or no number in front of it are excluded; what they read as depends on the text behind the value. Each value alone is covered by `XmlText.KeepUndoesEncodeIff`.
- XmlCopy.CopyPrintsSameIff: layouts in which no line break follows a text are covered in one direction only, by `XmlCopy.CopyPrintsSame`.
- Node locations and user data: `Stamp` is modelled on its own, and parsing does not call it.
- Freeing memory: removed nodes, old buffers and replaced students just stop being used.
- XmlParser.ParseElementAt: a lone `<` at the end of the input records an error, where the source asserts in `ReadName`; `Identify` never leads there.
- XmlParser.ParseTagAt: the attributes of a node are a sequence with the meaning proved of the circular list, not that list itself.
- Dom.DomNode.CopyAttributesTo: requires unique names, which the circular list guarantees.
- Dom.DomNode.InsertBeforeChild: the error recorded for a document, and the document's own error state, are not modelled; the same for the other edits.
- Dom.DomNode.LinkEndChild: the parent that `Identify` sets in a node before it is linked is not modelled; a node to link has none.
- Dom.DomNode.Clone: attribute lists on which the copy would trip the assert of `Add` are excluded, as the source excludes them; so are attribute names with a terminator, which nothing in the source can set.
- TinyStr.TiXmlString.Reserve: lengths and capacities are unbounded; the overflow of `size_t` is not modelled.
- TinyStr.TiXmlString.Append: the argument lies outside the buffer; appending a string to itself is not modelled.
- `TIXML_USE_STL` code, handles, number queries and the `FILE*` printing variants: not compiled, thin, or the same text in another form.
- Framing.RecvCb: a length above 5120, which the source does not check, is excluded.
- Framing.SendLoop: an endless schedule of retries is cut off when the schedule ends.
- Buffers.Server.RecvCb: an empty pool, on which the source aborts, is excluded; so is a pool that runs out while a message is copied to students.
- Messages the room handlers send, course and game lists, and teacher and class names: they do not decide who is in which room.
- Handlers that drop a buffer, and the one-student forwarder: their runs do not conserve buffers.
- PictureCodec.DecodeUndoesEncodeIff: `float` rounding is not modelled; coordinates are reals and come back rounded down.
- Negative packed numbers: the digits of a negative number are not read.
- Generator.GetLine: lines of 1023 characters and more make the source read for ever and are excluded, and so is a file that is not there.
- Handler files of the generator: they are appended to, not rewritten.
- Sockets, the event loop, threads, logging, databases and scripting: libraries not visible here.
