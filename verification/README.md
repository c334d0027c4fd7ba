# netcwmp verification model

A Dafny model of the parts of the netcwmp TR-069 client library that carry
state or arithmetic, with proofs of what they keep, undo and refine:

- **XML parser and printer** (`libxmlet/src/parser.c`, `xmlet.c`, `buffer.c`):
  a hand-written state machine with an element stack, one-token lookahead and
  entity decoding, and the printer whose output it reads. `XmlChars`,
  `XmlText`, `XmlBuffers`, `XmlReferences`, `XmlSyntax` (the parser as
  functions), `XmlBuild` (the document under construction), `XmlParser` (the
  parser as the program runs it), `XmlNesting`, `XmlTokens`, `XmlForms` (the
  ways to write a document), `XmlReading` (each is read as its tree),
  `XmlWritten` and `XmlAccepted` (what is accepted was written so), `XmlPrint`
  (the text of trees), `XmlPrinter` (the printer on linked nodes),
  `XmlRoundTrip` and `XmlDocuments`.
- **DOM mutation and search** (`libxmlet/src/node.c`, `list.c`): a heap of
  doubly linked sibling lists. `Dom`, `DomLinks`, `DomEdit`, `DomHierarchy`
  (kinds and owners), `DomQuery`, and `DomTrees` (the trees that such a heap
  stands for).
- **Small-block allocator** (`libcwmp/src/memory.c`): `TrBlocks` (the ledger of
  who owns which bytes) and `TrHeap` (free lists linked through the memory).
- **Arena allocator** (`libpool/src/pool.c`): `PoolLayout` and `Pools`.
- **INI files** (`libcwmp/src/ini.c`): `IniText`, `Ini`, `IniMeaning`,
  `IniMap`, `IniRuns`, `IniReading` (what a file says, on its lines),
  `IniLayout` (what a put leaves, on its lines), `IniLong`.
- **Streaming MD5** (`libcwmp/src/md5.c`): `Md5`, `Md5Block`, `Md5Stream`, and
  `Md5Vectors` (the digests of RFC 1321, appendix A.5).
- **Parameter tree** (`libcwmp/src/cwmp.c`): `ParamPaths`, `ParamResolve`,
  `ParamChains` (paths as chains of nodes), `ParamTree`.
- **Chunked output** (`libcwmp/src/buffer.c`): `Chunks`.

The modules of one part build on each other, on `Wrappers` (two stock types),
and, for the parser and printer, on the DOM heap. Code that the C program runs in
place is a class whose methods are proved against a specification function or a
ghost view of the state; a class invariant that every method keeps (`Valid`,
`Formed`, `Builds`) is the statement about every run.

## Main results

1. *The parser implements its specification.* `XmlParser.XmlParser.ParseDocument`, with
   its pointer, backups, token buffer and the node heap it fills by
   `XmlNodeAppendChild`, fails exactly as `Parse(data)` does, and otherwise
   returns a document whose links form a forest with every node under it and
   whose trees are those of `Parse(data)`, for every text. Every turn of the
   loop lowers twice the bytes left plus one in character data
   (`XmlSyntax.Step`), so it ends.
2. *Nesting.* In every state of a run the element stack carries the names of
   the open path (`XmlNesting.StepKeeps`). An accepted text's tree is exactly
   the events read, in order, with each end tag matching the innermost open
   start tag, at most one root and no attribute twice
   (`XmlNesting.AcceptedDocument`).
3. *However a document is written, it is read as its tree.* A document with any
   white space, comments and instructions between its tags, a declaration of
   XML, attributes in either quotes, characters written as themselves, by number
   or by name, and any of its empty elements with one tag or two is parsed to
   the one tree (`XmlReading.ReadDocument`); and a text that is accepted is, from
   end to end, a prolog and pieces each of which is a written form of what was
   read from it (`XmlAccepted.AcceptedText`): no bare `&`, no `<` in a value and
   no `]]>` in text gets through. A wrong end tag, a second root, a repeated
   attribute, stray text and an open end are refused, each with its code.
4. *Print, then parse, from nodes to nodes.* The printer's walk along
   first-child and next-sibling links appends the printed form of the trees
   behind them (`XmlPrinter.PrintDomTree`, `XmlDocuments.PrintDocument`), and
   parsing that text gives the tree back (`XmlRoundTrip.ParsePrinted`), again as
   a document of linked nodes (`XmlDocuments.PrintParsePrint`). Printing the
   result once more gives the same text exactly when the tree has no value
   bytes: the printer shows an element's own value, the parser stores it as a
   text child.
5. *Codecs.* Decoding undoes UTF-8 encoding on all of 0..0x7FFFFFFF, and
   re-encoding gives the bytes back exactly on shortest forms. Decoding undoes
   escaping exactly on well-formed texts (`XmlText.EscapeRoundTrip`). A number's
   figures, found by dividing, are read as the number in both bases
   (`XmlReferences.NumberReference`), and whatever is read as a character was
   written as one (`XmlWritten.CharWritten`).
6. *DOM.* Append, insert, replace and remove have exactly their DOM effect and
   leave a forest, and the exact condition is stated: the moved node is not the
   new parent itself, has no parent or the one it goes to, and is not put before
   itself. Otherwise the fields describe no forest at all, and three runs show
   that the answer is still success. The ancestor test is exact on movable
   nodes. Every edit keeps which kinds stand under which, and an edit keeps one
   owner document per tree exactly when the newcomer has the parent's owner, or
   is appended without children (`DomHierarchy.AppendOwners`). The search by tag
   name collects exactly the elements of that name, in document order, each once.
7. *Small-block allocator.* In every run each byte has one owner: a block handed
   out, a block on the list of its size, the chunk, or a block that is lost.
   A block is lost exactly when a list is refilled while one object of its size
   is left in the chunk (`TrHeap.Strands`), by malloc and by realloc; two
   requests on a new heap do it (`TrHeap.StrandsLeftover`). What the chunk has
   left after each request is exact (`TrHeap.Drawn`). What holders write is kept,
   also across realloc, and cannot disturb the links kept in free blocks.
8. *Arena.* Regions handed out never overlap and lie in their own block past its
   header; a request is served by the first block with room; destroying frees
   everything obtained exactly once and runs each cleanup once, the last
   registered first; clearing gives the state of a new pool. Pools of every
   size are covered. The unsigned test for room finds the first fit exactly when
   the block it finds has the room (`PoolLayout.ChosenFits`); it always does in
   pools of a multiple of 8, and in any other pool some requests overrun a
   block. The mutual recursion for large objects ends exactly when the request
   or the record is within the pool's limit (`PoolLayout.RecursionEnds`).
9. *INI files are a map.* After any run of puts every key of every section reads
   as the last value put or as before (`IniMap.RunReads`). Reading back one put
   succeeds exactly under the condition of `IniMap.PutThenGet`: the reader drops
   blanks before the separator and the writer does not. After any run of puts and
   erasures of keys and sections, on any file whose lines fit the buffer, a key
   reads as the run makes of its own lines alone (`IniRuns.AnyRunReads`), and as
   a map where it stands once at most (`IniRuns.AnyRunIsMap`). What a file says
   for a key is told on its lines and their pieces (`IniReading.FileSays`), and so
   is the file each put and erasure leaves, byte for byte (`IniLayout.PutLaid`).
   `ini_getl` is `strtol` on every text (`IniLong.StrtolOf`), and every long is
   read back after `ini_putl`.
10. *MD5.* However a message is cut, the digest is that of RFC 1321 for the
   whole (`Md5Stream.Context.Final`, `Md5Stream.DigestOfPieces`), for pieces that
   together with the waiting tail stay below 2^32 bytes; for any other piece the
   loop does not end (`Md5Stream.LoopBound`, `Md5Stream.LoopEnds`). The unrolled
   transformation is the step-by-step one of section 3.4, and the digests of the
   empty message and of `abc` are those of appendix A.5, proved step by step
   (`Md5Vectors.DigestOfAbc`).
11. *Parameter names.* The list under an object is the visible descendants in
    preorder, each once and as many as counted; names are distinct, and both
    resolvers lead each back to its node. A resolver finds a node exactly when a
    chain of children named by the parts of the path leads to it, and nothing
    when there is none (`ParamChains.ResolveFollows`, `ParamChains.PathFollows`). A list answered to a request resolves
    as a whole exactly when every part of the requested path names a visible
    node (`ParamResolve.AnswerResolves`).
12. *Chunks.* The buffers refine one byte sequence; copying its first n bytes
    gives them exactly when no byte but NUL follows a NUL in its buffer there.

## Conventions of the model

- Bytes are characters below 256 of a `string`; texts are NUL-free as C strings
  are. Plain `char` is signed, so bytes from 0x80 on compare below a space:
  `XmlSyntax.IsBlank` and `IniText.Blank` follow the code in this.
- Where the code and its comments differ the code is followed:
  `ini.c` calls its comparison case-insensitive but maps it to `strncmp`, and
  the comparison here is exact. The one exception is `UINT4`, whose comment says
  four bytes and whose type is `unsigned long`; `Md5` follows the comment, as
  RFC 1321 requires.
- Parser outcomes the model does not describe further (a CDATA section, a
  document type, a prefixed element name, a namespace declaration, an end tag
  with no element open, a trim that runs out of its buffer) are the outcome
  `Outside`.
- The system's malloc is any allocator that returns room beside everything not
  yet freed; pointers are eight bytes, `size_t` is 64 bits.

## Model

| member | source | states |
|---|---|---|
| XmlChars.DecodeEncoded | libxmlet/src/parser.c:395-518 | decoding the encoding of any c in 0..0x7FFFFFFF, wherever it stands in a text, gives c and the encoding's length |
| XmlChars.EncodeDecoded | libxmlet/src/parser.c:395-518 | re-encoding a decoded sequence gives the same bytes exactly when it was the shortest form |
| XmlChars.NameCharIsXmlChar | libxmlet/src/parser.c:325-355 | every character the name tables admit is an XML character |
| XmlChars.Utf8Forms | libxmlet/src/parser.c:395-435 | the one to four bytes of RFC 3629 for each size of character |
| XmlChars.AsciiNames | libxmlet/src/parser.c:325-355 | in ASCII names begin with a letter, `_` or `:`, and go on with digits, `-` and `.` too |
| XmlBuffers.XmlBuffer.SetSize | libxmlet/src/buffer.c:52-115 | growing keeps length and content and leaves capacity strictly above the length asked for |
| XmlBuffers.XmlBuffer.Insert | libxmlet/src/buffer.c:266-305 | splices at the index or answers IndexSizeErr and changes nothing; the byte at length stays NUL |
| XmlBuffers.XmlBuffer.AppendString | libxmlet/src/buffer.c:224-264 | the content becomes the old content followed by the text |
| XmlBuffers.MakeRoomAndCopy | libxmlet/src/buffer.c:297-302 | moving the tail with its NUL and copying in place is the splice |
| XmlText.AppendEscaped | libxmlet/src/xmlet.c:54-103 | one character is appended escaped |
| XmlText.CopyWithEscape | libxmlet/src/xmlet.c:40-110 | the buffer gains exactly the escaped text |
| XmlText.GetEntity | libxmlet/src/parser.c:1444-1550 | each entity the escaper writes is read back as its one character, and no other entity matches there |
| XmlText.GetPlain | libxmlet/src/parser.c:1444-1550 | a character that is no reference is read as itself |
| XmlText.DecodeIsWellFormed | libxmlet/src/parser.c:1561-1628 | whatever copying a token yields is well-formed: XML characters in shortest form |
| XmlText.DecodeEscaped | libxmlet/src/parser.c:1561-1628 | copying an escaped well-formed text gives the text |
| XmlText.DecodePlain | libxmlet/src/parser.c:1561-1628 | a well-formed text without references is copied as it stands |
| XmlText.EscapeRoundTrip | libxmlet/src/xmlet.c:40-110 | escaping and then copying gives the text back exactly when it is well-formed, in any surroundings |
| XmlText.EscapeLeavesNoMark | libxmlet/src/xmlet.c:40-110 | an escaped text holds none of the five marks but the `&` of its entities |
| XmlReferences.NumberReference | libxmlet/src/parser.c:1505-1545 | every XML character is read from its figures in base ten or sixteen, found by dividing, in either case and behind zeros |
| XmlReferences.EntityReference | libxmlet/src/parser.c:1460-1503 | the five entities are read as their characters, in any case |
| XmlReferences.TextCopied | libxmlet/src/parser.c:1561-1628 | a text written as any mixture of characters, numbers and names is copied as its UTF-8 form |
| XmlSyntax.GetNextNode | libxmlet/src/parser.c:3168-3279 | one read moves only the pointer, the state and lastElem, and lowers the measure unless it ends or fails |
| XmlSyntax.Step | libxmlet/src/parser.c:1152-1282 | every successful turn of the loop lowers twice the bytes left plus one in character data |
| XmlSyntax.MiscStops | libxmlet/src/parser.c:1861-1890 | skipping stops before no space, comment or instruction, and doing it again moves nothing |
| XmlSyntax.PrologStops | libxmlet/src/parser.c:1731-1768 | a prolog passed over ends inside the text, before no space, comment, instruction or document type |
| XmlNesting.StepKeeps | libxmlet/src/parser.c:1152-1288 | every turn keeps: the stack names the open path, one root, no repeated attributes, attributes before children |
| XmlNesting.LeaveMatches | libxmlet/src/parser.c:559-570 | the two comparisons of an end tag, with the stack and with the current node, agree |
| XmlNesting.LeaveKeeps | libxmlet/src/parser.c:1027-1065 | closing an element keeps the invariant |
| XmlNesting.AddAttrKeeps | libxmlet/src/parser.c:833-903 | an attribute is added only if its name is new, and the invariant is kept |
| XmlNesting.StepEvents | libxmlet/src/parser.c:1152-1288 | after each turn the tree built so far is the events read so far, in order |
| XmlNesting.RunEvents | libxmlet/src/parser.c:1117-1317 | a run that succeeds yields the tree of its events, with at most one root, an element |
| XmlNesting.TreeBalanced | libxmlet/src/parser.c:1027-1065 | the events of a tree, replayed against a stack of names, leave the stack as it was |
| XmlNesting.AcceptedDocument | libxmlet/src/parser.c:1117-1317 | an accepted text had properly nested tags, at most one root and no repeated attribute, and its tree is exactly what was read (XML 1.0, sections 2.1, 3, 3.1) |
| XmlPrint.PrintAttrList | libxmlet/src/xmlet.c:195-232 | attributes are printed in order and quoted, values as they stand |
| XmlPrint.PrintedForm | libxmlet/src/xmlet.c:234-340 | the text of three lists of nodes, to the byte |
| XmlPrinter.LastPrinted | libxmlet/src/xmlet.c:137-193 | a text, CDATA section or instruction ends the list it stands in; a text is escaped, a CDATA section bare |
| XmlPrinter.PrintTree | libxmlet/src/xmlet.c:118-346 | the walk from a node along its links appends the text of its siblings from there on, for every kind of node |
| XmlPrinter.PrintDomTree | libxmlet/src/xmlet.c:357-516 | the same for one node alone |
| XmlPrinter.ListIsTrees | libxmlet/src/xmlet.c:118-346 | on elements and texts that text is the printed form of their trees |
| XmlDocuments.PrintDocument | libxmlet/src/xmlet.c:357-516 | printing a document gives the printed form of its trees |
| XmlDocuments.PrintParsePrint | libxmlet/src/xmlet.c:357-516 | printed and parsed, a printable document is a linked document of the same names, attributes and order; the second print is the first exactly without value bytes |
| XmlTokens.NameEndAt | libxmlet/src/parser.c:1967-1978 | a name token ends where the name ends |
| XmlTokens.TokenName | libxmlet/src/parser.c:1900-1997 | reading a token at a name gives the name |
| XmlTokens.TokenStartOpen | libxmlet/src/parser.c:1900-1997 | a bracket before a name is a token of its own |
| XmlTokens.TokenEndOpen | libxmlet/src/parser.c:1900-1997 | a bracket with a slash is one token |
| XmlReading.StartRead | libxmlet/src/parser.c:2349-2434 | a start tag's name, with any white space behind it, opens the element, and the lookahead decides whether attributes, content or the closing mark follow |
| XmlReading.LoopAttrs | libxmlet/src/parser.c:2994-3160 | attributes however spaced and quoted are read in order |
| XmlReading.TextRead | libxmlet/src/parser.c:2630-2778 | character data, each character written in any way, becomes one text child |
| XmlReading.EndRead | libxmlet/src/parser.c:2787-2845 | an end tag is read as the end of the element it names |
| XmlReading.LoopClose | libxmlet/src/parser.c:3230-3250 | `/>` closes the element that its tag has just opened |
| XmlReading.LoopElem | libxmlet/src/parser.c:1152-1288 | the loop reads an element with one tag or two as one child of the node that is open |
| XmlReading.LoopItems | libxmlet/src/parser.c:1152-1288 | and what stands inside it in its order, comments and instructions left out |
| XmlReading.PrologIs | libxmlet/src/parser.c:1731-1768 | white space, a declaration of XML, comments and instructions in front of the root are passed over |
| XmlReading.ReadDocument | libxmlet/src/parser.c:1117-1317 | every way to write a document is parsed to its tree |
| XmlReading.EitherTag | libxmlet/src/parser.c:3230-3250 | an empty element is the same with one tag as with two |
| XmlReading.WrongEnd | libxmlet/src/parser.c:1027-1065 | an end tag with another name than the open element's is a syntax error, wherever it stands |
| XmlReading.SecondRoot | libxmlet/src/parser.c:906-960 | so is a second root |
| XmlReading.RepeatedAttr | libxmlet/src/parser.c:833-903 | and an attribute with the name of one before it |
| XmlReading.StrayText | libxmlet/src/parser.c:1178-1200 | text outside the root is a hierarchy error |
| XmlReading.LeftOpen | libxmlet/src/parser.c:1284-1288 | a text that ends with an element open is a syntax error |
| XmlWritten.CharWritten | libxmlet/src/parser.c:1444-1550 | what is read as a character was written as itself, by number, by name, or in more bytes than it needs |
| XmlWritten.TextWritten | libxmlet/src/parser.c:1561-1628 | a text that is copied was written character by character |
| XmlWritten.ValueClean | libxmlet/src/parser.c:3061-3100 | an attribute value that is accepted holds no `<` |
| XmlAccepted.SkippedIsGap | libxmlet/src/parser.c:1861-1890 | what is skipped is white space, comments and instructions |
| XmlAccepted.TokenRead | libxmlet/src/parser.c:1900-1997 | a token is a mark as it stands or a Name, behind such a gap |
| XmlAccepted.NodeWritten | libxmlet/src/parser.c:3168-3279 | whatever node is read was written as one: a tag, an attribute between like quotes, character data without markup |
| XmlAccepted.AcceptedText | libxmlet/src/parser.c:1117-1317 | an accepted text is a prolog and the written forms of the tree's events, in order, with nothing between |
| XmlRoundTrip.FormIs | libxmlet/src/xmlet.c:118-346 | the printed text of an element is one of its written forms |
| XmlRoundTrip.ParsePrinted | libxmlet/src/xmlet.c:118-346 | parsing the printed text of any printable tree succeeds with the same names, attributes in order and child order, each value back as a text child |
| XmlRoundTrip.ReprintElement | libxmlet/src/xmlet.c:261-301 | the second print of an element is shorter by exactly its values |
| XmlRoundTrip.PrintParsePrint | libxmlet/src/xmlet.c:261-301 | printing the parsed tree gives the text again exactly when the tree has no value bytes |
| XmlParser.XmlParser.SkipWhiteSpaces | libxmlet/src/parser.c:1427-1436 | the pointer moves past the spaces |
| XmlParser.XmlParser.SkipComment | libxmlet/src/parser.c:1776-1798 | the pointer moves past a comment, or the comment has no end |
| XmlParser.XmlParser.SkipMisc | libxmlet/src/parser.c:1861-1890 | comments, instructions and spaces are passed over |
| XmlParser.XmlParser.NextChar | libxmlet/src/parser.c:1444-1550 | one character or reference is read as the specification says |
| XmlParser.XmlParser.CopyToken | libxmlet/src/parser.c:1561-1628 | the token buffer gains the decoded token, or the bytes before a failure |
| XmlParser.XmlParser.GetNextToken | libxmlet/src/parser.c:1900-1997 | pointer, token and length are those of the specification's next token |
| XmlParser.XmlParser.ProcessSTag | libxmlet/src/parser.c:2349-2434 | a start tag's name and the state after it |
| XmlParser.XmlParser.ProcessETag | libxmlet/src/parser.c:2787-2845 | an end tag's name and the state after it |
| XmlParser.XmlParser.ProcessAttribute | libxmlet/src/parser.c:2994-3160 | an attribute, its value and what the lookahead after it decides |
| XmlParser.XmlParser.ProcessContent | libxmlet/src/parser.c:2630-2778 | character data up to markup, trimmed |
| XmlParser.XmlParser.NextNode | libxmlet/src/parser.c:3168-3279 | one read of the parser, with its backups, is one read of the specification |
| DomTrees.AllUnder | libxmlet/src/parser.c:1192-1203 | when every node but the document is a child, every node lies under the document |
| DomTrees.KidsDisjoint | libxmlet/src/node.c:929-987 | what lies below one child lies below no other |
| DomTrees.SpineStays | libxmlet/src/parser.c:996-997 | a change at the current node leaves every open element above it, with the closed children before it, as it was |
| DomTrees.LeafAppended | libxmlet/src/parser.c:1192-1203 | a node linked last under the current one stands behind its closed children and nothing else changes |
| DomTrees.SpineClosed | libxmlet/src/parser.c:1054-1058 | the last child, once closed, is the last tree of its parent |
| XmlBuild.Builder.Append | libxmlet/src/node.c:929-987 | a new node linked under the current one leaves a forest with the same open path; the exact answer |
| XmlBuild.Builder.AddText | libxmlet/src/parser.c:1182-1203 | a text node joins the children of the current element, and the document takes none |
| XmlBuild.Builder.AddAttribute | libxmlet/src/parser.c:864-903 | the attribute joins the end of the current element's list |
| XmlBuild.Builder.Leave | libxmlet/src/parser.c:1052-1061 | up to the parent exactly when the name is that of the current node, whose tree is then closed |
| XmlBuild.TrimTwice | libxmlet/src/document.c:394-411 | trimming a value a second time, as creating its node does, leaves it |
| XmlParser.XmlParser.ProcessElementName | libxmlet/src/parser.c:909-1020 | opens an element, linked last under the current node, unless a second root would start |
| XmlParser.XmlParser.ProcessAttributeName | libxmlet/src/parser.c:863-903 | a new name is added, a repeated one is a syntax error |
| XmlParser.XmlParser.VerifyETag | libxmlet/src/parser.c:1027-1065 | pops the stack and moves to the parent exactly when the names agree |
| XmlParser.XmlParser.Handle | libxmlet/src/parser.c:1152-1282 | one turn's effect on stack, path and tree, and the node heap still holds them |
| XmlParser.XmlParser.SkipProlog | libxmlet/src/parser.c:1731-1768 | the prolog is passed over as specified |
| XmlParser.XmlParser.ParseDocument | libxmlet/src/parser.c:1117-1317 | for every text the run fails as specified, or returns a document whose nodes form a forest, all lie under it and hold the specified trees |
| XmlParser.OverlongFails | libxmlet/src/parser.c:1935-1993 | a bracket before a slash in overlong form counts as an end tag's token, its copy fails, and the two characters stay in the buffer |
| XmlParser.TokenCopies | libxmlet/src/parser.c:1985-1993 | the copy of any other token recognised succeeds |
| Dom.ChildLink | libxmlet/src/node.c:583-610 | descending to the first child goes to the first of the children, one level lower |
| Dom.IsAncestorMeaning | libxmlet/src/node.c:583-610 | the test is true exactly when the node or one of its following siblings is an ancestor |
| Dom.IsAncestorExact | libxmlet/src/node.c:583-610 | on a detached node, or a child of the node asked about, it is true exactly for ancestors |
| Dom.AboveIsHigher | libxmlet/src/node.c:583-610 | ancestors rank higher: there are no cycles |
| DomLinks.UnlinkedFormed | libxmlet/src/node.c:886-903 | the pointer changes of a removal give the forest without the child |
| DomLinks.SplicedFormed | libxmlet/src/node.c:764-778 | the pointer changes of an insertion give the forest with the child at its place |
| DomEdit.FormedIsConsistent | libxmlet/src/node.c:722-987 | in a forest next and previous are inverse, first children know their parent, and nothing is its own parent or sibling |
| DomEdit.RemoveChild | libxmlet/src/node.c:870-910 | the exact answer; on success the child leaves its list and every other list is as before |
| DomEdit.AppendChild | libxmlet/src/node.c:929-987 | the exact answer; a movable node becomes the last child and every other list is as before, any other node leaves no forest |
| DomEdit.InsertBefore | libxmlet/src/node.c:722-787 | the exact answer; a movable node other than the reference stands right before it and every other list is as before, anything else leaves no forest |
| DomEdit.ReplaceChild | libxmlet/src/node.c:809-854 | the exact answer; a movable node stands in the place of the old one, which is detached; a node put in its own place is removed |
| DomEdit.AppendedTwice | libxmlet/src/node.c:929-987 | an element appended while it is a child elsewhere: success, and no forest is left |
| DomEdit.AppendedToItself | libxmlet/src/node.c:929-987 | an element appended to itself: likewise |
| DomEdit.PutBeforeItself | libxmlet/src/node.c:722-787 | an only child inserted before itself: likewise |
| DomEdit.MoveThenRemove | libxmlet/src/node.c:846-853 | inserting before a child and removing the child is putting in its place |
| DomHierarchy.Taken | libxmlet/src/node.c:644-677 | which kinds of nodes each kind takes as children |
| DomHierarchy.AppendAnswers | libxmlet/src/node.c:938-960 | on a node that is alone or here already, append refuses exactly for its document, for being above the parent, and for its kind |
| DomHierarchy.InsertAnswers | libxmlet/src/node.c:722-760 | insert refuses for place and kind, then for the document, then for a reference that is no child |
| DomHierarchy.ReplaceAnswers | libxmlet/src/node.c:803-845 | replace answers as insert does, and what may be inserted may be appended |
| DomHierarchy.AppendKeepsKinds | libxmlet/src/node.c:938-987 | an append keeps every child of a kind its parent takes |
| DomHierarchy.InsertKeepsKinds | libxmlet/src/node.c:722-784 | so does an insert |
| DomHierarchy.ReplaceKeepsKinds | libxmlet/src/node.c:803-855 | and a replace |
| DomHierarchy.RemoveKeepsKinds | libxmlet/src/node.c:866-911 | and a removal |
| DomHierarchy.AppendOwners | libxmlet/src/node.c:938-987 | an append keeps one owner per tree exactly when the newcomer has the parent's owner or no children |
| DomHierarchy.InsertOwners | libxmlet/src/node.c:722-784 | an insert exactly when it has the parent's owner |
| DomHierarchy.ReplaceOwners | libxmlet/src/node.c:803-855 | and so does a replace |
| DomQuery.GetElementsRecursive | libxmlet/src/node.c:1844-1885 | walking first-child and next-sibling links appends the preorder of the matching elements |
| DomQuery.GetElements | libxmlet/src/node.c:1895-1926 | the same from one node, without its siblings |
| DomQuery.CollectedExactly | libxmlet/src/node.c:1844-1926 | a node is collected exactly when it is a matching element in the subtrees |
| DomQuery.CollectedOnce | libxmlet/src/list.c:91-148 | nothing is collected twice |
| DomQuery.Comparable | libxmlet/src/node.c:583-610 | two ancestors of one node are ancestors of each other |
| DomQuery.AllElements | libxmlet/src/node.c:1844-1890 | asked for `*`, all elements of the subtrees are collected |
| DomQuery.NamedElements | libxmlet/src/node.c:1844-1890 | asked for a name, those of them with exactly that name |
| DomQuery.CollectedInOrder | libxmlet/src/node.c:1844-1926 | in document order: ancestors first, then siblings as they stand |
| TrBlocks.OneOwner | libcwmp/src/memory.c:146-337 | no byte belongs to two blocks, handed out, listed, chunk or lost |
| TrBlocks.CutKeeps | libcwmp/src/memory.c:166-179 | cutting a block keeps blocks apart and loses no byte |
| TrBlocks.ChunkCut | libcwmp/src/memory.c:166-179 | taking from the chunk's front keeps the ledger and every byte |
| TrBlocks.ChunkRetired | libcwmp/src/memory.c:183-188 | putting the leftover on the list of its size keeps the ledger and every byte |
| TrBlocks.HeadHandedOut | libcwmp/src/memory.c:272-279 | the head of a list is not live before, has the size of its class, and handing it out keeps the ledger |
| TrBlocks.GivenBack | libcwmp/src/memory.c:301-309 | a block freed with its size has the size of the list it goes to |
| TrBlocks.ListDropped | libcwmp/src/memory.c:231-235 | forgetting a list loses exactly its blocks |
| TrBlocks.FreeListIndex | libcwmp/src/memory.c:153-156 | list i is for requests that round up to 8 times i plus 1 bytes |
| TrHeap.ChainPush | libcwmp/src/memory.c:308-309 | writing the link into a block and moving the head puts the block in front of the chain |
| TrHeap.ChainApart | libcwmp/src/memory.c:301-309 | writes into a block on no list leave every chain |
| TrHeap.ThreadedEnd | libcwmp/src/memory.c:236-249 | the links of a fresh run form the list of its pieces |
| TrHeap.TrHeap.SystemMalloc | libcwmp/src/memory.c:123-129 | aligned room that overlaps nothing held |
| TrHeap.TrHeap.Replenish | libcwmp/src/memory.c:180-214 | the leftover is listed and a new chunk of the given length is taken; nothing live is touched |
| TrHeap.TrHeap.ChunkAlloc | libcwmp/src/memory.c:160-217 | the exact number of objects, from the chunk's front or a new chunk, disjoint from everything live |
| TrHeap.TrHeap.Thread | libcwmp/src/memory.c:230-249 | the pieces after the first become the list; the list's former blocks are lost |
| TrHeap.TrHeap.Refill | libcwmp/src/memory.c:220-252 | the first piece, the new list, and the leftover of exactly this size lost |
| TrHeap.TrHeap.Allocate | libcwmp/src/memory.c:256-287 | a block not live before, apart from every live one; live contents unchanged; the exact lists, loss and rest of the chunk |
| TrHeap.FirstDraws | libcwmp/src/memory.c:160-216 | the first requests on a new heap: ten objects from a chunk of twice their length, then one longer by a sixteenth of what there is |
| TrHeap.StrandsLeftover | libcwmp/src/memory.c:160-252 | a request for 8 bytes and one for 80 on a new heap lose a block |
| TrHeap.TrHeap.Deallocate | libcwmp/src/memory.c:293-316 | exactly this block is live no more, in front of its list or back with the system |
| TrHeap.TrHeap.Reallocate | libcwmp/src/memory.c:322-337 | the first bytes up to the smaller length are kept, other live blocks are as before, and within a size class the block stays; the exact loss |
| TrHeap.TrHeap.Store | libcwmp/src/memory.c:36-40 | a holder's write into its own block, which overlays the link, disturbs no list |
| TrHeap.Moved | libcwmp/src/memory.c:332-336 | allocating, copying and freeing keeps the bytes and the others' blocks |
| PoolLayout.NoOverlap | libpool/src/pool.c:263-395 | no two regions handed out overlap, wherever they come from |
| PoolLayout.BumpKeeps | libpool/src/pool.c:278-283 | moving a block's mark past a region keeps regions inside blocks and apart |
| PoolLayout.RoomTest | libpool/src/pool.c:278-278 | the unsigned test is right for every size exactly when the aligned mark is not past the end |
| PoolLayout.AlignedFits | libpool/src/pool.c:276-278 | the aligned mark is never past the end exactly when the pool's size is a multiple of 8 |
| PoolLayout.OddPoolOverruns | libpool/src/pool.c:267-283 | in a pool of any other size some requests fill a block exactly, and then every request within the pool's limit passes the test and ends past the block |
| PoolLayout.RecursionEnds | libpool/src/pool.c:370-395 | palloc and palloc_large return at some depth of calls, by which both are proved to end, exactly when the request or the record is within the pool's limit |
| PoolLayout.RoomAt | libpool/src/pool.c:272-288 | the unsigned test at a block passes exactly when the request fits or the aligned mark lies past the end |
| PoolLayout.ChosenFits | libpool/src/pool.c:272-288 | the block the search finds is the first fit exactly when the request stays inside it |
| PoolLayout.AlwaysFits | libpool/src/pool.c:272-319 | which holds in pools of a multiple of 8, and without aligning in every pool |
| PoolLayout.FirstFit | libpool/src/pool.c:272-288 | the first block from the current one on with room |
| PoolLayout.PoolLimits | libpool/src/pool.c:142-145 | the longest request served from blocks: what the record leaves of the first block, at most 4095 |
| Pools.Pool.constructor | libpool/src/pool.c:126-154 | a new pool of any size: one empty block, nothing else obtained |
| Pools.Pool.Palloc | libpool/src/pool.c:263-294 | aligned; the first block with room, or a new one, or for long requests a system block of its own; for every request whose block has the room |
| Pools.Pool.Pnalloc | libpool/src/pool.c:297-327 | the same without alignment |
| Pools.Pool.PallocBlock | libpool/src/pool.c:330-367 | the new block ends the chain and the region starts past its header; the current block stays in the chain |
| Pools.Pool.Onward | libpool/src/pool.c:352-364 | the search goes on past the last full block that has a successor, and no further |
| Pools.FullMeans | libpool/src/pool.c:356-356 | a block is full when eight bytes do not fit behind its mark |
| Pools.SkipsOne | libpool/src/pool.c:352-364 | where the search goes on is determined by that |
| Pools.SkipsRoom | libpool/src/pool.c:352-364 | moving on loses no room exactly when every block passed over was full |
| Pools.RoomPassedOver | libpool/src/pool.c:352-364 | a block with room is passed over when a full one follows it |
| Pools.Pool.PallocLarge | libpool/src/pool.c:370-395 | a system block of its own, entered at the front of the list in a record from the pool; the mutual recursion ends |
| Pools.Pool.Pfree | libpool/src/pool.c:426-444 | frees exactly the object whose record matches, once; the exact answer, also for a null pointer |
| Pools.Pool.CleanupAdd | libpool/src/pool.c:497-514 | the registration goes to the front of the list |
| Pools.OwedReversed | libpool/src/pool.c:167-174 | the k-th call owed is the k-th registration from the last |
| Pools.Pool.RunCleanups | libpool/src/pool.c:167-174 | each registered handler is called once with its data, the last registered first |
| Pools.Pool.FreeLarge | libpool/src/pool.c:176-184 | each large object not freed yet is freed once, in list order |
| Pools.Pool.FreeBlocks | libpool/src/pool.c:205-213 | the chain is freed from a block on, in order |
| Pools.Pool.ClearPool | libpool/src/pool.c:216-260 | the state of a new pool at the same address, everything else freed once, every cleanup run |
| Pools.Pool.Destroy | libpool/src/pool.c:157-214 | everything ever obtained has been freed exactly once, counting early frees, every cleanup run once |
| IniText.TrimmedLine | libcwmp/src/ini.c:119-153 | header, separator, key and value of a line are those of the line without trailing blanks |
| IniText.EntriesOf | libcwmp/src/ini.c:118-118 | a line written in front of a text is read as its entry in front of the others |
| Ini.ReadStep | libcwmp/src/ini.c:144-153 | what the reader decides on a buffered line is what it decides on the entry |
| Ini.GetKeystring | libcwmp/src/ini.c:100-181 | the value of the key in the section, as far as the buffer goes, or nothing |
| Ini.Gets | libcwmp/src/ini.c:193-218 | that value or the default |
| Ini.FindSection | libcwmp/src/ini.c:390-435 | the copy up to the section's header, or to the end with the section added |
| Ini.PutKey | libcwmp/src/ini.c:441-507 | the section's lines with the new line in place of the key, before the next header or at the end |
| Ini.CopyTail | libcwmp/src/ini.c:498-507 | the rest without empty lines, one before each header |
| Ini.Puts | libcwmp/src/ini.c:338-515 | on every path the file written, byte for byte: none, unchanged, new section, key replaced, key before a header, key at the end, key or section erased |
| IniMeaning.CopiedRest | libcwmp/src/ini.c:498-507 | the copied rest reads as before |
| IniMeaning.RewrittenKeys | libcwmp/src/ini.c:441-507 | the rewritten section reads as its entries with the new one in place |
| IniMeaning.RewrittenFrom | libcwmp/src/ini.c:390-507 | the rewritten file reads as its entries with the section's changed, and its lines still fit |
| IniMeaning.KeyTextEntry | libcwmp/src/ini.c:315-328 | a written key line is one line and its entry is key, sign and value |
| IniMeaning.SectionTextEntry | libcwmp/src/ini.c:299-313 | a written header is one line and its entry the bracketed name |
| IniMap.PutEntries | libcwmp/src/ini.c:338-515 | the entries of the file a put leaves |
| IniMap.KeyedReads | libcwmp/src/ini.c:441-496 | reading the key in the rewritten section gives the new value exactly when reader and writer agree on the key's first line |
| IniMap.PutThenGet | libcwmp/src/ini.c:338-515 | a put value is read back exactly when it was there already, or is trimmed and unquoted and reader and writer agree on the key's first line |
| IniMap.BlankDefeatsPut | libcwmp/src/ini.c:462-464 | a key with a blank before its separator in the file reads its old value after the put |
| IniMap.EraseThenGet | libcwmp/src/ini.c:460-496 | an erased key reads as unset exactly when the line the writer takes for it was the only one the reader takes for it, or there was none |
| IniMap.OthersUnchanged | libcwmp/src/ini.c:338-515 | every other key of every section reads as before, also when a key or section is erased |
| IniMap.RunReads | libcwmp/src/ini.c:338-515 | after any run of puts the file reads as the map of the last values put |
| IniRuns.ReadsTop | libcwmp/src/ini.c:100-181 | reading sees the first line for the key under the first header of the section |
| IniRuns.ChangeSteps | libcwmp/src/ini.c:338-515 | one put or erasure changes the lines of its own key, or takes its section's first place, and no other key's |
| IniRuns.AnyRunReads | libcwmp/src/ini.c:338-515 | after any run of puts and erasures, on any file that fits, a key reads as its section's changes make of its lines |
| IniRuns.AnyRunIsMap | libcwmp/src/ini.c:338-515 | a key that stands once at most reads as the last change that names it or its section says |
| IniRuns.BlankDefeatsErase | libcwmp/src/ini.c:460-496 | a key with a blank before its separator is still read after it is erased |
| IniReading.FileSays | libcwmp/src/ini.c:100-181 | a key reads as w exactly when the first line for it under the first header of the section, above the next header, spells w: blanks dropped, one pair of quotes taken off |
| IniReading.UnquoteIs | libcwmp/src/ini.c:171-177 | quotes are taken off a value that has them at both ends |
| IniLayout.PutLaid | libcwmp/src/ini.c:390-507 | the file a put or the erasure of a key leaves, on the lines before, in and after the section |
| IniLayout.TopLaid | libcwmp/src/ini.c:441-507 | the same above the first header |
| IniLayout.PutSection | libcwmp/src/ini.c:344-355 | a new file, and a new section behind an empty line at the end |
| IniLayout.EraseSection | libcwmp/src/ini.c:425-507 | an erased section goes with its header and lines |
| IniLayout.LongLines | libcwmp/src/ini.c:118-118 | lines of up to 126 characters are read whole |
| IniLayout.LongKeys | libcwmp/src/ini.c:299-328 | what a written line cuts off a long name or value |
| IniLong.StringReverse | libcwmp/src/ini.c:520-531 | the text reversed in place, the rest of the buffer unchanged |
| IniLong.BackwardDigits | libcwmp/src/ini.c:540-545 | the digits of any long, with C's rounding toward zero, last first, in at most 19 places |
| IniLong.Long2Str | libcwmp/src/ini.c:533-551 | sign and digits of any long, the most negative one too |
| IniLong.ParseWritten | libcwmp/src/ini.c:228-233 | decimal parsing of that text gives the long |
| IniLong.StrtolOf | libcwmp/src/ini.c:228-233 | white space, a sign, digits and any rest: the signed number of the digits, held within the range of long, 0 without digits |
| IniLong.TakenApart | libcwmp/src/ini.c:228-233 | every text comes in such pieces |
| IniLong.GetlReads | libcwmp/src/ini.c:228-233 | a long in a file is read, whatever follows its digits |
| IniLong.EnableReads | conf/cwmp.conf:1-2 | the file that begins with these lines gives 1 |
| IniLong.NothingReads | libcwmp/src/ini.c:228-233 | no value, or an empty one, gives the default |
| IniLong.PutlThenGetl | libcwmp/src/ini.c:561-566 | a long put is the long read |
| IniLong.PutGetl | libcwmp/src/ini.c:228-233 | the two calls one after the other |
| Md5.AbsorbedMore | libcwmp/src/md5.c:166-192 | more input is absorbed behind the tail that waits for it, and leaves the tail of the whole |
| Md5.CountAdded | libcwmp/src/md5.c:160-164 | the two words with their carry test count the bits modulo 2^64 |
| Md5.IndexOf | libcwmp/src/md5.c:155-155 | the low word gives the length modulo 64 |
| Md5.Encode | libcwmp/src/md5.c:356-375 | the bytes of the words, low-order first |
| Md5.Decode | libcwmp/src/md5.c:382-398 | the words of the bytes |
| Md5.DecodeEncoded | libcwmp/src/md5.c:356-398 | decoding undoes encoding |
| Md5.EncodeDecoded | libcwmp/src/md5.c:356-398 | encoding undoes decoding |
| Md5Block.Round1 | libcwmp/src/md5.c:260-278 | the first sixteen lines are steps 1 to 16 of section 3.4 of RFC 1321 |
| Md5Block.Round2 | libcwmp/src/md5.c:280-298 | the next sixteen are steps 17 to 32 |
| Md5Block.Round3 | libcwmp/src/md5.c:300-318 | steps 33 to 48 |
| Md5Block.Round4 | libcwmp/src/md5.c:320-338 | steps 49 to 64 |
| Md5Block.MD5Transform | libcwmp/src/md5.c:246-350 | the unrolled transformation is the 64 steps added to the state |
| Md5Stream.Context.constructor | libcwmp/src/md5.c:119-132 | the context of the empty message |
| Md5Stream.Context.AddCount | libcwmp/src/md5.c:157-164 | the counts after a piece |
| Md5Stream.LoopBound | libcwmp/src/md5.c:179-180 | the 32-bit test of the loop is right wherever it is made exactly when the tail and the piece together stay below 2^32 bytes |
| Md5Stream.LoopEnds | libcwmp/src/md5.c:179-180 | and the loop ends exactly then |
| Md5Stream.Context.TransformBlocks | libcwmp/src/md5.c:171-183 | every whole block of tail and input is absorbed, and what is left is the tail |
| Md5Stream.Context.Update | libcwmp/src/md5.c:140-194 | the context of the message continued by the piece: state, buffered tail and bit count |
| Md5Stream.Context.Final | libcwmp/src/md5.c:201-241 | the RFC 1321 digest of everything fed, and the context wiped |
| Md5Stream.DigestOfPieces | libcwmp/src/md5.c:119-241 | any cutting of a message, with pieces as above, gives the digest of the whole |
| Md5Vectors.InitialBytes | libcwmp/src/md5.c:127-130 | the four words are the bytes of section 3.3 of RFC 1321 |
| Md5Vectors.DigestOfEmpty | libcwmp/src/md5.c:119-241 | the digest of the empty message is that of RFC 1321, A.5 |
| Md5Vectors.DigestOfAbc | libcwmp/src/md5.c:119-241 | and so is that of `abc` |
| ParamPaths.SmallList | libcwmp/src/cwmp.c:2067-2104 | the list of a small tree with a template, name by name |
| ParamPaths.PositionsVisible | libcwmp/src/cwmp.c:2085-2088 | the positions are exactly those that pass no template |
| ParamPaths.PositionsIncrease | libcwmp/src/cwmp.c:2085-2101 | in preorder, each once |
| ParamPaths.ListedIsPreorder | libcwmp/src/cwmp.c:2067-2104 | the list is the name and node of each visible position, in that order, and of no other |
| ParamResolve.ListedResolves | libcwmp/src/cwmp.c:1000-1131 | both resolvers lead each listed name back to its node |
| ParamResolve.ListedWithin | libcwmp/src/cwmp.c:2183-2183 | a list asked for a listed path is part of the list |
| ParamResolve.AskedListResolves | libcwmp/src/cwmp.c:1000-1131 | so whatever listed path is asked for, the answer resolves |
| ParamResolve.AnswerResolves | libcwmp/src/session.c:884-898 | the list answered to any request that ends in a dot leads back to its nodes exactly when every part of the request names a visible node |
| ParamResolve.StrayAnswer | libcwmp/src/session.c:884-898 | a request for a child that is not there is answered with a name that leads to no node |
| ParamResolve.ListedNamesDiffer | libcwmp/src/cwmp.c:2067-2104 | no name is listed twice |
| ParamChains.PartsOfPath | libcwmp/src/cwmp.c:977-995 | every path is its parts with dots between them |
| ParamChains.ResolveFollows | libcwmp/src/cwmp.c:1000-1043 | the resolver finds t exactly when a chain of children named by the parts leads to it, and nothing exactly when there is none |
| ParamChains.PathFollows | libcwmp/src/cwmp.c:1046-1131 | the other resolver's three answers: such a chain that passes no template, the node above for an unmatched last part, or nothing |
| ParamTree.GetNodename | libcwmp/src/cwmp.c:977-995 | the part before the dot and what follows the dot |
| ParamTree.GetParameterNode | libcwmp/src/cwmp.c:1000-1043 | the walk over the node heap returns t exactly when a chain of nodes named by the parts leads to it, and null exactly when there is none |
| ParamTree.SearchPath | libcwmp/src/cwmp.c:1062-1105 | one level: templates passed over, the parent for an unmatched last part |
| ParamTree.GetParameterPathNode | libcwmp/src/cwmp.c:1046-1131 | its three answers, told by such chains |
| ParamTree.PrintedIsListed | libcwmp/src/cwmp.c:2085-2099 | the names as formatted into 1024 bytes are the paths exactly when every path fits |
| ParamTree.LongPath | libcwmp/src/cwmp.c:2087-2097 | a path of more than 1023 characters is cut to 1023 |
| ParamTree.TwoInfos | libcwmp/src/cwmp.c:2081-2081 | the flag is the node's, for a writable leaf and one that is not |
| ParamTree.AllParameterNames | libcwmp/src/cwmp.c:2067-2104 | the response gains the names as formatted, with their writable flags, and the counter their number |
| Chunks.Buffer.WriteBytes | libcwmp/src/buffer.c:116-123 | the bytes are appended if they fit, else nothing changes |
| Chunks.PartsOf | libcwmp/src/buffer.c:261-329 | the k-th buffer holds the k-th 1024 bytes |
| Chunks.Chunk.Grow | libcwmp/src/buffer.c:282-299 | a new buffer at the end of the list leaves the text |
| Chunks.Chunk.WriteString | libcwmp/src/buffer.c:261-329 | the text gains the string; all buffers but the last are full and the count is the length |
| Chunks.ImageIs | libcwmp/src/buffer.c:332-354 | the first n bytes of the copy are the text's exactly when only NULs follow a NUL in its buffer there |
| Chunks.NulEndsCopy | libcwmp/src/buffer.c:332-354 | of three bytes with a NUL between, the last is not copied |
| Chunks.Chunk.Copy | libcwmp/src/buffer.c:332-354 | as many bytes as there are or fit, each the text's unless a NUL stands before it in its buffer, and a terminator |

## Left out

- XmlParser.XmlParser.ParseDocument: CDATA sections, document types, prefixed names and namespace declarations end in the outcome `Outside` and are not described further; the scan for the end of a CDATA section stops at the character 0, and the namespace code keeps default and prefixed names in one field.
- XmlPrinter.PrintTree: the attributes of an element are a list, not linked nodes; CDATA and instruction nodes have a value, which the code copies without a test.
- XmlReading.ReadDocument: CDATA sections and document types, names with `:` and namespace attributes, as above; comments that are empty or begin with `>` or `->`, which the code ends elsewhere or refuses; instructions that begin with `xml`; values of more than 1023 bytes, or with a blank in front that the code does not step over.
- XmlRoundTrip.ParsePrinted: trees whose elements have either element children or a value; values are well-formed, hold no `<`, `&`, `"` or `]]>`, start with a printable ASCII character and have at most 1023 bytes, and names hold no `:`. The printer writes values unescaped and prints no text child of an element.
- XmlParser.XmlParser.NextChar: a numeric reference whose digits run into the terminator is refused, where the code reads on past it; its value does not wrap.
- XmlParser.XmlParser.ProcessSTag: prefixed names, as above.
- XmlParser.XmlParser.ProcessAttribute: namespace declarations, as above.
- XmlParser.XmlParser.ProcessContent: CDATA sections, as above.
- XmlParser.XmlParser.ProcessElementName: namespaces, as above.
- XmlParser.XmlParser.SkipProlog: document types, as above.
- XmlBuild.Builder.AddAttribute: attributes are a list per element, not linked nodes; a failed parse does not free its nodes, and creating a node succeeds.
- XmlParser.XmlParser.VerifyETag: an end tag with no element open, which the code answers by reading a null stack, is the outcome `Outside`.
- XmlChars.NameCharIsXmlChar: the name tables are a predicate on their ranges; the search that reads one entry past a table for characters above its last entry is not modelled.
- DomEdit.InsertBefore: the reference child is not null; the code asserts it and then reads it.
- DomQuery.GetElements: the result list is a sequence that grows at its end, not linked cells.
- TrHeap.TrHeap.Allocate: the system's malloc succeeds; the search of larger lists when it fails, and requests of no bytes, are left out.
- TrHeap.TrHeap.SystemMalloc: the retry loop for a malloc that fails.
- TrHeap.TrHeap.ChunkAlloc: the search of larger lists after such a failure.
- TrHeap.TrHeap.Deallocate: a block is freed once and with the size it was asked for, as the allocator demands of its callers.
- Pools.Pool.Palloc: requests for which the block that the search finds has no room, and large ones to a pool too small for their record; these overrun the block or do not end. malloc succeeds. The chain of blocks is a sequence and the next pointer its next index.
- Ini.Puts: opening, closing and renaming files, which this model takes to succeed; the modes that enumerate sections and keys.
- IniMap.RunReads: values trimmed and unquoted, section names whose header has no blank before a separator, files and lines within the line buffer; `IniRuns.AnyRunReads` needs only the last.
- Md5Stream.Context.Update: longer pieces, for which `Md5Stream.LoopEnds` shows that the loop does not end.
- ParamTree.AllParameterNames: the response nodes are a list of names and flags.
- ParamTree.GetParameterNode: every part of a path is shorter than the 256-byte name buffer it is copied into.
- Chunks.Chunk.WriteString: the branch for a buffer after the current one, which no call leaves there.
- Sockets, SSL, threads, the HTTP server and client, logging.
- The session and agent flow, SOAP message builders, fault tables and the per-parameter get and set modules.
- `XmlNodeCloneNode`, `XmlElementSetAttributeNode`, `pool_pmemalign`, `MemoryCalloc`, `cwmp_buffer_write_format_string` and the queue.
