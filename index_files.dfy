/**
  The indexer's document parser: a line-driven state machine over the marker
  lines `.I <id>`, `.T`, `.A`, `.B` and `.W` of a Cranfield-style collection
  file, emitting one (documentID, title, contents) document per `.W` section.

  `Run` is the specification (what the parser emits from line `i` on, given
  the id and title it currently holds and the documents emitted so far);
  `IndexDocuments` is the parser itself, the same nested loops over a cursor,
  writing to an `IndexWriter`, and is proved to emit exactly what `Parse` says.
  Each branch of its outer loop is a method of its own (`ReadDocId`,
  `ReadTitle`, `ReadContents`) whose contract gives the step of `Run` it takes.
*/
module IndexFiles {
  import opened Wrappers
  import opened JavaText

  /** A document as `addDocument` builds it: the stored fields documentID, title and contents. */
  datatype Document = Document(documentID: string, title: string, contents: string)

  /** The part of the index writer that indexing touches: the documents added so far, in order. */
  class IndexWriter {
    var documents: seq<Document>

    constructor ()
      ensures documents == []
    {
      documents := [];
    }

    method AddDocument(doc: Document)
      modifies this
      ensures documents == old(documents) + [doc]
    {
      documents := documents + [doc];
    }
  }

  /** addDocument: builds the document from its three field values and hands it to the writer. */
  method AddDocument(writer: IndexWriter, docID: string, title: string, textContent: string)
    modifies writer
    ensures writer.documents == old(writer.documents) + [Document(docID, title, textContent)]
  {
    var doc := Document(docID, title, textContent);
    writer.AddDocument(doc);
  }

  /**
    What parsing one file does: it either reaches the end of the file, or stops
    at an `.I` line whose id does not parse (the exception that ends the file);
    in both cases `docs` are the documents emitted, which stay in the index.
  */
  datatype IndexOutcome = Indexed(docs: seq<Document>) | Failed(docs: seq<Document>)

  /** The two sections read by an inner loop: the title after `.T`, the contents after `.W`. */
  datatype Section = Title | Content

  /** The line that closes a section: `.A` or `.B` for a title, `.I` for contents. */
  predicate EndsSection(section: Section, line: string)
  {
    match section
    case Title => StartsWith(line, ".A") || StartsWith(line, ".B")
    case Content => StartsWith(line, ".I")
  }

  /**
    Where a section whose first line is at `from` stops: the index of the first
    line that closes it, or |lines| when the file runs out first.
  */
  function SectionEnd(lines: seq<string>, section: Section, from: nat): (e: nat)
    requires from <= |lines|
    ensures from <= e <= |lines|
    decreases |lines| - from
  {
    if from == |lines| || EndsSection(section, lines[from]) then from
    else SectionEnd(lines, section, from + 1)
  }

  /** The section is the longest run of lines from `from` none of which closes it. */
  lemma {:induction false} SectionEndSpec(lines: seq<string>, section: Section, from: nat)
    requires from <= |lines|
    ensures forall k :: from <= k < SectionEnd(lines, section, from) ==> !EndsSection(section, lines[k])
    ensures SectionEnd(lines, section, from) < |lines| ==> EndsSection(section, lines[SectionEnd(lines, section, from)])
    decreases |lines| - from
  {
    if from < |lines| && !EndsSection(section, lines[from]) {
      SectionEndSpec(lines, section, from + 1);
    }
  }

  /** What a section's StringBuilder holds after lines `a` up to `b`: each line trimmed, then one space. */
  function Accumulated(lines: seq<string>, a: nat, b: nat): string
    requires a <= b <= |lines|
    decreases b - a
  {
    if a == b then "" else Accumulated(lines, a, b - 1) + Trim(lines[b - 1]) + " "
  }

  /** The text of the section on lines `a` up to `b`: the builder's contents, trimmed. */
  function SectionText(lines: seq<string>, a: nat, b: nat): string
    requires a <= b <= |lines|
  {
    Trim(Accumulated(lines, a, b))
  }

  /** `Integer.parseInt(line.split(" ")[1].trim())`; None when the second field is missing or not an int. */
  function ParseDocId(line: string): (id: Option<int>)
    ensures id.Some? ==> IsInt32(id.value)
  {
    var parts := Split(line, ' ');
    if |parts| < 2 then None else ParseInt(Trim(parts[1]))
  }

  /**
    What the parser emits from line `i` on, holding id `docId` and title
    `title`, having emitted `emitted` already. The documents already emitted
    are never taken back.
  */
  function Run(lines: seq<string>, i: nat, docId: int, title: string, emitted: seq<Document>): (r: IndexOutcome)
    requires i <= |lines|
    ensures emitted <= r.docs
    decreases |lines| - i, 1
  {
    if i == |lines| then Indexed(emitted)
    else
      var line := lines[i];
      if StartsWith(line, ".I") then
        NextDocument(lines, i, title, emitted)
      else if StartsWith(line, ".T") then
        // the title runs up to the first .A or .B line, which is consumed with it
        var e := SectionEnd(lines, Title, i + 1);
        Run(lines, if e < |lines| then e + 1 else e, docId, SectionText(lines, i + 1, e), emitted)
      else if StartsWith(line, ".W") then
        // the contents run up to the next .I line or the end of the file
        var e := SectionEnd(lines, Content, i + 1);
        NextDocument(lines, e, title, emitted + [Document(IntToString(docId), title, SectionText(lines, i + 1, e))])
      else
        Run(lines, i + 1, docId, title, emitted)
  }

  /**
    What the parser emits from the `.I` line at `i` on (or at the end of the
    file): the id is read from that line, and parsing fails if it cannot be.
  */
  function NextDocument(lines: seq<string>, i: nat, title: string, emitted: seq<Document>): (r: IndexOutcome)
    requires i <= |lines|
    ensures emitted <= r.docs
    decreases |lines| - i, 0
  {
    if i == |lines| then Indexed(emitted)
    else
      match ParseDocId(lines[i])
      case None => Failed(emitted)
      case Some(id) => Run(lines, i + 1, id, title, emitted)
  }

  /** What indexing a whole file emits: start at the first line with id 0, an empty title and nothing emitted. */
  function Parse(lines: seq<string>): IndexOutcome
  {
    Run(lines, 0, 0, "", [])
  }

  /**
    One of indexDocuments' inner loops: from the header line at `p`, the lines
    are read into a builder, each trimmed and followed by a space, until a line
    that closes the section or the end of the file. `e` is the closing line's
    index, or |lines| when the file ran out.
  */
  method ReadSection(lines: seq<string>, p: nat, section: Section) returns (builder: string, e: nat)
    requires p < |lines|
    ensures e == SectionEnd(lines, section, p + 1)
    ensures builder == Accumulated(lines, p + 1, e)
  {
    e := p + 1;
    builder := "";
    while e < |lines| && !EndsSection(section, lines[e])
      invariant p < e <= |lines|
      invariant SectionEnd(lines, section, p + 1) == SectionEnd(lines, section, e)
      invariant builder == Accumulated(lines, p + 1, e)
    {
      builder := builder + Trim(lines[e]) + " ";
      e := e + 1;
    }
  }

  /**
    The `.I` branch of indexDocuments: the id is the second space-separated
    field of the line, trimmed and parsed as an int; None when it cannot be
    read, and the parse fails there. Otherwise the parser's state moves on to
    the next line holding the new id.
  */
  method ReadDocId(lines: seq<string>, i: nat, ghost docId: int, ghost title: string, ghost emitted: seq<Document>)
    returns (id: Option<int>)
    requires i < |lines| && StartsWith(lines[i], ".I")
    ensures id == ParseDocId(lines[i])
    ensures id.None? ==> Run(lines, i, docId, title, emitted) == Failed(emitted)
    ensures id.Some? ==> Run(lines, i, docId, title, emitted) == Run(lines, i + 1, id.value, title, emitted)
  {
    var parts := Split(lines[i], ' ');
    if |parts| < 2 {
      return None;
    }
    id := ParseInt(Trim(parts[1]));
  }

  /**
    The `.T` branch of indexDocuments: the title is every line up to the first
    `.A` or `.B` line, trimmed and joined by spaces; the closing line is read
    and dropped with it. The parser's state moves on to line `next` holding
    the new title (`docId` and `emitted` are the state it carries through).
  */
  method ReadTitle(lines: seq<string>, i: nat, ghost docId: int, ghost oldTitle: string, ghost emitted: seq<Document>)
    returns (title: string, next: nat)
    requires i < |lines| && !StartsWith(lines[i], ".I") && StartsWith(lines[i], ".T")
    ensures var e := SectionEnd(lines, Title, i + 1);
      && title == SectionText(lines, i + 1, e)
      && next == (if e < |lines| then e + 1 else e)
    ensures Run(lines, i, docId, oldTitle, emitted) == Run(lines, next, docId, title, emitted)
  {
    var titleBuilder, e := ReadSection(lines, i, Title);
    title := Trim(titleBuilder);
    // the closing .A or .B line was read by the title loop's condition
    next := if e < |lines| then e + 1 else e;
  }

  /**
    The `.W` branch of indexDocuments: the contents are every line up to the
    next `.I` line or the end of the file, trimmed and appended to the shared
    buffer `docContent`; the document `doc` is added with the id and title
    held and the buffer's text, and then the `.I` line's id is read (`ok` is
    false when it does not parse). At an `.I` line the buffer is cleared
    before the id is read; at the end of the file it keeps the text. From an
    empty buffer, the parser's state moves on to line `next` with id
    `newDocId`, or the parse fails, with `doc` emitted either way.
  */
  method ReadContents(writer: IndexWriter, lines: seq<string>, i: nat, docId: int, title: string, docContent: string,
                      ghost emitted: seq<Document>)
    returns (next: nat, newDocId: int, ok: bool, newContent: string, ghost doc: Document)
    requires i < |lines| && !StartsWith(lines[i], ".I") && !StartsWith(lines[i], ".T") && StartsWith(lines[i], ".W")
    modifies writer
    ensures var e := SectionEnd(lines, Content, i + 1);
      && doc == Document(IntToString(docId), title, docContent + SectionText(lines, i + 1, e))
      && (e == |lines| ==> ok && next == e && newDocId == docId && newContent == doc.contents)
      && (e < |lines| ==> newContent == "" && next == e + 1
                          && (ok <==> ParseDocId(lines[e]).Some?) && (ok ==> Some(newDocId) == ParseDocId(lines[e])))
    ensures writer.documents == old(writer.documents) + [doc]
    ensures docContent == "" && ok ==> Run(lines, i, docId, title, emitted) == Run(lines, next, newDocId, title, emitted + [doc])
    ensures docContent == "" && !ok ==> Run(lines, i, docId, title, emitted) == Failed(emitted + [doc])
  {
    var contentBuilder, e := ReadSection(lines, i, Content);
    var text := Trim(contentBuilder);
    assert text == SectionText(lines, i + 1, e);
    assert docContent == "" ==> docContent + text == text;
    newContent := docContent + text;
    AddDocument(writer, IntToString(docId), title, newContent);
    doc := Document(IntToString(docId), title, newContent);
    if e < |lines| {
      // the contents loop stopped at an .I line: the buffer is cleared, then the id is read
      newContent := "";
      var id := ParseDocId(lines[e]);
      if id.None? {
        return e + 1, docId, false, newContent, doc;
      }
      return e + 1, id.value, true, newContent, doc;
    }
    // the contents loop stopped at the end of the file, and the buffer keeps its text
    return e, docId, true, newContent, doc;
  }

  /**
    indexDocuments: reads the file's lines once, front to back, and adds a
    document to the writer each time a `.W` section closes. `ok` is false when
    an `.I` line's id could not be read; the documents added before that stay.
  */
  method IndexDocuments(writer: IndexWriter, lines: seq<string>) returns (ok: bool)
    modifies writer
    ensures writer.documents == old(writer.documents) + Parse(lines).docs
    ensures ok <==> Parse(lines).Indexed?
  {
    var i := 0;
    var docContent := "";
    var docId := 0;
    var title := "";
    ghost var emitted: seq<Document> := [];
    while i < |lines|
      invariant 0 <= i <= |lines|
      invariant i < |lines| ==> docContent == ""
      invariant writer.documents == old(writer.documents) + emitted
      invariant Run(lines, i, docId, title, emitted) == Parse(lines)
    {
      var line := lines[i];
      if StartsWith(line, ".I") {
        if |docContent| > 0 {
          // The source would add a document for the buffered contents here and
          // clear the buffer and the title; the branch is never taken: the `.W`
          // branch leaves the buffer filled only at the end of the file.
          assert false;
        }
        var id := ReadDocId(lines, i, docId, title, emitted);
        if id.None? {
          return false;
        }
        docId := id.value;
        i := i + 1;
      } else if StartsWith(line, ".T") {
        title, i := ReadTitle(lines, i, docId, title, emitted);
      } else if StartsWith(line, ".W") {
        var next, newDocId, read, newContent, doc := ReadContents(writer, lines, i, docId, title, docContent, emitted);
        emitted := emitted + [doc];
        docContent := newContent;
        if !read {
          return false;
        }
        docId, i := newDocId, next;
      } else {
        i := i + 1;
      }
    }
    return true;
  }
}
