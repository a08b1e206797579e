/**
  What the indexer's parser makes of a Cranfield collection file.

  A collection is a sequence of entries, each written as an `.I <id>` line, an
  optional `.T` title section closed by `.A`, author lines, a `.B` line,
  bibliography lines, and a `.W` section running up to the next entry. The main
  theorem says that `Parse` emits one document per entry, in order, carrying the
  entry's own id, the title in force (a missing `.T` section keeps the previous
  entry's title) and the entry's contents. The other lemmas pin down the
  parser's edges: where a record is emitted, at most one per `.W` line, id 0
  before any `.I` line, and a file that stops at an unreadable id.
*/
module CranfieldFormat {
  import opened Wrappers
  import opened JavaText
  import opened IndexFiles

  // ---------------------------------------------------------------------------
  // The parser's building blocks
  // ---------------------------------------------------------------------------

  /** A section's end is the first closing line at or after its start. */
  lemma {:induction false} SectionEndAt(lines: seq<string>, section: Section, a: nat, b: nat)
    requires a <= b <= |lines|
    requires forall k :: a <= k < b ==> !EndsSection(section, lines[k])
    requires b == |lines| || EndsSection(section, lines[b])
    ensures SectionEnd(lines, section, a) == b
    decreases b - a
  {
    if a < b {
      SectionEndAt(lines, section, a + 1, b);
    }
  }

  /** Which marker lines start with which markers. */
  lemma Markers()
    ensures StartsWith(".T", ".T") && !StartsWith(".T", ".I")
    ensures StartsWith(".W", ".W") && !StartsWith(".W", ".I") && !StartsWith(".W", ".T")
    ensures EndsSection(Title, ".A") && Plain(".A") && Plain(".B")
  {
    assert ".T"[..2] == ".T" && ".T"[1] != ".I"[1];
    assert ".W"[..2] == ".W" && ".W"[1] != ".I"[1] && ".W"[1] != ".T"[1];
    assert ".A"[..2] == ".A" && ".A"[1] != ".I"[1] && ".A"[1] != ".T"[1] && ".A"[1] != ".W"[1];
    assert ".B"[1] != ".I"[1] && ".B"[1] != ".T"[1] && ".B"[1] != ".W"[1];
  }

  /** A line that none of the outer loop's three branches takes: it is read and dropped. */
  predicate Plain(line: string)
  {
    !StartsWith(line, ".I") && !StartsWith(line, ".T") && !StartsWith(line, ".W")
  }

  /** The parser steps over a run of plain lines without changing its state. */
  lemma {:induction false} SkipPlain(lines: seq<string>, i: nat, j: nat, docId: int, title: string, emitted: seq<Document>)
    requires i <= j <= |lines|
    requires forall k :: i <= k < j ==> Plain(lines[k])
    ensures Run(lines, i, docId, title, emitted) == Run(lines, j, docId, title, emitted)
    decreases j - i
  {
    if i < j {
      SkipPlain(lines, i + 1, j, docId, title, emitted);
    }
  }

  /** The `.I` line written for an id. */
  function IdLine(id: int): (line: string)
    ensures StartsWith(line, ".I")
  {
    ".I " + IntToString(id)
  }

  /** The id written on an `.I` line is the id read back from it, for every int. */
  lemma ParseIdLine(id: int)
    requires IsInt32(id)
    ensures ParseDocId(IdLine(id)) == Some(id)
  {
    var digits := IntToString(id);
    assert IdLine(id) == JoinWith([".I", digits], ' ');
    IntToStringHasNoSpace(id);
    SplitOfJoin([".I", digits], ' ');
    TrimOfTrimmed(digits);
    ParseIntOfString(id);
  }

  // ---------------------------------------------------------------------------
  // Collections
  // ---------------------------------------------------------------------------

  /** One document of a collection file; `title` is None when it has no `.T` section. */
  datatype Entry = Entry(id: int, title: Option<seq<string>>, authors: seq<string>, biblio: seq<string>, body: seq<string>)

  /** An entry the parser reads as intended: every section line stays inside its section. */
  predicate WellFormed(e: Entry)
  {
    && IsInt32(e.id)
    && (e.title.Some? ==> forall k :: 0 <= k < |e.title.value| ==> !EndsSection(Title, e.title.value[k]))
    && (forall k :: 0 <= k < |e.authors| ==> Plain(e.authors[k]))
    && (forall k :: 0 <= k < |e.biblio| ==> Plain(e.biblio[k]))
    && (forall k :: 0 <= k < |e.body| ==> !EndsSection(Content, e.body[k]))
  }

  /** The lines between the title section (or the `.I` line) and the `.W` line. */
  function Middle(e: Entry): seq<string>
  {
    (if e.title.Some? then [] else [".A"]) + e.authors + [".B"] + e.biblio
  }

  /** The title section, `.T` up to and including its closing `.A` line. */
  function TitleLines(e: Entry): seq<string>
  {
    if e.title.Some? then [".T"] + e.title.value + [".A"] else []
  }

  /** An entry as the collection file writes it. */
  function Lines(e: Entry): seq<string>
  {
    [IdLine(e.id)] + TitleLines(e) + Middle(e) + [".W"] + e.body
  }

  /** A collection file. */
  function Render(entries: seq<Entry>): seq<string>
  {
    if entries == [] then [] else Lines(entries[0]) + Render(entries[1..])
  }

  /** The title in force after an entry: its own if it has a `.T` section, else the one held before. */
  function TitleAfter(e: Entry, title: string): string
  {
    if e.title.Some? then SectionText(e.title.value, 0, |e.title.value|) else title
  }

  /**
    The documents a collection should produce, given the title held before it:
    one per entry, in order, with the entry's id, the title in force and the
    entry's contents.
  */
  function Expected(entries: seq<Entry>, title: string): seq<Document>
  {
    if entries == [] then []
    else [DocumentOf(entries[0], title)] + Expected(entries[1..], TitleAfter(entries[0], title))
  }

  /** The document entry `e` should produce, given the title held before it. */
  function DocumentOf(e: Entry, title: string): Document
  {
    Document(IntToString(e.id), TitleAfter(e, title), OwnContents(e))
  }

  /** The title in force after a whole collection. */
  function FinalTitle(entries: seq<Entry>, title: string): string
  {
    if entries == [] then title else FinalTitle(entries[1..], TitleAfter(entries[0], title))
  }

  /** The lines `block` sit in `lines` from index `p` on. */
  predicate At(lines: seq<string>, p: nat, block: seq<string>)
  {
    p + |block| <= |lines| && forall k :: 0 <= k < |block| ==> lines[p + k] == block[k]
  }

  lemma AtSplit(lines: seq<string>, p: nat, a: seq<string>, b: seq<string>)
    requires At(lines, p, a + b)
    ensures At(lines, p, a) && At(lines, p + |a|, b)
  {
    forall k | 0 <= k < |a|
      ensures lines[p + k] == a[k]
    {
      assert (a + b)[k] == a[k];
    }
    forall k | 0 <= k < |b|
      ensures lines[p + |a| + k] == b[k]
    {
      assert (a + b)[|a| + k] == b[k];
    }
  }

  lemma AtCons(lines: seq<string>, p: nat, line: string, rest: seq<string>)
    requires At(lines, p, [line] + rest)
    ensures p < |lines| && lines[p] == line && At(lines, p + 1, rest)
  {
    assert ([line] + rest)[0] == line;
    forall k | 0 <= k < |rest|
      ensures lines[p + 1 + k] == rest[k]
    {
      assert ([line] + rest)[1 + k] == rest[k];
    }
  }

  lemma AtLine(lines: seq<string>, p: nat, line: string)
    requires At(lines, p, [line])
    ensures p < |lines| && lines[p] == line
  {
    assert [line][0] == line;
  }

  /** No line of a block sitting at `p` closes the section if no line of the block does. */
  lemma AtSection(lines: seq<string>, p: nat, block: seq<string>, section: Section)
    requires At(lines, p, block)
    requires forall k :: 0 <= k < |block| ==> !EndsSection(section, block[k])
    ensures forall k :: p <= k < p + |block| ==> !EndsSection(section, lines[k])
  {
    forall k | p <= k < p + |block|
      ensures !EndsSection(section, lines[k])
    {
      assert lines[p + (k - p)] == block[k - p];
    }
  }

  /** A section's text depends only on its own lines. */
  lemma {:induction false} AccumulatedAt(lines: seq<string>, p: nat, block: seq<string>, n: nat)
    requires At(lines, p, block) && n <= |block|
    ensures Accumulated(lines, p, p + n) == Accumulated(block, 0, n)
    decreases n
  {
    if n > 0 {
      AccumulatedAt(lines, p, block, n - 1);
      assert lines[p + (n - 1)] == block[n - 1];
    }
  }

  /** The text of a section sitting at `p` is the text of its own lines. */
  lemma SectionTextAt(lines: seq<string>, p: nat, block: seq<string>)
    requires At(lines, p, block)
    ensures SectionText(lines, p, p + |block|) == SectionText(block, 0, |block|)
  {
    AccumulatedAt(lines, p, block, |block|);
  }

  /** The `.I` step: the id written on the line is read, and parsing goes on after it. */
  lemma IdStepAt(lines: seq<string>, p: nat, id: int, title: string, emitted: seq<Document>)
    requires p < |lines| && ParseDocId(lines[p]) == Some(id)
    ensures NextDocument(lines, p, title, emitted) == Run(lines, p + 1, id, title, emitted)
  {
  }

  /** The `.T` step: a title section closed by `.A` sets the title and is consumed with its closing line. */
  lemma TitleStepAt(lines: seq<string>, p: nat, end: nat, text: string, docId: int, title: string, emitted: seq<Document>)
    requires p < end < |lines| && lines[p] == ".T" && lines[end] == ".A"
    requires forall k :: p < k < end ==> !EndsSection(Title, lines[k])
    requires SectionText(lines, p + 1, end) == text
    ensures Run(lines, p, docId, title, emitted) == Run(lines, end + 1, docId, text, emitted)
  {
    Markers();
    SectionEndAt(lines, Title, p + 1, end);
  }

  /** The `.W` step: the contents run to the next `.I` line or the end, and the document is emitted. */
  lemma ContentStepAt(lines: seq<string>, p: nat, end: nat, text: string, docId: int, title: string, emitted: seq<Document>)
    requires ContentFacts(lines, p, end, text)
    ensures Run(lines, p, docId, title, emitted)
         == NextDocument(lines, end, title, emitted + [Document(IntToString(docId), title, text)])
  {
    Markers();
    SectionEndAt(lines, Content, p + 1, end);
  }

  /** The lines of the middle part are plain. */
  lemma MiddlePlain(lines: seq<string>, p: nat, e: Entry)
    requires WellFormed(e) && At(lines, p, Middle(e))
    ensures forall k :: p <= k < p + |Middle(e)| ==> Plain(lines[k])
  {
    var m := Middle(e);
    var head := if e.title.Some? then [] else [".A"];
    Markers();
    forall k | p <= k < p + |m|
      ensures Plain(lines[k])
    {
      var j := k - p;
      assert lines[p + j] == m[j];
      assert m == head + e.authors + [".B"] + e.biblio;
      if j < |head| {
      } else if j < |head| + |e.authors| {
        assert m[j] == e.authors[j - |head|];
      } else if j == |head| + |e.authors| {
      } else {
        assert m[j] == e.biblio[j - |head| - |e.authors| - 1];
      }
    }
  }

  /** A section whose lines sit at `a` and do not close it: where it runs and the text it makes. */
  lemma SectionAt(lines: seq<string>, a: nat, block: seq<string>, section: Section)
    requires At(lines, a, block)
    requires forall k :: 0 <= k < |block| ==> !EndsSection(section, block[k])
    ensures forall k :: a <= k < a + |block| ==> !EndsSection(section, lines[k])
    ensures SectionText(lines, a, a + |block|) == SectionText(block, 0, |block|)
  {
    AtSection(lines, a, block, section);
    SectionTextAt(lines, a, block);
  }

  /** The five parts of an entry's lines, each where it sits. */
  lemma {:induction false} PartsAt(lines: seq<string>, p: nat, id: string, t: seq<string>, m: seq<string>, body: seq<string>)
    requires At(lines, p, [id] + t + m + [".W"] + body)
    ensures p + 2 + |t| + |m| + |body| <= |lines|
    ensures lines[p] == id && At(lines, p + 1, t) && At(lines, p + 1 + |t|, m)
    ensures lines[p + 1 + |t| + |m|] == ".W" && At(lines, p + 2 + |t| + |m|, body)
  {
    assert [id] + t + m + [".W"] + body == [id] + (t + (m + ([".W"] + body)));
    AtCons(lines, p, id, t + (m + ([".W"] + body)));
    AtSplit(lines, p + 1, t, m + ([".W"] + body));
    AtSplit(lines, p + 1 + |t|, m, [".W"] + body);
    AtCons(lines, p + 1 + |t| + |m|, ".W", body);
  }

  /** The parts of a title section, each where it sits. */
  lemma TitlePartsAt(lines: seq<string>, p: nat, tl: seq<string>)
    requires At(lines, p, [".T"] + tl + [".A"])
    ensures p + 1 + |tl| < |lines| && lines[p] == ".T" && lines[p + 1 + |tl|] == ".A" && At(lines, p + 1, tl)
  {
    assert [".T"] + tl + [".A"] == [".T"] + (tl + [".A"]);
    AtCons(lines, p, ".T", tl + [".A"]);
    AtSplit(lines, p + 1, tl, [".A"]);
    AtLine(lines, p + 1 + |tl|, ".A");
  }

  /**
    The lines of entry `e` sit at `p`, line by line, as the parser sees them:
    its `.I` line, its title section and the text it makes, plain lines, its
    `.W` line and the contents it makes, then the end of the file or an `.I` line.
  */
  predicate EntryAt(lines: seq<string>, p: nat, e: Entry)
  {
    EntryFacts(lines, e, p, MiddleStart(p, e), ContentLine(p, e), EntryEnd(p, e), OwnTitle(e), OwnContents(e))
  }

  /** Where the middle part of entry `e` starts when its lines sit at `p`. */
  function MiddleStart(p: nat, e: Entry): nat
  {
    p + 1 + |TitleLines(e)|
  }

  /** Where the `.W` line of entry `e` is when its lines sit at `p`. */
  function ContentLine(p: nat, e: Entry): nat
  {
    MiddleStart(p, e) + |Middle(e)|
  }

  /** Where the lines of entry `e` end when they sit at `p`. */
  function EntryEnd(p: nat, e: Entry): (end: nat)
    ensures end == p + |Lines(e)|
  {
    ContentLine(p, e) + 1 + |e.body|
  }

  /** The title entry `e`'s own `.T` section makes, if it has one. */
  function OwnTitle(e: Entry): string
  {
    TitleAfter(e, "")
  }

  /** The contents entry `e`'s `.W` section makes. */
  function OwnContents(e: Entry): string
  {
    SectionText(e.body, 0, |e.body|)
  }

  /**
    `EntryAt` with the entry's parts located: its `.I` line at `p`, its title
    section (if any) from `p + 1` to the `.A` line at `q - 1` making `titleText`,
    plain lines from `q`, its `.W` line at `w`, and contents making `text` up
    to `fin`.
  */
  predicate EntryFacts(lines: seq<string>, e: Entry, p: nat, q: nat, w: nat, fin: nat, titleText: string, text: string)
  {
    && ContentFacts(lines, w, fin, text)
    && p < q <= w
    && ParseDocId(lines[p]) == Some(e.id)
    && TitleFacts(lines, e, p, q, titleText)
    && (forall k :: q <= k < w ==> Plain(lines[k]))
  }

  /** The title section of `e` (if any) runs from `p + 1` to its `.A` line at `q - 1` and makes `titleText`. */
  predicate TitleFacts(lines: seq<string>, e: Entry, p: nat, q: nat, titleText: string)
  {
    && (e.title.None? ==> q == p + 1)
    && (e.title.Some? ==>
          && p + 2 < q <= |lines| && lines[p + 1] == ".T" && lines[q - 1] == ".A"
          && (forall k :: p + 1 < k < q - 1 ==> !EndsSection(Title, lines[k]))
          && SectionText(lines, p + 2, q - 1) == titleText)
  }

  /** A `.W` line at `w` whose contents run to `fin`, the end of the file or an `.I` line, and make `text`. */
  predicate ContentFacts(lines: seq<string>, w: nat, fin: nat, text: string)
  {
    && w < fin <= |lines|
    && lines[w] == ".W"
    && (forall k :: w < k < fin ==> !EndsSection(Content, lines[k]))
    && SectionText(lines, w + 1, fin) == text
    && (fin == |lines| || StartsWith(lines[fin], ".I"))
  }

  /** The entries' lines sit one after the other from `p` on, each as `EntryAt` says. */
  predicate CollectionAt(lines: seq<string>, p: nat, entries: seq<Entry>)
    decreases |entries|
  {
    && p <= |lines|
    && (entries == [] || (EntryAt(lines, p, entries[0]) && CollectionAt(lines, EntryEnd(p, entries[0]), entries[1..])))
  }

  /** Where the parts of entry `e` sit once its lines sit at `p`. */
  lemma EntryParts(lines: seq<string>, p: nat, e: Entry)
    requires At(lines, p, Lines(e))
    ensures EntryEnd(p, e) <= |lines| && lines[p] == IdLine(e.id)
    ensures At(lines, p + 1, TitleLines(e)) && At(lines, MiddleStart(p, e), Middle(e))
    ensures lines[ContentLine(p, e)] == ".W" && At(lines, ContentLine(p, e) + 1, e.body)
  {
    PartsAt(lines, p, IdLine(e.id), TitleLines(e), Middle(e), e.body);
  }

  /** The title section of a well-formed entry sitting at `p` is where `TitleFacts` says. */
  lemma TitlePlaced(lines: seq<string>, p: nat, e: Entry)
    requires WellFormed(e) && At(lines, p + 1, TitleLines(e))
    ensures TitleFacts(lines, e, p, MiddleStart(p, e), OwnTitle(e))
  {
    if e.title.Some? {
      var tl := e.title.value;
      TitlePartsAt(lines, p + 1, tl);
      SectionAt(lines, p + 2, tl, Title);
      assert MiddleStart(p, e) - 1 == p + 2 + |tl|;
    }
  }

  /** The middle part of a well-formed entry sitting at `p` is plain. */
  lemma MiddlePlaced(lines: seq<string>, p: nat, e: Entry)
    requires WellFormed(e) && At(lines, MiddleStart(p, e), Middle(e))
    ensures forall k :: MiddleStart(p, e) <= k < ContentLine(p, e) ==> Plain(lines[k])
  {
    MiddlePlain(lines, MiddleStart(p, e), e);
  }

  /** A `.W` line followed by lines none of which is an `.I` line, then the end of the file or an `.I` line. */
  lemma ContentSectionAt(lines: seq<string>, w: nat, body: seq<string>)
    requires w < |lines| && lines[w] == ".W" && At(lines, w + 1, body)
    requires forall k :: 0 <= k < |body| ==> !EndsSection(Content, body[k])
    requires w + 1 + |body| == |lines| || StartsWith(lines[w + 1 + |body|], ".I")
    ensures ContentFacts(lines, w, w + 1 + |body|, SectionText(body, 0, |body|))
  {
    SectionAt(lines, w + 1, body, Content);
  }

  /** The `.W` section of a well-formed entry sitting at `p` is where `ContentFacts` says. */
  lemma ContentPlaced(lines: seq<string>, p: nat, e: Entry)
    requires WellFormed(e) && EntryEnd(p, e) <= |lines|
    requires lines[ContentLine(p, e)] == ".W" && At(lines, ContentLine(p, e) + 1, e.body)
    requires EntryEnd(p, e) == |lines| || StartsWith(lines[EntryEnd(p, e)], ".I")
    ensures ContentFacts(lines, ContentLine(p, e), EntryEnd(p, e), OwnContents(e))
  {
    ContentSectionAt(lines, ContentLine(p, e), e.body);
  }

  /** A well-formed entry sitting at `p` and followed by the end of the file or an `.I` line is where `EntryAt` says. */
  lemma EntryPlaced(lines: seq<string>, p: nat, e: Entry)
    requires WellFormed(e) && At(lines, p, Lines(e))
    requires EntryEnd(p, e) == |lines| || StartsWith(lines[EntryEnd(p, e)], ".I")
    ensures EntryAt(lines, p, e)
  {
    EntryParts(lines, p, e);
    ParseIdLine(e.id);
    TitlePlaced(lines, p, e);
    MiddlePlaced(lines, p, e);
    ContentPlaced(lines, p, e);
  }

  /** The lines of a collection sitting at `p`: its first entry's, then the rest's. */
  lemma RenderAt(lines: seq<string>, p: nat, entries: seq<Entry>)
    requires entries != [] && At(lines, p, Render(entries))
    ensures At(lines, p, Lines(entries[0])) && At(lines, EntryEnd(p, entries[0]), Render(entries[1..]))
    ensures EntryEnd(p, entries[0]) + |Render(entries[1..])| == p + |Render(entries)|
  {
    AtSplit(lines, p, Lines(entries[0]), Render(entries[1..]));
  }

  /** A collection sitting at `p` starts with an `.I` line. */
  lemma RenderStartsAt(lines: seq<string>, p: nat, entries: seq<Entry>)
    requires entries != [] && At(lines, p, Render(entries))
    ensures p < |lines| && StartsWith(lines[p], ".I")
  {
    assert Render(entries)[0] == IdLine(entries[0].id);
  }

  /**
    A well-formed collection sitting at `p` and followed, at `end`, by the end
    of the file or an `.I` line is where `CollectionAt` says.
  */
  lemma {:induction false} CollectionPlaced(lines: seq<string>, p: nat, entries: seq<Entry>, end: nat)
    requires forall k :: 0 <= k < |entries| ==> WellFormed(entries[k])
    requires At(lines, p, Render(entries)) && end == p + |Render(entries)|
    requires end == |lines| || StartsWith(lines[end], ".I")
    ensures CollectionAt(lines, p, entries)
    decreases |entries|
  {
    if entries != [] {
      var e := entries[0];
      var rest := entries[1..];
      RenderAt(lines, p, entries);
      if rest != [] {
        RenderStartsAt(lines, EntryEnd(p, e), rest);
      }
      EntryPlaced(lines, p, e);
      CollectionPlaced(lines, EntryEnd(p, e), rest, end);
    }
  }

  /** From an entry's middle part: plain lines, then its `.W` section up to the next `.I` line or the end. */
  lemma MiddleAndBodyStep(lines: seq<string>, q: nat, w: nat, fin: nat, text: string,
                          docId: int, title: string, emitted: seq<Document>)
    requires ContentFacts(lines, w, fin, text) && q <= w && (forall k :: q <= k < w ==> Plain(lines[k]))
    ensures Run(lines, q, docId, title, emitted)
         == NextDocument(lines, fin, title, emitted + [Document(IntToString(docId), title, text)])
  {
    SkipPlain(lines, q, w, docId, title, emitted);
    ContentStepAt(lines, w, fin, text, docId, title, emitted);
  }

  /** From the `.T` line of entry `e` at `p + 1`: the title is set, then the middle part and the `.W` section follow. */
  lemma TitleMiddleAndBodyStep(lines: seq<string>, e: Entry, p: nat, q: nat, w: nat, fin: nat, titleText: string, text: string,
                               docId: int, title: string, emitted: seq<Document>)
    requires e.title.Some? && TitleFacts(lines, e, p, q, titleText)
    requires ContentFacts(lines, w, fin, text) && q <= w && (forall k :: q <= k < w ==> Plain(lines[k]))
    ensures Run(lines, p + 1, docId, title, emitted)
         == NextDocument(lines, fin, titleText, emitted + [Document(IntToString(docId), titleText, text)])
  {
    TitleStepAt(lines, p + 1, q - 1, titleText, docId, title, emitted);
    MiddleAndBodyStep(lines, q, w, fin, text, docId, titleText, emitted);
  }

  /**
    From the line after an entry's `.I` line: its title section (if any),
    middle part and `.W` section lead to whatever follows them, `r`.
  */
  lemma AfterIdStep(lines: seq<string>, e: Entry, p: nat, q: nat, w: nat, fin: nat, titleText: string, text: string,
                    title: string, emitted: seq<Document>, title': string, emitted': seq<Document>, r: IndexOutcome)
    requires EntryFacts(lines, e, p, q, w, fin, titleText, text)
    requires title' == (if e.title.Some? then titleText else title)
    requires emitted' == emitted + [Document(IntToString(e.id), title', text)]
    requires NextDocument(lines, fin, title', emitted') == r
    ensures Run(lines, p + 1, e.id, title, emitted) == r
  {
    if e.title.Some? {
      TitleMiddleAndBodyStep(lines, e, p, q, w, fin, titleText, text, e.id, title, emitted);
    } else {
      MiddleAndBodyStep(lines, q, w, fin, text, e.id, title, emitted);
    }
  }

  /**
    An entry sitting at `p` as `EntryAt` says: from its `.I` line the parser
    emits exactly its document and goes on after it, to `r`.
  */
  lemma EntryStep(lines: seq<string>, p: nat, e: Entry, title: string, emitted: seq<Document>,
                  title': string, emitted': seq<Document>, r: IndexOutcome)
    requires EntryAt(lines, p, e)
    requires title' == TitleAfter(e, title) && emitted' == emitted + [DocumentOf(e, title)]
    requires NextDocument(lines, EntryEnd(p, e), title', emitted') == r
    ensures NextDocument(lines, p, title, emitted) == r
  {
    IdStepAt(lines, p, e.id, title, emitted);
    AfterIdStep(lines, e, p, MiddleStart(p, e), ContentLine(p, e), EntryEnd(p, e), OwnTitle(e), OwnContents(e),
                title, emitted, title', emitted', r);
  }

  /** The documents of a collection: its first entry's, then the rest's. */
  lemma ExpectedSplit(entries: seq<Entry>, title: string, emitted: seq<Document>)
    requires entries != []
    ensures emitted + Expected(entries, title)
         == (emitted + [DocumentOf(entries[0], title)]) + Expected(entries[1..], TitleAfter(entries[0], title))
  {
    var d := DocumentOf(entries[0], title);
    var more := Expected(entries[1..], TitleAfter(entries[0], title));
    assert Expected(entries, title) == [d] + more;
    assert emitted + ([d] + more) == (emitted + [d]) + more;
  }

  /** The lines of a collection: its first entry's, then the rest's. */
  lemma RenderSplit(entries: seq<Entry>)
    requires entries != []
    ensures |Render(entries)| == |Lines(entries[0])| + |Render(entries[1..])|
  {
    assert Render(entries) == Lines(entries[0]) + Render(entries[1..]);
  }

  /**
    A collection sitting at `p` as `CollectionAt` says: the parser emits its
    documents and goes on after it, at `end` with title `finalTitle` and the
    documents `docs`, to `r`.
  */
  lemma {:induction false} CollectionStep(lines: seq<string>, p: nat, entries: seq<Entry>, title: string, emitted: seq<Document>,
                                          end: nat, finalTitle: string, docs: seq<Document>, r: IndexOutcome)
    requires CollectionAt(lines, p, entries)
    requires end == p + |Render(entries)| <= |lines|
    requires finalTitle == FinalTitle(entries, title) && docs == emitted + Expected(entries, title)
    requires NextDocument(lines, end, finalTitle, docs) == r
    ensures NextDocument(lines, p, title, emitted) == r
    decreases |entries|
  {
    if entries == [] {
      assert docs == emitted;
    } else {
      var e := entries[0];
      var rest := entries[1..];
      var title' := TitleAfter(e, title);
      var emitted' := emitted + [DocumentOf(e, title)];
      ExpectedSplit(entries, title, emitted);
      RenderSplit(entries);
      assert FinalTitle(entries, title) == FinalTitle(rest, title');
      CollectionStep(lines, EntryEnd(p, e), rest, title', emitted', end, finalTitle, docs, r);
      EntryStep(lines, p, e, title, emitted, title', emitted', r);
    }
  }

  /** A collection followed by `rest` sits at the start of the file as `CollectionAt` says. */
  lemma CollectionFirst(entries: seq<Entry>, rest: seq<string>)
    requires forall k :: 0 <= k < |entries| ==> WellFormed(entries[k])
    requires rest == [] || StartsWith(rest[0], ".I")
    ensures CollectionAt(Render(entries) + rest, 0, entries)
  {
    var lines := Render(entries) + rest;
    assert At(lines, 0, lines);
    AtSplit(lines, 0, Render(entries), rest);
    CollectionPlaced(lines, 0, entries, |Render(entries)|);
  }

  /** A file that is empty or starts with an `.I` line is parsed from its first id on. */
  lemma ParseFromFirstId(lines: seq<string>)
    requires lines == [] || StartsWith(lines[0], ".I")
    ensures Parse(lines) == NextDocument(lines, 0, "", [])
  {
  }

  /** A collection followed by `rest` starts with an `.I` line, or is empty. */
  lemma CollectionStarts(entries: seq<Entry>, rest: seq<string>)
    requires rest == [] || StartsWith(rest[0], ".I")
    ensures var lines := Render(entries) + rest; lines == [] || StartsWith(lines[0], ".I")
  {
    if entries != [] {
      assert (Render(entries) + rest)[0] == Render(entries)[0] == IdLine(entries[0].id);
    } else if rest != [] {
      assert (Render(entries) + rest)[0] == rest[0];
    }
  }

  /** A collection followed by `rest`: the parser emits the collection's documents and goes on after it, to `r`. */
  lemma ParseCollectionThen(entries: seq<Entry>, rest: seq<string>, r: IndexOutcome)
    requires forall k :: 0 <= k < |entries| ==> WellFormed(entries[k])
    requires rest == [] || StartsWith(rest[0], ".I")
    requires NextDocument(Render(entries) + rest, |Render(entries)|, FinalTitle(entries, ""), Expected(entries, "")) == r
    ensures Parse(Render(entries) + rest) == r
  {
    var lines := Render(entries) + rest;
    CollectionFirst(entries, rest);
    CollectionStarts(entries, rest);
    ParseFromFirstId(lines);
    CollectionStep(lines, 0, entries, "", [], |Render(entries)|, FinalTitle(entries, ""), Expected(entries, ""), r);
  }

  /** At the end of the file the parse is complete. */
  lemma EndStep(lines: seq<string>, title: string, emitted: seq<Document>)
    ensures NextDocument(lines, |lines|, title, emitted) == Indexed(emitted)
  {
  }

  /** An `.I` line whose id cannot be read stops the parse, with what was emitted before it. */
  lemma BadIdStep(lines: seq<string>, i: nat, title: string, emitted: seq<Document>)
    requires i < |lines| && ParseDocId(lines[i]) == None
    ensures NextDocument(lines, i, title, emitted) == Failed(emitted)
  {
  }

  /**
    A well-formed collection file is indexed in full: one document per entry,
    in order, starting with an empty title.
  */
  lemma ParseCollection(entries: seq<Entry>)
    requires forall k :: 0 <= k < |entries| ==> WellFormed(entries[k])
    ensures Parse(Render(entries)) == Indexed(Expected(entries, ""))
  {
    var lines := Render(entries);
    assert lines + [] == lines;
    EndStep(lines, FinalTitle(entries, ""), Expected(entries, ""));
    ParseCollectionThen(entries, [], Indexed(Expected(entries, "")));
  }

  /**
    A collection followed by an `.I` line whose id cannot be read: the
    collection's documents are indexed and nothing after that line is.
  */
  lemma ParseStopsAtBadId(entries: seq<Entry>, bad: string, rest: seq<string>)
    requires forall k :: 0 <= k < |entries| ==> WellFormed(entries[k])
    requires StartsWith(bad, ".I") && ParseDocId(bad) == None
    ensures Parse(Render(entries) + ([bad] + rest)) == Failed(Expected(entries, ""))
  {
    var lines := Render(entries) + ([bad] + rest);
    assert lines[|Render(entries)|] == bad;
    BadIdStep(lines, |Render(entries)|, FinalTitle(entries, ""), Expected(entries, ""));
    ParseCollectionThen(entries, [bad] + rest, Failed(Expected(entries, "")));
  }

  /** Each document carries its own entry's id, and the entries' order. */
  lemma {:induction false} ExpectedIds(entries: seq<Entry>, title: string)
    ensures |Expected(entries, title)| == |entries|
    ensures forall k :: 0 <= k < |entries| ==> Expected(entries, title)[k].documentID == IntToString(entries[k].id)
    decreases |entries|
  {
    if entries != [] {
      ExpectedIds(entries[1..], TitleAfter(entries[0], title));
    }
  }

  /** An entry without a `.T` section gets the title of the document before it. */
  lemma {:induction false} TitleCarriedOver(entries: seq<Entry>, title: string, k: nat)
    requires 0 < k < |entries| && entries[k].title.None?
    ensures |Expected(entries, title)| == |entries|
    ensures Expected(entries, title)[k].title == Expected(entries, title)[k - 1].title
    decreases k
  {
    ExpectedIds(entries, title);
    var t := TitleAfter(entries[0], title);
    ExpectedIds(entries[1..], t);
    if k > 1 {
      TitleCarriedOver(entries[1..], t, k - 1);
    }
  }

  // ---------------------------------------------------------------------------
  // The parser's edges, for any file
  // ---------------------------------------------------------------------------

  /**
    A `.W` section before any `.I` line, after lines none of the parser's
    branches takes, is the first document: id 0, since no id was read yet,
    and an empty title, since no `.T` section came first.
  */
  lemma ContentsBeforeAnyId(lines: seq<string>, j: nat)
    requires j < |lines| && StartsWith(lines[j], ".W")
    requires forall k :: 0 <= k < j ==> Plain(lines[k])
    ensures |Parse(lines).docs| > 0
    ensures Parse(lines).docs[0] == Document("0", "", SectionText(lines, j + 1, SectionEnd(lines, Content, j + 1)))
  {
    SkipPlain(lines, 0, j, 0, "", []);
    assert !StartsWith(lines[j], ".I") && !StartsWith(lines[j], ".T") by {
      assert lines[j][..2] == ".W";
      Markers();
    }
    assert IntToString(0) == "0";
  }

  /**
    A `.T` section before any `.I` line: the first `.W` section after it is
    the first document, with id 0 and that section's title.
  */
  lemma TitleBeforeAnyId(lines: seq<string>, t: nat, j: nat)
    requires t < |lines| && StartsWith(lines[t], ".T")
    requires forall k :: 0 <= k < t ==> Plain(lines[k])
    requires SectionEnd(lines, Title, t + 1) < j < |lines| && StartsWith(lines[j], ".W")
    requires forall k :: SectionEnd(lines, Title, t + 1) < k < j ==> Plain(lines[k])
    ensures |Parse(lines).docs| > 0
    ensures Parse(lines).docs[0] == Document("0", SectionText(lines, t + 1, SectionEnd(lines, Title, t + 1)),
                                             SectionText(lines, j + 1, SectionEnd(lines, Content, j + 1)))
  {
    var e := SectionEnd(lines, Title, t + 1);
    var title := SectionText(lines, t + 1, e);
    SkipPlain(lines, 0, t, 0, "", []);
    assert !StartsWith(lines[t], ".I") by {
      assert lines[t][..2] == ".T";
      Markers();
    }
    SkipPlain(lines, e + 1, j, 0, title, []);
    assert !StartsWith(lines[j], ".I") && !StartsWith(lines[j], ".T") by {
      assert lines[j][..2] == ".W";
      Markers();
    }
    assert IntToString(0) == "0";
  }

  /** The number of lines from `i` on that start with `.W`. */
  function ContentMarkers(lines: seq<string>, i: nat): nat
    requires i <= |lines|
    decreases |lines| - i
  {
    if i == |lines| then 0
    else (if StartsWith(lines[i], ".W") then 1 else 0) + ContentMarkers(lines, i + 1)
  }

  lemma {:induction false} ContentMarkersMonotone(lines: seq<string>, i: nat, j: nat)
    requires i <= j <= |lines|
    ensures ContentMarkers(lines, j) <= ContentMarkers(lines, i)
    decreases j - i
  {
    if i < j {
      ContentMarkersMonotone(lines, i + 1, j);
    }
  }

  /** From line `i` on, the parser emits at most one document per `.W` line still ahead. */
  lemma {:induction false} RunBound(lines: seq<string>, i: nat, docId: int, title: string, emitted: seq<Document>)
    requires i <= |lines|
    ensures |Run(lines, i, docId, title, emitted).docs| <= |emitted| + ContentMarkers(lines, i)
    decreases |lines| - i, 1
  {
    if i < |lines| {
      var line := lines[i];
      if StartsWith(line, ".I") {
        NextDocumentBound(lines, i, title, emitted);
      } else if StartsWith(line, ".T") {
        var e := SectionEnd(lines, Title, i + 1);
        var next := if e < |lines| then e + 1 else e;
        RunBound(lines, next, docId, SectionText(lines, i + 1, e), emitted);
        ContentMarkersMonotone(lines, i, next);
      } else if StartsWith(line, ".W") {
        var e := SectionEnd(lines, Content, i + 1);
        var doc := Document(IntToString(docId), title, SectionText(lines, i + 1, e));
        NextDocumentBound(lines, e, title, emitted + [doc]);
        ContentMarkersMonotone(lines, i + 1, e);
      } else {
        RunBound(lines, i + 1, docId, title, emitted);
      }
    }
  }

  lemma {:induction false} NextDocumentBound(lines: seq<string>, i: nat, title: string, emitted: seq<Document>)
    requires i <= |lines|
    ensures |NextDocument(lines, i, title, emitted).docs| <= |emitted| + ContentMarkers(lines, i)
    decreases |lines| - i, 0
  {
    if i < |lines| {
      match ParseDocId(lines[i])
      case None =>
      case Some(id) =>
        RunBound(lines, i + 1, id, title, emitted);
        ContentMarkersMonotone(lines, i, i + 1);
    }
  }

  /** At most one document per `.W` line; a file with no `.W` line yields no document at all. */
  lemma ParseBound(lines: seq<string>)
    ensures |Parse(lines).docs| <= ContentMarkers(lines, 0)
    ensures ContentMarkers(lines, 0) == 0 ==> Parse(lines).docs == []
  {
    RunBound(lines, 0, 0, "", []);
  }
}
