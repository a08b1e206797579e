# Cranfield indexing and BM25 evaluation, modelled in Dafny

This project models the two classes of a small Lucene information-retrieval
assignment. It proves what they do.

- **The indexer** (`IndexFiles.indexDocuments`, `addDocument`) reads a
  Cranfield-style collection file line by line. Its markers are `.I <id>`,
  `.T`, `.A`, `.B` and `.W`. It adds one document per `.W` section, with three
  stored fields: `documentID`, `title` and `contents`.
- **The searcher** (`SearchFiles`) does four things:
  - it reads a relevance-judgment file into a map from query id to relevant
    document ids;
  - it loads a tab-separated query file;
  - it escapes Lucene's special tokens in each query before searching;
  - it scores each query's ranked hits by Average Precision, and averages
    those scores into the Mean Average Precision (MAP).

Modules:

- `JavaText` models the pieces of `java.lang.String` and `Integer` the code
  relies on, with Java's edge cases:
  - `trim`;
  - `split` with a one-character separator and limit 0, which drops trailing
    empty strings;
  - `split("\\s+")`, which keeps a leading empty string;
  - `replace`, which works left to right on non-overlapping matches;
  - `String.valueOf(int)`;
  - `Integer.parseInt`, where an exception is `None`.
- `IndexFiles` holds the parser.
  - `Run`, `NextDocument` and `Parse` are its specification.
  - `IndexDocuments` is the imperative parser over an `IndexWriter`, with the
    source's nested loops. It is proved to add exactly `Parse(lines).docs`.
- `CranfieldFormat` proves what the parser makes of a well-formed collection:
  one document per entry, in order, with the entry's id, the title in force and
  the entry's contents. It also proves how the parser behaves at the edges.
- `QueryEscaping` has three parts:
  - a one-pass definition of the escaping;
  - a proof that the source's 19 successive `replace` calls compute it;
  - an unescaping that undoes it.
- `Evaluation` defines Average Precision and MAP on ranked id lists, and proves
  their bounds and characterisations.
- `Search` holds the searcher's state and methods (`class SearchFiles`),
  together with the judgment and query file readers.

Some behaviour is modelled exactly as written:

- The `.I` branch's "flush the pending document" block is never taken.
  `IndexDocuments` carries the shared contents buffer from line to line and
  proves the branch dead with an `assert false`. The `.W` branch appends to the
  buffer and leaves it non-empty only when the section runs to the end of the
  file, and then no further line is read. When an `.I` line closes the section,
  the buffer is emptied before that line's id is read.
- As a consequence, a title is never reset. An entry without a `.T` section
  takes the title of the entry before it (`CranfieldFormat.TitleCarriedOver`).

## Model

| member | source | states |
|---|---|---|
| JavaText.TrimSpec | src/main/java/ca/IR/IndexFiles.java:111-113 | `trim` returns a contiguous slice of the string whose removed ends are all characters at or below U+0020; the result is empty exactly when every character is such, and otherwise starts and ends with a character above U+0020 |
| JavaText.TrimOfTrimmed | src/main/java/ca/IR/IndexFiles.java:113 | trimming is idempotent |
| JavaText.SplitSpec | src/main/java/ca/IR/IndexFiles.java:102 | `split` on one character gives pieces free of the separator: the whole string when it holds no separator, otherwise a prefix of the full list of pieces |
| JavaText.DropTrailingEmptySpec | src/main/java/ca/IR/IndexFiles.java:102 | the limit-0 rule of `split` keeps a prefix of the pieces, drops only empty strings, and leaves no empty string last |
| JavaText.SplitOfJoin | src/main/java/ca/IR/IndexFiles.java:102 | splitting words joined by the separator gives the words back, when they are separator-free and the last one is non-empty |
| JavaText.SplitOnSpacesSpec | src/main/java/ca/IR/SearchFiles.java:36 | `split("\\s+")` gives whitespace-free pieces: the whole string when it holds no whitespace, otherwise a prefix of the full list of pieces |
| JavaText.SpacePiecesOfGaps | src/main/java/ca/IR/SearchFiles.java:36 | before the trailing-empty rule, whitespace-free words separated by non-empty runs of `\s` characters (spaces, tabs, line breaks, form feeds) split into exactly those words; an empty first word stands for leading whitespace |
| JavaText.SplitOnSpacesOfGaps | src/main/java/ca/IR/SearchFiles.java:36 | whitespace-free words, all but the first non-empty, separated by any non-empty runs of `\s` characters, split back into exactly those words |
| JavaText.ReplacePassesThrough | src/main/java/ca/IR/SearchFiles.java:51 | `replace` copies unchanged a prefix none of whose characters is the target's first character |
| JavaText.ReplaceShort | src/main/java/ca/IR/SearchFiles.java:51 | a string shorter than the target is returned unchanged by `replace` |
| JavaText.NatDigitsSpec | src/main/java/ca/IR/IndexFiles.java:97 | the decimal digits written for a natural number are all digits, have no leading zero, and read back as that number |
| JavaText.IntToString | src/main/java/ca/IR/IndexFiles.java:97 | `String.valueOf(int)` is non-empty and neither starts nor ends with a character `trim` removes |
| JavaText.IntToStringHasNoSpace | src/main/java/ca/IR/IndexFiles.java:97 | `String.valueOf(int)` holds no space |
| JavaText.ParseInt | src/main/java/ca/IR/IndexFiles.java:102 | `Integer.parseInt` succeeds only with a value in the 32-bit range |
| JavaText.ParseIntOfString | src/main/java/ca/IR/IndexFiles.java:97-102 | `parseInt(String.valueOf(n)) == n` for every 32-bit int |
| IndexFiles.IndexWriter.constructor | src/main/java/ca/IR/IndexFiles.java:51 | a fresh writer holds no documents |
| IndexFiles.IndexWriter.AddDocument | src/main/java/ca/IR/IndexFiles.java:150 | the document is appended and nothing else changes |
| IndexFiles.AddDocument | src/main/java/ca/IR/IndexFiles.java:139-151 | the writer gains exactly one document, with documentID, title and contents set from the three arguments |
| IndexFiles.SectionEnd | src/main/java/ca/IR/IndexFiles.java:107-110 | a section ends at or after its first line and within the file |
| IndexFiles.SectionEndSpec | src/main/java/ca/IR/IndexFiles.java:107-110 | no line before the section's end closes the section, and the line at the end (if any) closes it: `.A`/`.B` for a title, `.I` for contents |
| IndexFiles.ParseDocId | src/main/java/ca/IR/IndexFiles.java:102 | an id read from an `.I` line is a 32-bit int; a missing second field or an unparsable one gives None |
| IndexFiles.Run | src/main/java/ca/IR/IndexFiles.java:93-134 | documents already emitted are never taken back |
| IndexFiles.ReadSection | src/main/java/ca/IR/IndexFiles.java:105-112 | the inner loop stops at the section's end, and its builder holds every line before it, each trimmed and followed by a space |
| IndexFiles.ReadDocId | src/main/java/ca/IR/IndexFiles.java:94-103 | the `.I` branch reads the id; on failure the parse fails with what was emitted, otherwise it goes on at the next line with the new id |
| IndexFiles.ReadTitle | src/main/java/ca/IR/IndexFiles.java:104-114 | the title is the trimmed text of the lines before the first `.A`/`.B`; that closing line is consumed; the parse goes on from there with the new title |
| IndexFiles.ReadContents | src/main/java/ca/IR/IndexFiles.java:115-132 | the `.W` branch appends the trimmed section text to the shared contents buffer and adds one document (current id, title in force, buffer); an `.I` line that closes the section empties the buffer and has its id read, while at the end of the file the buffer stays filled |
| IndexFiles.IndexDocuments | src/main/java/ca/IR/IndexFiles.java:87-136 | the writer gains exactly the documents `Parse` emits, in order; `ok` is false exactly when an `.I` id could not be parsed |
| CranfieldFormat.SkipPlain | src/main/java/ca/IR/IndexFiles.java:93-134 | lines that start with none of `.I`, `.T`, `.W` leave the parser's state unchanged |
| CranfieldFormat.ParseIdLine | src/main/java/ca/IR/IndexFiles.java:102 | the id written on an `.I <id>` line is the id read back |
| CranfieldFormat.ParseCollection | src/main/java/ca/IR/IndexFiles.java:87-136 | a well-formed collection is indexed completely: one document per entry, in order, with the entry's id, the title in force and the entry's contents |
| CranfieldFormat.ParseCollectionThen | src/main/java/ca/IR/IndexFiles.java:118-124 | after a collection, the parser continues at the next `.I` line with the collection's documents emitted |
| CranfieldFormat.ParseStopsAtBadId | src/main/java/ca/IR/IndexFiles.java:122 | an unparsable id after a collection fails the file; the collection's documents stay and nothing after that line is indexed |
| CranfieldFormat.ExpectedIds | src/main/java/ca/IR/IndexFiles.java:120 | the k-th document carries the k-th entry's id |
| CranfieldFormat.TitleCarriedOver | src/main/java/ca/IR/IndexFiles.java:96-100 | an entry without a `.T` section gets the previous document's title, because the title reset is unreachable |
| CranfieldFormat.ContentsBeforeAnyId | src/main/java/ca/IR/IndexFiles.java:91-131 | a `.W` section preceded only by unmarked lines (no `.I`, `.T` or `.W`) is indexed first, with id "0", an empty title and the section's text |
| CranfieldFormat.TitleBeforeAnyId | src/main/java/ca/IR/IndexFiles.java:91-131 | a `.T` section and then a `.W` section before any `.I` line are indexed first, with id "0", the `.T` section's title and the `.W` section's text |
| CranfieldFormat.ParseBound | src/main/java/ca/IR/IndexFiles.java:115-132 | at most one document per `.W` line; a file with no `.W` line indexes nothing |
| QueryEscaping.Esc | src/main/java/ca/IR/SearchFiles.java:48-54 | escaping never shortens a string |
| QueryEscaping.ReplaceStep | src/main/java/ca/IR/SearchFiles.java:50-52 | one `replace(t, "\\" + t)` on an escaped string escapes t as well, provided t shares no character with the earlier tokens or the backslash |
| QueryEscaping.EscapeStep | src/main/java/ca/IR/SearchFiles.java:49-51 | each of the 19 `replace` calls, in the source's order, extends the one-pass escaping by one token |
| QueryEscaping.EscapeUnchanged | src/main/java/ca/IR/SearchFiles.java:48-54 | escaping leaves a query unchanged exactly when no special token occurs in it |
| QueryEscaping.EscapeRoundTrip | src/main/java/ca/IR/SearchFiles.java:48-54 | dropping each escaping backslash restores the original query |
| QueryEscaping.EscapeInjective | src/main/java/ca/IR/SearchFiles.java:48-54 | two different queries never escape to the same string |
| Evaluation.Hits | src/main/java/ca/IR/SearchFiles.java:84-85 | no more relevant hits than ranks |
| Evaluation.PrecisionAt | src/main/java/ca/IR/SearchFiles.java:86 | precision at a rank lies between 0 and 1 |
| Evaluation.PrecisionSumBounds | src/main/java/ca/IR/SearchFiles.java:84-87 | the precision sum lies between 0 and the number of relevant hits |
| Evaluation.AveragePrecisionNonNegative | src/main/java/ca/IR/SearchFiles.java:69-93 | Average Precision is never negative |
| Evaluation.AveragePrecisionNoHits | src/main/java/ca/IR/SearchFiles.java:70-73 | no judgment set, or no relevant hit, gives 0 |
| Evaluation.AveragePrecisionZeroIff | src/main/java/ca/IR/SearchFiles.java:84-89 | with a non-empty judgment set, AP is 0 if and only if no ranked hit is relevant |
| Evaluation.AveragePrecisionAtMostOne | src/main/java/ca/IR/SearchFiles.java:89 | with no id repeated in the ranking, AP is at most 1 |
| Evaluation.AveragePrecisionPerfect | src/main/java/ca/IR/SearchFiles.java:84-89 | a ranking made of exactly the relevant documents scores 1 |
| Evaluation.AveragePrecisionExample | src/main/java/ca/IR/SearchFiles.java:77-89 | relevant hits at ranks 1, 3 and 5 of 3 relevant documents score (1 + 2/3 + 3/5)/3 |
| Evaluation.SumInAnyOrder | src/main/java/ca/IR/SearchFiles.java:98-104 | summing the per-query scores in any iteration order gives the same total |
| Evaluation.MeanAveragePrecisionBounds | src/main/java/ca/IR/SearchFiles.java:105 | MAP is undefined exactly when there are no queries; otherwise it lies between 0 and 1 when every AP does |
| Search.StoredField | src/main/java/ca/IR/IndexFiles.java:142-147 | a stored document answers `get` for documentID, title and contents only |
| Search.AsWrittenLookupScoresZero | src/main/java/ca/IR/SearchFiles.java:80 | looking ids up under "id" finds none, so every query scores AP 0 |
| Search.CorrectedLookupFindsRelevant | src/main/java/ca/IR/SearchFiles.java:80 | looking ids up under "documentID" returns each hit's id, and one relevant hit makes AP positive |
| Search.Lookup | src/main/java/ca/IR/SearchFiles.java:70 | `get` returns the query's set exactly when the query has one |
| Search.JudgmentLineSpec | src/main/java/ca/IR/SearchFiles.java:36-42 | one line adds its query/document pair when it has exactly three fields, and keeps every other judgment |
| Search.JudgmentsKeys | src/main/java/ca/IR/SearchFiles.java:32-45 | a query has a judgment set exactly when it had one before or some line judges it |
| Search.JudgmentsMembers | src/main/java/ca/IR/SearchFiles.java:32-45 | a document is in a query's set exactly when it was before or some three-field line pairs them |
| Search.JudgmentsGrow | src/main/java/ca/IR/SearchFiles.java:41 | reading lines only adds judgments |
| Search.JudgmentLineOfFields | src/main/java/ca/IR/SearchFiles.java:36-41 | a line `q d grade` whose fields are separated by any non-empty runs of `\s` characters (several spaces, tabs) adds d to q's set |
| Search.JudgmentLineLeadingSpace | src/main/java/ca/IR/SearchFiles.java:36-37 | a judgment line with a leading run of `\s` characters splits into four fields and is ignored |
| Search.QueryMapKeys | src/main/java/ca/IR/SearchFiles.java:127-131 | a query id is loaded exactly when some line splits on a tab into two fields starting with it |
| Search.QueryMapLastWins | src/main/java/ca/IR/SearchFiles.java:130 | a query id repeated in the file keeps the text of its last line |
| Search.QueryLineOfFields | src/main/java/ca/IR/SearchFiles.java:128-129 | `id<TAB>text` splits into exactly [id, text] |
| Search.LoadQueries | src/main/java/ca/IR/SearchFiles.java:124-133 | the loop builds exactly the query map of the file's lines |
| Search.SearchFiles.constructor | src/main/java/ca/IR/SearchFiles.java:26-29 | a new searcher has no judgments |
| Search.SearchFiles.ReadRelevanceJudgments | src/main/java/ca/IR/SearchFiles.java:32-45 | the judgment map becomes the old map updated by every line, in order |
| Search.SearchFiles.EscapeSpecialCharacters | src/main/java/ca/IR/SearchFiles.java:48-54 | the 19-step replace loop yields the one-pass escaping, which unescapes back to the query |
| Search.SearchFiles.SearchWithBM25 | src/main/java/ca/IR/SearchFiles.java:57-67 | the engine is queried with the trimmed, escaped query text; its result is passed on, None standing for the `ParseException` the method declares |
| Search.SearchFiles.EvaluatePrecision | src/main/java/ca/IR/SearchFiles.java:69-93 | the loop returns the Average Precision of the hits' ids against the query's judgment set, 0 when that set is missing or empty |
| Search.SearchFiles.ScoreQuery | src/main/java/ca/IR/SearchFiles.java:101-103 | one query is searched and scored: no score exactly when its parse fails, otherwise the Average Precision of its hits |
| Search.SearchFiles.SumScores | src/main/java/ca/IR/SearchFiles.java:96-104 | the loop reports a failure exactly when some query's parse fails; otherwise it returns the total of the per-query scores, in any iteration order |
| Search.SearchFiles.CalculateMAP | src/main/java/ca/IR/SearchFiles.java:95-106 | the outcome is `MapOf`: aborted when some query's parse fails, NaN when there are no queries, otherwise the total over the queries divided by their number |
| Search.AnyFailsSpec | src/main/java/ca/IR/SearchFiles.java:98-104 | the loop's failure flag holds exactly when some query in the set fails to parse |
| Search.MapOfParsed | src/main/java/ca/IR/SearchFiles.java:96-106 | when no query fails to parse, MAP is NaN for an empty query map and otherwise the total of the per-query scores divided by the number of queries |
| Search.MapOfBounds | src/main/java/ca/IR/SearchFiles.java:95-106 | `calculateMAP` aborts exactly when some query fails to parse, is NaN exactly when the query map is empty, and otherwise lies between 0 and 1 when no ranking repeats an id |

## Left out

- `CustomAnalyzer` (tokenising, lower-casing, stop words, Porter stemming) and `EnglishAnalyzer` are not modelled: they are Lucene library code.
- Search.SearchFiles.SearchWithBM25: `QueryParser`, BM25 ranking and the top-50 cut are a function parameter `search` of type `Engine`. Which query strings the parser rejects (for example an empty query) is left to that parameter, which answers None for them. The parser's default field "content" differs from the indexed field "contents"; this mismatch is therefore not captured.
- `IndexWriter`, `FSDirectory` and `DirectoryReader` persistence are reduced to an in-memory list of documents. Only the three stored field values are kept.
- `main` of both classes is not modelled: argument checking, the per-file loop over the documents directory, catching the exception per file, and console logging. Files are given as sequences of lines.
- Search.SearchFiles.EvaluatePrecision: reads ids from "documentID" where the source reads "id". The as-written lookup is kept as `Search.AsWrittenLookupScoresZero` (see Findings).
- Search.SearchFiles.CalculateMAP: Java's `0.0/0` (NaN) for an empty query map is the outcome `NotANumber`, and a `ParseException` escaping the loop is the outcome `ParseFailed`; the scores summed before the abort are not returned. `HashMap` iteration order is an arbitrary choice, and `SumInAnyOrder` shows that it does not matter.
- Evaluation.AveragePrecision: `double` arithmetic is modelled with exact reals; rounding is not modelled.
- JavaText.ParseInt: ASCII digits only. The Unicode digits that `Integer.parseInt` also accepts are not modelled.
- JavaText.Trim: works on `char` values. Surrogate pairs and code points are not distinguished.

## Findings

| source | as written | input that shows it | evidently intended | confidence | as-written member | corrected member |
|---|---|---|---|---|---|---|
| src/main/java/ca/IR/SearchFiles.java:80 | `doc.get("id")`, but the indexer stores the id under "documentID" (src/main/java/ca/IR/IndexFiles.java:143), so every lookup is null | any query with a non-empty judgment set and a relevant document among its hits: AP is 0 | read "documentID", so relevant hits are recognised | not executed | Search.AsWrittenLookupScoresZero | Search.CorrectedLookupFindsRelevant |
