/**
  The searcher: it loads relevance judgments and queries from text lines,
  escapes each query, runs it through the search engine, and scores the ranked
  hits with Average Precision and Mean Average Precision.

  The search engine itself (query parsing, BM25 ranking) is a parameter
  `search` from the escaped query text to the ranked stored documents; the
  lines of a file are given as a sequence.
*/
module Search {
  import opened Wrappers
  import opened JavaText
  import opened IndexFiles
  import opened QueryEscaping
  import opened Evaluation

  // ---------------------------------------------------------------------------
  // Stored fields of an indexed document
  // ---------------------------------------------------------------------------

  /** The field the indexer stores the document id in. */
  const IdField: string := "documentID"

  /** The field the evaluation reads the document id from, as written. */
  const AsWrittenIdField: string := "id"

  /**
    `doc.get(field)`: the value of one of the three stored fields, and
    nothing (`null`) for any other name.
  */
  function StoredField(doc: Document, field: string): (v: Option<string>)
    ensures v.Some? <==> field == "documentID" || field == "title" || field == "contents"
  {
    if field == "documentID" then Some(doc.documentID)
    else if field == "title" then Some(doc.title)
    else if field == "contents" then Some(doc.contents)
    else None
  }

  /** The id looked up in `field` for each ranked hit, in rank order. */
  function RankedIds(hits: seq<Document>, field: string): seq<Option<string>>
  {
    seq(|hits|, k requires 0 <= k < |hits| => StoredField(hits[k], field))
  }

  /**
    As written, the evaluation looks the id up under `id`, which the indexer
    never stores: every hit has an absent id, so Average Precision is zero for
    every query, whatever was retrieved.
  */
  lemma AsWrittenLookupScoresZero(judged: Option<set<string>>, hits: seq<Document>)
    ensures forall k :: 0 <= k < |hits| ==> RankedIds(hits, AsWrittenIdField)[k] == None
    ensures AveragePrecision(judged, RankedIds(hits, AsWrittenIdField)) == 0.0
  {
    AveragePrecisionNoHits(judged, RankedIds(hits, AsWrittenIdField));
  }

  /**
    Looking the id up under `documentID` gives each hit's own id, so a
    relevant document retrieved anywhere makes Average Precision positive.
  */
  lemma CorrectedLookupFindsRelevant(relevant: set<string>, hits: seq<Document>, k: nat)
    requires k < |hits| && hits[k].documentID in relevant
    ensures forall j :: 0 <= j < |hits| ==> RankedIds(hits, IdField)[j] == Some(hits[j].documentID)
    ensures AveragePrecision(Some(relevant), RankedIds(hits, IdField)) > 0.0
  {
    var ids := RankedIds(hits, IdField);
    assert IsRelevant(relevant, ids[k]);
    AveragePrecisionZeroIff(relevant, ids);
    AveragePrecisionNonNegative(Some(relevant), ids);
  }

  // ---------------------------------------------------------------------------
  // Relevance judgments: lines "<query id> <doc id> <grade>"
  // ---------------------------------------------------------------------------

  /** The judgment set of a query; `None` when the query has none. */
  function Lookup(judgments: map<string, set<string>>, queryId: string): (r: Option<set<string>>)
    ensures r.Some? <==> queryId in judgments
    ensures r.Some? ==> r.value == judgments[queryId]
  {
    if queryId in judgments then Some(judgments[queryId]) else None
  }

  /** `line` judges document `docId` relevant for query `queryId`: it splits on \s+ into exactly three fields. */
  predicate Judges(line: string, queryId: string, docId: string)
  {
    var parts := SplitOnSpaces(line);
    |parts| == 3 && parts[0] == queryId && parts[1] == docId
  }

  /** `computeIfAbsent(queryId, new set).add(docId)`. */
  function AddJudgment(judgments: map<string, set<string>>, queryId: string, docId: string): map<string, set<string>>
  {
    judgments[queryId := (if queryId in judgments then judgments[queryId] else {}) + {docId}]
  }

  /** The effect of one line of the judgment file. */
  function JudgmentLine(judgments: map<string, set<string>>, line: string): map<string, set<string>>
  {
    var parts := SplitOnSpaces(line);
    if |parts| == 3 then AddJudgment(judgments, parts[0], parts[1]) else judgments
  }

  /** The judgments after reading `lines`, one line after the other, starting from `judgments`. */
  function Judgments(judgments: map<string, set<string>>, lines: seq<string>): map<string, set<string>>
  {
    if lines == [] then judgments
    else JudgmentLine(Judgments(judgments, lines[..|lines| - 1]), lines[|lines| - 1])
  }

  /** One line adds at most the judgment it states, and keeps all others. */
  lemma JudgmentLineSpec(judgments: map<string, set<string>>, line: string, q: string, d: string)
    ensures q in JudgmentLine(judgments, line) <==> q in judgments || Judged(line, q)
    ensures q in JudgmentLine(judgments, line) ==>
              (d in JudgmentLine(judgments, line)[q] <==> (q in judgments && d in judgments[q]) || Judges(line, q, d))
  {
    var parts := SplitOnSpaces(line);
    if |parts| == 3 {
      assert Judges(line, parts[0], parts[1]);
    }
  }

  /** `line` judges some document for query `q`. */
  ghost predicate Judged(line: string, q: string)
  {
    exists e :: Judges(line, q, e)
  }

  /** Some line of `lines` judges a document for query `q`. */
  ghost predicate JudgedIn(lines: seq<string>, q: string)
  {
    exists i :: 0 <= i < |lines| && Judged(lines[i], q)
  }

  /** Some line satisfies `holds` exactly when a line before the last one does or the last one does. */
  lemma SomeLineSplit(lines: seq<string>, front: seq<string>, holds: string -> bool)
    requires lines != [] && front == lines[..|lines| - 1]
    ensures (exists i :: 0 <= i < |lines| && holds(lines[i]))
            <==> (exists i :: 0 <= i < |front| && holds(front[i])) || holds(lines[|lines| - 1])
  {
    if exists i :: 0 <= i < |lines| && holds(lines[i]) {
      var i :| 0 <= i < |lines| && holds(lines[i]);
      if i < |front| {
        assert holds(front[i]);
      }
    }
    if exists i :: 0 <= i < |front| && holds(front[i]) {
      var i :| 0 <= i < |front| && holds(front[i]);
      assert holds(lines[i]);
    }
  }

  /** A query is judged in the lines exactly when it is judged before the last one or on it. */
  lemma JudgedInSplit(lines: seq<string>, q: string)
    requires lines != []
    ensures JudgedIn(lines, q)
            <==> JudgedIn(lines[..|lines| - 1], q) || Judged(lines[|lines| - 1], q)
  {
    SomeLineSplit(lines, lines[..|lines| - 1], line => Judged(line, q));
  }

  /** After reading `lines`, query `q` has a judgment set exactly when it had one before or some line judges a document for it. */
  lemma {:induction false} JudgmentsKeys(judgments: map<string, set<string>>, lines: seq<string>, q: string)
    ensures q in Judgments(judgments, lines) <==> q in judgments || JudgedIn(lines, q)
  {
    if lines != [] {
      var front := lines[..|lines| - 1];
      JudgmentsKeys(judgments, front, q);
      JudgmentLineSpec(Judgments(judgments, front), lines[|lines| - 1], q, "");
      JudgedInSplit(lines, q);
    }
  }

  /**
    After reading `lines`, document `d` is in the judgment set of query `q`
    exactly when it was before or some line judges it relevant for `q`.
  */
  lemma {:induction false} JudgmentsMembers(judgments: map<string, set<string>>, lines: seq<string>, q: string, d: string)
    requires q in Judgments(judgments, lines)
    ensures d in Judgments(judgments, lines)[q]
            <==> (q in judgments && d in judgments[q]) || exists i :: 0 <= i < |lines| && Judges(lines[i], q, d)
  {
    if lines != [] {
      var front := lines[..|lines| - 1];
      var before := Judgments(judgments, front);
      JudgmentLineSpec(before, lines[|lines| - 1], q, d);
      SomeLineSplit(lines, front, line => Judges(line, q, d));
      if q in before {
        JudgmentsMembers(judgments, front, q, d);
      } else {
        JudgmentsKeys(judgments, front, q);
      }
    }
  }

  /** Reading more lines never removes a query or a document. */
  lemma {:induction false} JudgmentsGrow(judgments: map<string, set<string>>, lines: seq<string>)
    ensures forall q :: q in judgments ==> q in Judgments(judgments, lines) && judgments[q] <= Judgments(judgments, lines)[q]
  {
    if lines != [] {
      JudgmentsGrow(judgments, lines[..|lines| - 1]);
    }
  }

  /**
    A line of three non-empty fields separated by any runs of \s (spaces,
    tabs, ...) adds its second field to the set of its first.
  */
  lemma JudgmentLineOfFields(judgments: map<string, set<string>>, queryId: string, docId: string, grade: string,
                             gap1: string, gap2: string)
    requires queryId != "" && docId != "" && grade != ""
    requires NoSpace(queryId) && NoSpace(docId) && NoSpace(grade)
    requires Gap(gap1) && Gap(gap2)
    ensures JudgmentLine(judgments, queryId + gap1 + docId + gap2 + grade) == AddJudgment(judgments, queryId, docId)
  {
    var words := [queryId, docId, grade];
    var gaps := [gap1, gap2];
    assert JoinWithGaps(words, gaps) == queryId + gap1 + docId + gap2 + grade by {
      assert words[1..] == [docId, grade] && words[1..][1..] == [grade];
      assert gaps[1..] == [gap2] && gaps[1..][1..] == [];
      assert JoinWithGaps([grade], []) == grade;
      assert JoinWithGaps([docId, grade], [gap2]) == docId + gap2 + grade;
      assert JoinWithGaps(words, gaps) == queryId + gap1 + (docId + gap2 + grade);
    }
    SplitOnSpacesOfGaps(words, gaps);
  }

  /**
    The same line with \s in front is ignored: splitting on \s+ then yields
    an empty leading field, so the line has four fields, not three.
  */
  lemma JudgmentLineLeadingSpace(judgments: map<string, set<string>>, queryId: string, docId: string, grade: string,
                                 gap0: string, gap1: string, gap2: string)
    requires queryId != "" && docId != "" && grade != ""
    requires NoSpace(queryId) && NoSpace(docId) && NoSpace(grade)
    requires Gap(gap0) && Gap(gap1) && Gap(gap2)
    ensures |SplitOnSpaces(gap0 + queryId + gap1 + docId + gap2 + grade)| == 4
    ensures JudgmentLine(judgments, gap0 + queryId + gap1 + docId + gap2 + grade) == judgments
  {
    var words := ["", queryId, docId, grade];
    var gaps := [gap0, gap1, gap2];
    var line := gap0 + queryId + gap1 + docId + gap2 + grade;
    assert JoinWithGaps(words, gaps) == line by {
      assert words[1..] == [queryId, docId, grade];
      assert words[1..][1..] == [docId, grade] && words[1..][1..][1..] == [grade];
      assert gaps[1..] == [gap1, gap2] && gaps[1..][1..] == [gap2] && gaps[1..][1..][1..] == [];
      assert JoinWithGaps([grade], []) == grade;
      assert JoinWithGaps([docId, grade], [gap2]) == docId + gap2 + grade;
      assert JoinWithGaps([queryId, docId, grade], [gap1, gap2]) == queryId + gap1 + (docId + gap2 + grade);
      assert JoinWithGaps(words, gaps) == "" + gap0 + (queryId + gap1 + (docId + gap2 + grade));
      assert "" + gap0 == gap0;
    }
    SplitOnSpacesOfGaps(words, gaps);
  }

  // ---------------------------------------------------------------------------
  // Query lines: "<query id>\t<query text>"
  // ---------------------------------------------------------------------------

  /** `line` splits on a tab into exactly two fields, the first being `queryId`. */
  predicate DefinesQuery(line: string, queryId: string)
  {
    var parts := Split(line, '\t');
    |parts| == 2 && parts[0] == queryId
  }

  /** The query map after reading `lines`: each two-field line puts its text under its id. */
  function QueryMap(lines: seq<string>): map<string, string>
  {
    if lines == [] then map[]
    else
      var queries := QueryMap(lines[..|lines| - 1]);
      var parts := Split(lines[|lines| - 1], '\t');
      if |parts| == 2 then queries[parts[0] := parts[1]] else queries
  }

  /** A query id is in the map exactly when some line defines it. */
  lemma {:induction false} QueryMapKeys(lines: seq<string>, q: string)
    ensures q in QueryMap(lines) <==> exists i :: 0 <= i < |lines| && DefinesQuery(lines[i], q)
  {
    if lines != [] {
      var front := lines[..|lines| - 1];
      QueryMapKeys(front, q);
      assert forall i :: 0 <= i < |front| ==> front[i] == lines[i];
    }
  }

  /** The text kept for a query is the one on the last line that defines it. */
  lemma {:induction false} QueryMapLastWins(lines: seq<string>, q: string, i: nat)
    requires i < |lines| && DefinesQuery(lines[i], q)
    requires forall j :: i < j < |lines| ==> !DefinesQuery(lines[j], q)
    ensures q in QueryMap(lines) && QueryMap(lines)[q] == Split(lines[i], '\t')[1]
  {
    var front := lines[..|lines| - 1];
    if i < |lines| - 1 {
      assert forall j :: i < j < |front| ==> front[j] == lines[j];
      QueryMapLastWins(front, q, i);
    }
  }

  /**
    A query line written as a tab-free id, a tab and a non-empty tab-free text
    defines that id with that text.
  */
  lemma QueryLineOfFields(queryId: string, text: string)
    requires text != [] && '\t' !in queryId && '\t' !in text
    ensures Split(queryId + "\t" + text, '\t') == [queryId, text]
  {
    var words := [queryId, text];
    assert JoinWith(words, '\t') == queryId + "\t" + text;
    SplitOfJoin(words, '\t');
  }

  /** The query loop of the main program: each line split on a tab, kept when it has two fields. */
  method LoadQueries(lines: seq<string>) returns (queries: map<string, string>)
    ensures queries == QueryMap(lines)
  {
    queries := map[];
    var i := 0;
    while i < |lines|
      invariant 0 <= i <= |lines|
      invariant queries == QueryMap(lines[..i])
    {
      assert lines[..i + 1][..i] == lines[..i];
      var parts := Split(lines[i], '\t');
      if |parts| == 2 {
        queries := queries[parts[0] := parts[1]];
      }
      i := i + 1;
    }
    assert lines[..i] == lines;
  }

  // ---------------------------------------------------------------------------
  // Scoring one query, and all of them
  // ---------------------------------------------------------------------------

  /**
    The engine behind `searchWithBM25`: the hits for a query string, or None
    when the query parser rejects it (a `ParseException`).
  */
  type Engine = string -> Option<seq<Document>>

  /** The hits for query `q`'s escaped, trimmed text, or None when its parse fails. */
  function QueryHits(queries: map<string, string>, search: Engine, q: string): Option<seq<Document>>
    requires q in queries
  {
    search(Escape(Trim(queries[q])))
  }

  /** Query `q`'s text is rejected by the query parser. */
  predicate QueryFails(queries: map<string, string>, search: Engine, q: string)
  {
    q in queries && QueryHits(queries, search, q).None?
  }

  /** Some query in `ids` fails to parse, checked one query at a time in whichever order `:|` picks. */
  ghost predicate AnyFails(queries: map<string, string>, search: Engine, ids: set<string>)
    decreases ids
  {
    if ids == {} then false
    else
      var q :| q in ids;
      QueryFails(queries, search, q) || AnyFails(queries, search, ids - {q})
  }

  /** The check may start from any of the queries. */
  lemma {:induction false} AnyFailsPick(queries: map<string, string>, search: Engine, ids: set<string>, q: string)
    requires q in ids
    ensures AnyFails(queries, search, ids) == (QueryFails(queries, search, q) || AnyFails(queries, search, ids - {q}))
    decreases ids
  {
    var p :| p in ids && AnyFails(queries, search, ids) == (QueryFails(queries, search, p) || AnyFails(queries, search, ids - {p}));
    if p != q {
      AnyFailsPick(queries, search, ids - {p}, q);
      AnyFailsPick(queries, search, ids - {q}, p);
      assert ids - {p} - {q} == ids - {q} - {p};
    }
  }

  /** `AnyFails` holds exactly when some query of the set fails to parse. */
  lemma {:induction false} AnyFailsSpec(queries: map<string, string>, search: Engine, ids: set<string>)
    ensures AnyFails(queries, search, ids) <==> exists q :: q in ids && QueryFails(queries, search, q)
    decreases ids
  {
    if ids != {} {
      var p :| p in ids && AnyFails(queries, search, ids) == (QueryFails(queries, search, p) || AnyFails(queries, search, ids - {p}));
      AnyFailsSpec(queries, search, ids - {p});
      if exists q :: q in ids && QueryFails(queries, search, q) {
        var q :| q in ids && QueryFails(queries, search, q);
        assert q == p || q in ids - {p};
      }
    }
  }

  /**
    The Average Precision of query `queryId`, looked up in `judgments` and
    scored on the hits `search` returns for its escaped, trimmed text.
  */
  function QueryScore(judgments: map<string, set<string>>, queries: map<string, string>,
                      search: Engine): (score: string -> real)
  {
    q => if q in queries && QueryHits(queries, search, q).Some?
         then AveragePrecision(Lookup(judgments, q), RankedIds(QueryHits(queries, search, q).value, IdField))
         else 0.0
  }

  /** The score of a query whose text parses is the Average Precision of its hits. */
  lemma QueryScoreOf(judgments: map<string, set<string>>, queries: map<string, string>, search: Engine, q: string)
    requires q in queries && QueryHits(queries, search, q).Some?
    ensures QueryScore(judgments, queries, search)(q)
            == AveragePrecision(Lookup(judgments, q), RankedIds(QueryHits(queries, search, q).value, IdField))
  {
  }

  /**
    What `calculateMAP` yields: the mean, Java's NaN from dividing by zero
    queries, or the `ParseException` it lets through from a query it cannot parse.
  */
  datatype MapOutcome = Mean(value: real) | NotANumber | ParseFailed

  /**
    The outcome over all queries: a parse failure of any of them aborts the
    whole computation, whichever order the queries are visited in.
  */
  ghost function MapOf(judgments: map<string, set<string>>, queries: map<string, string>, search: Engine): MapOutcome
  {
    if AnyFails(queries, search, queries.Keys) then ParseFailed
    else
      match MeanAveragePrecision(QueryScore(judgments, queries, search), queries.Keys)
      case None => NotANumber
      case Some(m) => Mean(m)
  }

  /** With every query parsed, the outcome is the mean of the scores, or NaN for no query. */
  lemma MapOfParsed(judgments: map<string, set<string>>, queries: map<string, string>, search: Engine)
    requires !AnyFails(queries, search, queries.Keys)
    ensures MapOf(judgments, queries, search) ==
              if |queries| == 0 then NotANumber
              else Mean(SumOver(QueryScore(judgments, queries, search), queries.Keys) / |queries| as real)
  {
    assert |queries.Keys| == |queries|;
    assert |queries| == 0 <==> queries.Keys == {};
  }

  /**
    Unless a query fails to parse, MAP is NaN exactly when there are no
    queries, and otherwise lies between 0 and 1 when no ranking repeats an id.
  */
  lemma MapOfBounds(judgments: map<string, set<string>>, queries: map<string, string>, search: Engine)
    requires forall q :: q in queries && QueryHits(queries, search, q).Some? ==>
               Distinct(RankedIds(QueryHits(queries, search, q).value, IdField))
    ensures MapOf(judgments, queries, search) == ParseFailed <==> exists q :: QueryFails(queries, search, q)
    ensures MapOf(judgments, queries, search) == NotANumber <==>
              queries == map[] && !exists q :: QueryFails(queries, search, q)
    ensures MapOf(judgments, queries, search).Mean? ==> 0.0 <= MapOf(judgments, queries, search).value <= 1.0
  {
    var score := QueryScore(judgments, queries, search);
    forall q | q in queries.Keys
      ensures 0.0 <= score(q) <= 1.0
    {
      if QueryHits(queries, search, q).Some? {
        var ranked := RankedIds(QueryHits(queries, search, q).value, IdField);
        AveragePrecisionNonNegative(Lookup(judgments, q), ranked);
        AveragePrecisionAtMostOne(Lookup(judgments, q), ranked);
      }
    }
    MeanAveragePrecisionBounds(score, queries.Keys);
    AnyFailsSpec(queries, search, queries.Keys);
    assert queries == map[] <==> queries.Keys == {};
  }

  /** The state of a searcher: the judgments read so far, per query id. */
  class SearchFiles {
    var relevanceJudgments: map<string, set<string>>

    constructor ()
      ensures relevanceJudgments == map[]
    {
      relevanceJudgments := map[];
    }

    /** Reads the judgment file line by line into the judgment map. */
    method ReadRelevanceJudgments(lines: seq<string>)
      modifies this
      ensures relevanceJudgments == Judgments(old(relevanceJudgments), lines)
    {
      var i := 0;
      while i < |lines|
        invariant 0 <= i <= |lines|
        invariant relevanceJudgments == Judgments(old(relevanceJudgments), lines[..i])
      {
        assert lines[..i + 1][..i] == lines[..i];
        var parts := SplitOnSpaces(lines[i]);
        if |parts| == 3 {
          var queryId := parts[0];
          var docId := parts[1];
          var docs := if queryId in relevanceJudgments then relevanceJudgments[queryId] else {};
          relevanceJudgments := relevanceJudgments[queryId := docs + {docId}];
        }
        i := i + 1;
      }
      assert lines[..i] == lines;
    }

    /** The chain of replacements, in list order, computes the escaping. */
    method EscapeSpecialCharacters(queryString: string) returns (escaped: string)
      ensures escaped == Escape(queryString)
      ensures Unescape(escaped) == queryString
    {
      var specialChars := Specials;
      escaped := queryString;
      EscNothing(queryString);
      var i := 0;
      while i < |specialChars|
        invariant 0 <= i <= |specialChars|
        invariant escaped == Esc(queryString, specialChars[..i])
      {
        var specialChar := specialChars[i];
        EscapeStep(queryString, i);
        escaped := Replace(escaped, specialChar, "\\" + specialChar);
        i := i + 1;
      }
      assert specialChars[..i] == Specials;
      EscapeRoundTrip(queryString);
    }

    /**
      The hits the engine returns for a query text, after trimming and
      escaping it; None when the query parser rejects the escaped text.
    */
    method SearchWithBM25(queryString: string, search: Engine) returns (hits: Option<seq<Document>>)
      ensures hits == search(Escape(Trim(queryString)))
    {
      var escaped := EscapeSpecialCharacters(Trim(queryString));
      hits := search(escaped);
    }

    /**
      Average Precision of the ranked hits for query `queryId`: zero without
      a judgment set or with an empty one, otherwise the precision at each
      relevant rank, summed and divided by the number of relevant documents.
    */
    method EvaluatePrecision(queryId: string, hits: seq<Document>) returns (avgPrecision: real)
      ensures avgPrecision == AveragePrecision(Lookup(relevanceJudgments, queryId), RankedIds(hits, IdField))
    {
      if queryId !in relevanceJudgments || relevanceJudgments[queryId] == {} {
        return 0.0;
      }
      var relevantDocs := relevanceJudgments[queryId];
      ghost var ids := RankedIds(hits, IdField);
      var relevantRetrieved := 0;
      var precisionSum := 0.0;
      var i := 0;
      while i < |hits|
        invariant 0 <= i <= |hits|
        invariant relevantRetrieved == Hits(relevantDocs, ids[..i])
        invariant precisionSum == PrecisionSum(relevantDocs, ids[..i])
      {
        assert ids[..i + 1][..i] == ids[..i];
        var docId := StoredField(hits[i], IdField);
        var isRelevant := docId.Some? && docId.value in relevantDocs;
        if isRelevant {
          relevantRetrieved := relevantRetrieved + 1;
          precisionSum := precisionSum + relevantRetrieved as real / (i + 1) as real;
        }
        i := i + 1;
      }
      assert ids[..i] == ids;
      avgPrecision := precisionSum / |relevantDocs| as real;
    }

    /**
      One turn of calculateMAP's loop: search for the query's text and score
      the hits; None when the query parser rejects the text.
    */
    method ScoreQuery(queries: map<string, string>, search: Engine, queryId: string) returns (ap: Option<real>)
      requires queryId in queries
      ensures ap.None? <==> QueryFails(queries, search, queryId)
      ensures ap.Some? ==> ap.value == QueryScore(relevanceJudgments, queries, search)(queryId)
    {
      var hits := SearchWithBM25(queries[queryId], search);
      if hits.None? {
        return None;
      }
      var avgPrecision := EvaluatePrecision(queryId, hits.value);
      QueryScoreOf(relevanceJudgments, queries, search, queryId);
      ap := Some(avgPrecision);
    }

    /**
      calculateMAP's loop: the total Average Precision over all queries,
      visited in whatever order the map yields them; `failed` when the query
      parser rejects one of them, which ends the loop at once.
    */
    method SumScores(queries: map<string, string>, search: Engine) returns (failed: bool, totalAP: real)
      ensures failed == AnyFails(queries, search, queries.Keys)
      ensures !failed ==> totalAP == SumOver(QueryScore(relevanceJudgments, queries, search), queries.Keys)
    {
      ghost var score := QueryScore(relevanceJudgments, queries, search);
      totalAP := 0.0;
      var remaining := queries.Keys;
      while remaining != {}
        invariant remaining <= queries.Keys
        invariant AnyFails(queries, search, remaining) == AnyFails(queries, search, queries.Keys)
        invariant totalAP + SumOver(score, remaining) == SumOver(score, queries.Keys)
        decreases |remaining|
      {
        var queryId :| queryId in remaining;
        SumOverPick(score, remaining, queryId);
        AnyFailsPick(queries, search, remaining, queryId);
        var ap := ScoreQuery(queries, search, queryId);
        if ap.None? {
          // the ParseException propagates out of the loop
          return true, totalAP;
        }
        totalAP := totalAP + ap.value;
        remaining := remaining - {queryId};
      }
      return false, totalAP;
    }

    /**
      Mean Average Precision over all queries: a query the parser rejects
      ends the computation with `ParseFailed`; with no query the division by
      zero gives `NotANumber`.
    */
    method CalculateMAP(queries: map<string, string>, search: Engine) returns (outcome: MapOutcome)
      ensures outcome == MapOf(relevanceJudgments, queries, search)
    {
      var failed, totalAP := SumScores(queries, search);
      if failed {
        return ParseFailed;
      }
      MapOfParsed(relevanceJudgments, queries, search);
      if |queries| == 0 {
        return NotANumber;
      }
      outcome := Mean(totalAP / |queries| as real);
    }
  }
}
