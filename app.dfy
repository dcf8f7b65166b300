/**
 The row processing of the election-results page (src/App.tsx): turning the
 fetched string rows into typed rows, the two drop-down option lists, and the
 Search button that narrows the loaded rows by candidate and race name.
 */
module App {
  import opened Js
  import opened Seqs
  import opened Util

  // ===========================================================================
  // Rows
  // ===========================================================================

  /** A row as fetched: every key holds a string. */
  datatype RawRow = RawRow(
    cid: string, cnm: string, vfr: string, gid: string, lid: string,
    bnm: string, dtx: string, pty: string, vct: string, pct: string,
    prt: string, ptl: string, evc: string, ovc: string, avc: string,
    pvc: string, col: string, ogl: string, ref: string)

  /**
   A typed row. Integer fields hold the outcome of `parseInt`, `None` being
   NaN; `pct` keeps its text.
   */
  datatype ElectionDataRow = ElectionDataRow(
    cid: Option<int>, cnm: string, vfr: Option<int>, gid: Option<int>, lid: Option<int>,
    bnm: string, dtx: string, pty: string, vct: Option<int>, pct: string,
    prt: Option<int>, ptl: Option<int>, evc: Option<int>, ovc: Option<int>, avc: Option<int>,
    pvc: Option<int>, col: string, ogl: string, ref: Option<int>)

  /** The race name shown for a raw contest name. */
  function RaceName(cnm: string): string {
    DeleteWithinParens(Titlecase(cnm))
  }

  function ParseRow(row: RawRow): ElectionDataRow {
    ElectionDataRow(
      ParseInt(row.cid), RaceName(row.cnm), ParseInt(row.vfr), ParseInt(row.gid), ParseInt(row.lid),
      row.bnm, row.dtx, row.pty, ParseInt(row.vct), row.pct,
      ParseInt(row.prt), ParseInt(row.ptl), ParseInt(row.evc), ParseInt(row.ovc), ParseInt(row.avc),
      ParseInt(row.pvc), row.col, row.ogl, ParseInt(row.ref))
  }

  /** `parseData`: one typed row per raw row, in the same order. */
  function ParseData(data: seq<RawRow>): (rows: seq<ElectionDataRow>)
    ensures |rows| == |data|
    ensures forall i :: 0 <= i < |data| ==> rows[i] == ParseRow(data[i])
  {
    if data == [] then []
    else [ParseRow(data[0])] + ParseData(data[1..])
  }

  /**
   Each parsed row copies the text fields of its raw row, and its race name is
   the titled contest name with characters deleted, no `(` of it followed by a `)`.
   */
  lemma ParsedRowFields(data: seq<RawRow>, i: nat)
    requires i < |data|
    ensures var r := ParseData(data)[i];
      r.bnm == data[i].bnm && r.dtx == data[i].dtx && r.pty == data[i].pty &&
      r.col == data[i].col && r.ogl == data[i].ogl && r.pct == data[i].pct &&
      IsSubsequence(r.cnm, Titlecase(data[i].cnm)) && !HasClosedParen(r.cnm)
  {
    DeleteWithinParensSubsequence(Titlecase(data[i].cnm));
    DeleteLeavesNoClosedParen(Titlecase(data[i].cnm));
  }

  /** Parsing the concatenated pages is concatenating the parsed pages. */
  lemma {:induction false} ParseDataConcat(a: seq<RawRow>, b: seq<RawRow>)
    ensures ParseData(a + b) == ParseData(a) + ParseData(b)
  {
    if a == [] {
      assert a + b == b;
    } else {
      ConsAppend(a, b);
      ParseDataConcat(a[1..], b);
    }
  }

  /** The sample row kept as a comment at the end of src/App.tsx. */
  function SampleRow(): RawRow {
    RawRow("0", "CITY OF DURHAM MAYOR (VOTE FOR 1)", "1", "320005", "320005",
      "Anjanee Bell", "", " ", "19290", "0.4205",
      "61", "61", "13180", "5687", "142",
      "281", "FA6900", "CCL", "0")
  }

  lemma SampleRaceTokensHead()
    ensures TitleToken("CITY") == "City" && TitleToken("OF") == "Of" && TitleToken("DURHAM") == "Durham"
  {
    assert Lower("ITY") == "ity";
    assert Lower("F") == "f";
    assert Lower("URHAM") == "urham";
  }

  lemma SampleRaceTokensTail()
    ensures TitleToken("MAYOR") == "Mayor" && TitleToken("(VOTE") == "(vote"
    ensures TitleToken("FOR") == "For" && TitleToken("1)") == "1)"
  {
    assert Lower("AYOR") == "ayor";
    assert Lower("VOTE") == "vote";
    assert Lower("OR") == "or";
    assert Lower(")") == ")";
  }

  lemma SampleRaceText()
    ensures "CITY OF DURHAM MAYOR (VOTE FOR 1)" ==
      "CITY" + (" " + ("OF" + (" " + ("DURHAM" + (" " + ("MAYOR" + (" " + ("(VOTE" + (" " + ("FOR" + (" " + "1)")))))))))))
  {
  }

  lemma SampleTitledText()
    ensures "City" + (" " + ("Of" + (" " + ("Durham" + (" " + ("Mayor" + (" " + ("(vote" + (" " + ("For" + (" " + "1)"))))))))))) ==
      "City Of Durham Mayor" + (" " + ("(" + ("vote For 1" + (")" + ("" + "")))))
  {
  }

  lemma SampleNoteTitlecase(t: string)
    requires t == "(VOTE" + (" " + ("FOR" + (" " + "1)")))
    ensures Titlecase(t) == "(vote" + (" " + ("For" + (" " + "1)")))
  {
    var s6 := "1)";
    var s5 := "FOR" + (" " + s6);
    assert NoWhiteSpace("(VOTE") && NoWhiteSpace("FOR") && NoWhiteSpace("1)");
    TitlecaseWord(s6);
    TitlecaseCons("FOR", s6);
    TitlecaseCons("(VOTE", s5);
    SampleRaceTokensTail();
  }

  lemma SampleRaceTitlecaseOf(raw: string, t: string)
    requires t == "(VOTE" + (" " + ("FOR" + (" " + "1)")))
    requires raw == "CITY" + (" " + ("OF" + (" " + ("DURHAM" + (" " + ("MAYOR" + (" " + t)))))))
    ensures Titlecase(raw) ==
      "City" + (" " + ("Of" + (" " + ("Durham" + (" " + ("Mayor" + (" " + ("(vote" + (" " + ("For" + (" " + "1)")))))))))))
  {
    var s3 := "MAYOR" + (" " + t);
    var s2 := "DURHAM" + (" " + s3);
    var s1 := "OF" + (" " + s2);
    assert NoWhiteSpace("CITY") && NoWhiteSpace("OF") && NoWhiteSpace("DURHAM") && NoWhiteSpace("MAYOR");
    SampleNoteTitlecase(t);
    TitlecaseCons("MAYOR", t);
    TitlecaseCons("DURHAM", s3);
    TitlecaseCons("OF", s2);
    TitlecaseCons("CITY", s1);
    SampleRaceTokensHead();
    SampleRaceTokensTail();
  }

  lemma SampleTitledLiteral()
    ensures "City Of Durham Mayor (vote For 1)" ==
      "City Of Durham Mayor" + (" " + ("(" + ("vote For 1" + (")" + ("" + "")))))
  {
  }

  /** The sample contest name, titled word by word: "(VOTE" becomes "(vote". */
  lemma SampleRaceTitlecase()
    ensures Titlecase("CITY OF DURHAM MAYOR (VOTE FOR 1)") == "City Of Durham Mayor (vote For 1)"
  {
    SampleRaceText();
    SampleRaceTitlecaseOf("CITY OF DURHAM MAYOR (VOTE FOR 1)", "(VOTE FOR 1)");
    SampleTitledText();
    SampleTitledLiteral();
  }

  lemma SampleDeleteNoteOf(titled: string)
    requires titled == "City Of Durham Mayor" + (" " + ("(" + ("vote For 1" + (")" + ("" + "")))))
    ensures DeleteWithinParens(titled) == "City Of Durham Mayor"
  {
    var a := "City Of Durham Mayor";
    DeleteFirstSpan(a, " ", "vote For 1", "", "");
    assert a + [] == a;
  }

  /** The parenthesised note and the space before it are deleted from the titled sample. */
  lemma SampleDeleteNote()
    ensures DeleteWithinParens("City Of Durham Mayor (vote For 1)") == "City Of Durham Mayor"
  {
    SampleTitledLiteral();
    SampleDeleteNoteOf("City Of Durham Mayor (vote For 1)");
  }

  /** The sample contest name loses its parenthesised note and keeps a capital "Of". */
  lemma SampleRaceName()
    ensures RaceName("CITY OF DURHAM MAYOR (VOTE FOR 1)") == "City Of Durham Mayor"
  {
    SampleRaceTitlecase();
    SampleDeleteNote();
  }

  lemma SampleVoteValue()
    ensures Value("19290", 10) == 19290
  {
    assert "19290"[..4] == "1929" && "1929"[..3] == "192" && "192"[..2] == "19";
    assert "19"[..1] == "1" && "1"[..0] == [];
    assert Value("1", 10) == 1;
    assert Value("19", 10) == 19;
    assert Value("192", 10) == 192;
    assert Value("1929", 10) == 1929;
  }

  lemma SampleCounts()
    ensures ParseInt("19290").Some? && ParseInt("19290").value == 19290
    ensures ParseInt("0").Some? && ParseInt("0").value == 0
  {
    assert "19290" + [] == "19290";
    ParseIntLeadingDigits("19290", []);
    SampleVoteValue();
    assert "0" + [] == "0";
    ParseIntLeadingDigits("0", []);
  }

  /** The sample row parses to the race "City Of Durham Mayor" with 19290 votes. */
  lemma ParseSampleRow()
    ensures var r := ParseData([SampleRow()])[0];
      r.cnm == "City Of Durham Mayor" && r.bnm == "Anjanee Bell" && r.pct == "0.4205" &&
      r.vct.Some? && r.vct.value == 19290 && r.cid.Some? && r.cid.value == 0
  {
    SampleRaceName();
    SampleCounts();
  }

  // ===========================================================================
  // Search
  // ===========================================================================

  /** A query that is absent or trims to nothing filters nothing. */
  predicate Blank(q: Option<string>) {
    q.None? || Trim(q.value) == []
  }

  /** Case-insensitive substring test of a row field against a query. */
  predicate Matches(field: string, query: string) {
    Includes(Lower(field), Lower(Trim(query)))
  }

  predicate Keep(row: ElectionDataRow, candidate: Option<string>, election: Option<string>) {
    (Blank(candidate) || Matches(row.bnm, candidate.value)) &&
    (Blank(election) || Matches(row.cnm, election.value))
  }

  function KeepRow(candidate: Option<string>, election: Option<string>): ElectionDataRow -> bool {
    (row: ElectionDataRow) => Keep(row, candidate, election)
  }

  function BnmMatches(query: string): ElectionDataRow -> bool {
    (row: ElectionDataRow) => Matches(row.bnm, query)
  }

  function CnmMatches(query: string): ElectionDataRow -> bool {
    (row: ElectionDataRow) => Matches(row.cnm, query)
  }

  /** The rows a search keeps: an order-preserving selection of the loaded rows. */
  function SearchResult(rows: seq<ElectionDataRow>, candidate: Option<string>, election: Option<string>)
    : (r: seq<ElectionDataRow>)
    ensures IsSubsequence(r, rows)
    ensures forall i :: 0 <= i < |r| ==> Keep(r[i], candidate, election)
  {
    Filter(rows, KeepRow(candidate, election))
  }

  /** A row is in the result exactly when it is loaded and passes both queries. */
  lemma SearchMembership(rows: seq<ElectionDataRow>, candidate: Option<string>, election: Option<string>,
                         x: ElectionDataRow)
    ensures x in SearchResult(rows, candidate, election) <==> x in rows && Keep(x, candidate, election)
  {
    FilterMembership(rows, KeepRow(candidate, election), x);
  }

  /** With both queries blank every loaded row is shown. */
  lemma SearchBlankQueries(rows: seq<ElectionDataRow>, candidate: Option<string>, election: Option<string>)
    requires Blank(candidate) && Blank(election)
    ensures SearchResult(rows, candidate, election) == rows
  {
    FilterKeepsAll(rows, KeepRow(candidate, election));
  }

  /** Searching the result again with the same queries changes nothing. */
  lemma SearchIdempotent(rows: seq<ElectionDataRow>, candidate: Option<string>, election: Option<string>)
    ensures SearchResult(SearchResult(rows, candidate, election), candidate, election) ==
      SearchResult(rows, candidate, election)
  {
    FilterIdempotent(rows, KeepRow(candidate, election));
  }

  /** A field matches any query that trims to the field's own trimmed text. */
  lemma MatchesOwnText(field: string, query: string)
    requires Trim(query) == Trim(field)
    ensures Matches(field, query)
  {
    var i, t := WhiteSpaceRun(field), Trim(field);
    assert t == field[i..i + |t|];
    LowerSlice(field, i, i + |t|);
    IncludesSlice(Lower(field), i, i + |t|);
    assert Lower(Trim(query)) == Lower(field)[i..i + |t|];
  }

  // ===========================================================================
  // Option lists
  // ===========================================================================

  const Miscellaneous: string := "(Miscellaneous)"
  const WriteIn: string := "(Write-In)"

  /** A candidate name without its "(Miscellaneous)" and "(Write-In)" markers, trimmed. */
  function CleanName(bnm: string): (name: string)
    ensures |name| <= |bnm|
    ensures name == [] || (!IsWhiteSpace(name[0]) && !IsWhiteSpace(name[|name| - 1]))
  {
    var withoutMisc := ReplaceAll(bnm, Miscellaneous, []);
    DeleteAllUnchanged(bnm, Miscellaneous);
    DeleteAllUnchanged(withoutMisc, WriteIn);
    Trim(ReplaceAll(withoutMisc, WriteIn, []))
  }

  /** A name carrying neither marker is only trimmed. */
  lemma CleanNameUnmarked(bnm: string)
    requires !Includes(bnm, Miscellaneous) && !Includes(bnm, WriteIn)
    ensures CleanName(bnm) == Trim(bnm)
  {
    DeleteAllUnchanged(bnm, Miscellaneous);
    DeleteAllUnchanged(bnm, WriteIn);
  }

  /** A trailing "(Write-In)" marker is removed, and the name before it is trimmed. */
  lemma CleanNameWriteIn(name: string)
    requires '(' !in name
    ensures CleanName(name + WriteIn) == Trim(name)
  {
    assert Miscellaneous[0] == '(' && WriteIn[0] == '(';
    IncludesLonger(WriteIn, Miscellaneous);
    DeleteAllUnchanged(WriteIn, Miscellaneous);
    ReplaceAllKeepsPrefix(name, WriteIn, Miscellaneous, []);
    ReplaceAllKeepsPrefix(name, WriteIn, WriteIn, []);
    ReplaceAllAtPattern([], WriteIn, []);
    assert WriteIn + [] == WriteIn;
    assert name + [] == name;
  }

  /** A trailing "(Miscellaneous)" marker is removed, and the name before it is trimmed. */
  lemma CleanNameMiscellaneous(name: string)
    requires '(' !in name
    ensures CleanName(name + Miscellaneous) == Trim(name)
  {
    assert Miscellaneous[0] == '(' && WriteIn[0] == '(';
    ReplaceAllKeepsPrefix(name, Miscellaneous, Miscellaneous, []);
    ReplaceAllAtPattern([], Miscellaneous, []);
    assert Miscellaneous + [] == Miscellaneous;
    assert name + [] == name;
    ReplaceAllKeepsPrefix(name, [], WriteIn, []);
  }

  function CandidateNames(rows: seq<ElectionDataRow>): (names: seq<string>)
    ensures |names| == |rows|
    ensures forall i :: 0 <= i < |rows| ==> names[i] == CleanName(rows[i].bnm)
  {
    if rows == [] then [] else [CleanName(rows[0].bnm)] + CandidateNames(rows[1..])
  }

  function RaceNames(rows: seq<ElectionDataRow>): (names: seq<string>)
    ensures |names| == |rows|
    ensures forall i :: 0 <= i < |rows| ==> names[i] == rows[i].cnm
  {
    if rows == [] then [] else [rows[0].cnm] + RaceNames(rows[1..])
  }

  /** What the page holds: nothing yet (the flag `true`), or the parsed rows. */
  datatype LoadState = Loading | Loaded(rows: seq<ElectionDataRow>)

  /**
   The candidate drop-down: empty while loading, otherwise every row's cleaned
   name once, in the order the names first appear.
   */
  function CandidateOptions(state: LoadState): (opts: seq<string>)
    ensures state.Loading? ==> opts == []
    ensures state.Loaded? ==>
      NoDuplicates(opts) && InFirstSeenOrder(opts, CandidateNames(state.rows)) &&
      (forall i :: 0 <= i < |state.rows| ==> CleanName(state.rows[i].bnm) in opts) &&
      (forall o :: o in opts ==> exists i :: 0 <= i < |state.rows| && o == CleanName(state.rows[i].bnm))
  {
    match state
    case Loading => []
    case Loaded(rows) =>
      Distinct(CandidateNames(rows))
  }

  /** The race drop-down: empty while loading, otherwise every race name once, first seen first. */
  function RaceOptions(state: LoadState): (opts: seq<string>)
    ensures state.Loading? ==> opts == []
    ensures state.Loaded? ==>
      NoDuplicates(opts) && InFirstSeenOrder(opts, RaceNames(state.rows)) &&
      (forall i :: 0 <= i < |state.rows| ==> state.rows[i].cnm in opts) &&
      (forall o :: o in opts ==> exists i :: 0 <= i < |state.rows| && o == state.rows[i].cnm)
  {
    match state
    case Loading => []
    case Loaded(rows) =>
      Distinct(RaceNames(rows))
  }

  /** Picking a race from its drop-down finds every row of that race. */
  lemma RaceOptionSelectsRows(rows: seq<ElectionDataRow>, candidate: Option<string>, x: ElectionDataRow)
    requires x in rows && (Blank(candidate) || Matches(x.bnm, candidate.value))
    ensures x.cnm in RaceOptions(Loaded(rows))
    ensures x in SearchResult(rows, candidate, Some(x.cnm))
  {
    MatchesOwnText(x.cnm, x.cnm);
    SearchMembership(rows, candidate, Some(x.cnm), x);
  }

  /** Every race option selects at least one row. */
  lemma RaceOptionNonEmpty(rows: seq<ElectionDataRow>, o: string)
    requires o in RaceOptions(Loaded(rows))
    ensures SearchResult(rows, None, Some(o)) != []
  {
    var i :| 0 <= i < |rows| && o == rows[i].cnm;
    RaceOptionSelectsRows(rows, None, rows[i]);
  }

  /** Picking a candidate whose name carries no marker finds every row of that candidate. */
  lemma CandidateOptionSelectsRows(rows: seq<ElectionDataRow>, election: Option<string>, x: ElectionDataRow)
    requires x in rows && (Blank(election) || Matches(x.cnm, election.value))
    requires !Includes(x.bnm, Miscellaneous) && !Includes(x.bnm, WriteIn)
    ensures CleanName(x.bnm) in CandidateOptions(Loaded(rows))
    ensures x in SearchResult(rows, Some(CleanName(x.bnm)), election)
  {
    CleanNameUnmarked(x.bnm);
    TrimIdempotent(x.bnm);
    MatchesOwnText(x.bnm, CleanName(x.bnm));
    SearchMembership(rows, Some(CleanName(x.bnm)), election, x);
  }

  // ===========================================================================
  // The page component
  // ===========================================================================

  /** The state of the page component and the handlers that change it. */
  class Page {
    var isLoading: LoadState
    var candidateSearch: Option<string>
    var electionSearch: Option<string>
    var results: Option<seq<ElectionDataRow>>

    constructor ()
      ensures isLoading == Loading
      ensures candidateSearch == None && electionSearch == None && results == None
    {
      isLoading := Loading;
      candidateSearch := None;
      electionSearch := None;
      results := None;
    }

    /** The fetched rows arrive and are parsed. */
    method DataLoaded(data: seq<RawRow>)
      modifies this`isLoading
      ensures isLoading == Loaded(ParseData(data))
    {
      isLoading := Loaded(ParseData(data));
    }

    /** The candidate drop-down changes (`None` when cleared). */
    method SetCandidateSearch(candidate: Option<string>)
      modifies this`candidateSearch
      ensures candidateSearch == candidate
    {
      candidateSearch := candidate;
    }

    /** The race drop-down changes (`None` when cleared). */
    method SetElectionSearch(election: Option<string>)
      modifies this`electionSearch
      ensures electionSearch == election
    {
      electionSearch := election;
    }

    /**
     The Search button: while loading nothing happens; otherwise the loaded
     rows are narrowed by the candidate query and then by the race query.
     */
    method Search()
      modifies this`results
      ensures isLoading.Loading? ==> results == old(results)
      ensures isLoading.Loaded? ==> results == Some(SearchResult(isLoading.rows, candidateSearch, electionSearch))
    {
      if isLoading.Loading? {
        return;
      }
      var rows, candidate, election := isLoading.rows, candidateSearch, electionSearch;
      var res := rows;
      if !Blank(candidate) {
        res := Filter(res, BnmMatches(candidate.value));
      }
      if !Blank(election) {
        res := Filter(res, CnmMatches(election.value));
      }
      var keep := KeepRow(candidate, election);
      if Blank(candidate) && Blank(election) {
        FilterKeepsAll(rows, keep);
      } else if Blank(election) {
        FilterSame(rows, BnmMatches(candidate.value), keep);
      } else if Blank(candidate) {
        FilterSame(rows, CnmMatches(election.value), keep);
      } else {
        FilterFilter(rows, BnmMatches(candidate.value), CnmMatches(election.value), keep);
      }
      results := Some(res);
    }
  }
}
