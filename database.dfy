/** The candidate store (backend/database.py).  The SQLite table is modelled
    as a sequence of rows in rowid order together with the AUTOINCREMENT
    counter; connections, the schema and the clock are not modelled (the
    upload timestamp is an argument).  The `analysis_json` column holds the
    decoded analysis itself: `json.loads(json.dumps(a))` is taken to give `a`
    back. */
module Database {
  import opened Wrappers
  import opened Json
  import Text

  /** `score_to_rating`: a 0-100 score on a 1-5 scale. */
  function ScoreToRating(score: real): (r: int)
    ensures 1 <= r <= 5
    ensures r == 5 <==> score >= 90.0
    ensures r == 4 <==> 75.0 <= score < 90.0
    ensures r == 3 <==> 60.0 <= score < 75.0
    ensures r == 2 <==> 40.0 <= score < 60.0
    ensures r == 1 <==> score < 40.0
  {
    if score >= 90.0 then 5
    else if score >= 75.0 then 4
    else if score >= 60.0 then 3
    else if score >= 40.0 then 2
    else 1
  }

  /** A higher score never gets a lower rating. */
  lemma ScoreToRatingMonotone(a: real, b: real)
    requires a <= b
    ensures ScoreToRating(a) <= ScoreToRating(b)
  {
  }

  /** `analysis.get("overall_match_score", 0)` as `score_to_rating` compares
      it: a missing score counts as 0 and a boolean as 0 or 1; any other
      non-number makes the comparison raise `TypeError`. */
  function OverallScore(analysis: Object): (r: Option<real>)
    ensures "overall_match_score" !in analysis ==> r == Some(0.0)
    ensures "overall_match_score" in analysis && analysis["overall_match_score"].JNumber? ==>
      r == Some(analysis["overall_match_score"].x)
  {
    if "overall_match_score" !in analysis then Some(0.0)
    else
      match analysis["overall_match_score"]
      case JNumber(x) => Some(x)
      case JBool(b) => Some(if b then 1.0 else 0.0)
      case _ => None
  }

  /** A missing score gives the lowest rating. */
  lemma MissingScoreRatesOne(analysis: Object)
    requires "overall_match_score" !in analysis
    ensures OverallScore(analysis).Some? && ScoreToRating(OverallScore(analysis).value) == 1
  {
  }

  /** The `name` column as `analysis.get("candidate_name")` binds it. */
  function NameColumn(analysis: Object): (r: Result<Option<string>, Error>)
    ensures "candidate_name" !in analysis ==> r == Success(None)
    ensures "candidate_name" in analysis && analysis["candidate_name"].JString? ==>
      r == Success(Some(analysis["candidate_name"].s))
  {
    if "candidate_name" !in analysis then Success(None)
    else
      match analysis["candidate_name"]
      case JNull => Success(None)
      case JString(s) => Success(Some(s))
      case _ => Failure(PlainException("Error binding parameter 1: type is not supported"))
  }

  /** One row of the `candidates` table. */
  datatype CandidateRow = CandidateRow(
    id: int,
    name: Option<string>,
    uploadDate: string,
    resumeText: string,
    analysis: Object,
    technicalSkills: int,
    experienceLevel: int,
    educationFit: int,
    communication: int,
    overallFit: int)

  /** The five metric columns are all set from the one overall score. */
  predicate SameRatingEverywhere(row: CandidateRow, rating: int) {
    && row.technicalSkills == rating && row.experienceLevel == rating
    && row.educationFit == rating && row.communication == rating && row.overallFit == rating
  }

  /** The row `add_candidate` inserts under id `id`, or the exception it
      raises. */
  function NewRow(id: int, resumeText: string, analysis: Object, now: string): (r: Result<CandidateRow, Error>)
    ensures r.Success? <==> OverallScore(analysis).Some? && NameColumn(analysis).Success?
    ensures r.Success? ==> && r.value.id == id
                           && r.value.resumeText == resumeText && r.value.analysis == analysis
                           && r.value.uploadDate == now && r.value.name == NameColumn(analysis).value
                           && SameRatingEverywhere(r.value, ScoreToRating(OverallScore(analysis).value))
  {
    match OverallScore(analysis)
    case None =>
      Failure(TypeError("'>=' not supported between instances of a non-number and 'int'"))
    case Some(score) =>
      var rating := ScoreToRating(score);
      match NameColumn(analysis)
      case Failure(e) => Failure(e)
      case Success(name) =>
        Success(CandidateRow(id, name, now, resumeText, analysis,
                             rating, rating, rating, rating, rating))
  }

  function IdsOf(rows: seq<CandidateRow>): set<int> {
    set i | 0 <= i < |rows| :: rows[i].id
  }

  /** The row with the given id, if there is one. */
  function FindRow(rows: seq<CandidateRow>, id: int): (r: Option<CandidateRow>)
    ensures r.None? <==> id !in IdsOf(rows)
    ensures r.Some? ==> r.value.id == id && r.value in rows
    decreases |rows|
  {
    if rows == [] then None
    else if rows[0].id == id then Some(rows[0])
    else
      var r := FindRow(rows[1..], id);
      assert IdsOf(rows) == {rows[0].id} + IdsOf(rows[1..]) by {
        forall x | x in IdsOf(rows) ensures x in {rows[0].id} + IdsOf(rows[1..]) {
          var i :| 0 <= i < |rows| && rows[i].id == x;
          if i > 0 { assert rows[1..][i - 1].id == x; }
        }
      }
      r
  }

  /** The rows whose id differs from `id`, in their order. */
  function WithoutId(rows: seq<CandidateRow>, id: int): (r: seq<CandidateRow>)
    ensures IdsOf(r) == IdsOf(rows) - {id}
    ensures forall x :: x in r ==> x in rows
    ensures |r| <= |rows|
    decreases |rows|
  {
    if rows == [] then []
    else
      var rest := WithoutId(rows[1..], id);
      assert IdsOf(rows) == {rows[0].id} + IdsOf(rows[1..]) by {
        forall x | x in IdsOf(rows) ensures x in {rows[0].id} + IdsOf(rows[1..]) {
          var i :| 0 <= i < |rows| && rows[i].id == x;
          if i > 0 { assert rows[1..][i - 1].id == x; }
        }
      }
      if rows[0].id == id then rest
      else
        assert IdsOf([rows[0]] + rest) == {rows[0].id} + IdsOf(rest) by {
          var r := [rows[0]] + rest;
          forall x | x in IdsOf(r) ensures x in {rows[0].id} + IdsOf(rest) {
            var i :| 0 <= i < |r| && r[i].id == x;
            if i > 0 { assert rest[i - 1].id == x; }
          }
          forall x | x in IdsOf(rest) ensures x in IdsOf(r) {
            var i :| 0 <= i < |rest| && rest[i].id == x;
            assert r[i + 1].id == x;
          }
          assert r[0].id == rows[0].id;
        }
        [rows[0]] + rest
  }

  // ---------------------------------------------------------------------
  // ORDER BY upload_date DESC
  // ---------------------------------------------------------------------

  /** Newest first: upload dates never increase along the sequence. */
  predicate NewestFirst(rows: seq<CandidateRow>) {
    forall i, j :: 0 <= i < j < |rows| ==> Text.StrLe(rows[j].uploadDate, rows[i].uploadDate)
  }

  /** Inserts `row` in front of the first row that is not newer than it. */
  function Insert(row: CandidateRow, rows: seq<CandidateRow>): (r: seq<CandidateRow>)
    ensures multiset(r) == multiset(rows) + multiset{row}
    ensures |r| == |rows| + 1
    decreases |rows|
  {
    if rows == [] || Text.StrLe(rows[0].uploadDate, row.uploadDate) then [row] + rows
    else
      assert rows == [rows[0]] + rows[1..];
      [rows[0]] + Insert(row, rows[1..])
  }

  lemma {:induction false} InsertNewestFirst(row: CandidateRow, rows: seq<CandidateRow>)
    requires NewestFirst(rows)
    ensures NewestFirst(Insert(row, rows))
    decreases |rows|
  {
    if rows == [] || Text.StrLe(rows[0].uploadDate, row.uploadDate) {
      var r := [row] + rows;
      forall i, j | 0 <= i < j < |r| ensures Text.StrLe(r[j].uploadDate, r[i].uploadDate) {
        if i == 0 && j > 1 {
          assert r[j] == rows[j - 1] && NewestFirst(rows);
          assert Text.StrLe(rows[j - 1].uploadDate, rows[0].uploadDate);
          Text.StrLeTransitive(r[j].uploadDate, rows[0].uploadDate, row.uploadDate);
        } else if i > 0 {
          assert r[i] == rows[i - 1] && r[j] == rows[j - 1];
        }
      }
    } else {
      Text.StrLeTotal(rows[0].uploadDate, row.uploadDate);
      InsertNewestFirst(row, rows[1..]);
      var tail := Insert(row, rows[1..]);
      var r := [rows[0]] + tail;
      forall j | 0 <= j < |tail| ensures Text.StrLe(tail[j].uploadDate, rows[0].uploadDate) {
        assert tail[j] in multiset(tail);
        assert tail[j] == row || tail[j] in multiset(rows[1..]);
        if tail[j] != row {
          var k :| 0 <= k < |rows[1..]| && rows[1..][k] == tail[j];
          assert rows[k + 1] == tail[j];
        }
      }
      forall i, j | 0 <= i < j < |r| ensures Text.StrLe(r[j].uploadDate, r[i].uploadDate) {
        if i == 0 {
          assert r[j] == tail[j - 1];
        } else {
          assert r[i] == tail[i - 1] && r[j] == tail[j - 1];
        }
      }
    }
  }

  /** `ORDER BY upload_date DESC`, with rows of equal dates in rowid order. */
  function SortNewestFirst(rows: seq<CandidateRow>): (r: seq<CandidateRow>)
    ensures multiset(r) == multiset(rows)
    ensures |r| == |rows|
    decreases |rows|
  {
    if rows == [] then []
    else
      assert rows == [rows[0]] + rows[1..];
      Insert(rows[0], SortNewestFirst(rows[1..]))
  }

  /** The sort orders newest first. */
  lemma {:induction false} SortIsNewestFirst(rows: seq<CandidateRow>)
    ensures NewestFirst(SortNewestFirst(rows))
    decreases |rows|
  {
    if rows != [] {
      SortIsNewestFirst(rows[1..]);
      InsertNewestFirst(rows[0], SortNewestFirst(rows[1..]));
    }
  }

  // ---------------------------------------------------------------------
  // Results of the listing queries
  // ---------------------------------------------------------------------

  /** A `get_all_candidates` entry: every column but the resume text and the
      analysis. */
  datatype CandidateSummary = CandidateSummary(
    id: int,
    name: Option<string>,
    uploadDate: string,
    technicalSkills: int,
    experienceLevel: int,
    educationFit: int,
    communication: int,
    overallFit: int)

  function Summary(row: CandidateRow): CandidateSummary {
    CandidateSummary(row.id, row.name, row.uploadDate, row.technicalSkills,
                     row.experienceLevel, row.educationFit, row.communication, row.overallFit)
  }

  /** A `get_all_resumes_text` entry. */
  datatype ResumeEntry = ResumeEntry(id: int, name: string, resumeText: string)

  function ResumeOf(row: CandidateRow): ResumeEntry {
    ResumeEntry(row.id, DisplayName(row.name, row.id), row.resumeText)
  }

  const CANDIDATE_LABEL := "Candidate "

  /** `row[1] or f"Candidate {row[0]}"`: a missing or empty name falls back to
      a label built from the id. */
  function DisplayName(name: Option<string>, id: int): (r: string)
    ensures name.Some? && name.value != "" ==> r == name.value
    ensures name.None? || name.value == "" ==> r == CANDIDATE_LABEL + Text.IntToString(id)
    ensures r != ""
  {
    if name.Some? && name.value != "" then name.value else CANDIDATE_LABEL + Text.IntToString(id)
  }

  /** Two unnamed candidates are never listed under the same label. */
  lemma FallbackNamesDistinct(id1: int, id2: int)
    requires id1 != id2
    ensures DisplayName(None, id1) != DisplayName(None, id2)
  {
    Text.IntToStringInjective(id1, id2);
    var a, b := DisplayName(None, id1), DisplayName(None, id2);
    assert a[|CANDIDATE_LABEL|..] == Text.IntToString(id1);
    assert b[|CANDIDATE_LABEL|..] == Text.IntToString(id2);
  }

  /** A cell of the dict `get_candidate_by_id` builds. */
  datatype Cell =
    | IntCell(i: int)
    | TextCell(t: string)
    | NullCell
    /** The JSON text `json.dumps(v)` stored in `analysis_json`. */
    | JsonTextCell(doc: Value)
    /** A decoded JSON value. */
    | JsonCell(v: Value)

  const COLUMNS: set<string> :=
    {"id", "name", "upload_date", "resume_text", "analysis_json", "technical_skills",
     "experience_level", "education_fit", "communication", "overall_fit"}

  /** `dict(zip(columns, row))`. */
  function RowDict(row: CandidateRow): (d: map<string, Cell>)
    ensures d.Keys == COLUMNS
    ensures d["id"] == IntCell(row.id)
    ensures d["analysis_json"] == JsonTextCell(JObject(row.analysis))
  {
    map["id" := IntCell(row.id),
        "name" := if row.name.Some? then TextCell(row.name.value) else NullCell,
        "upload_date" := TextCell(row.uploadDate),
        "resume_text" := TextCell(row.resumeText),
        "analysis_json" := JsonTextCell(JObject(row.analysis)),
        "technical_skills" := IntCell(row.technicalSkills),
        "experience_level" := IntCell(row.experienceLevel),
        "education_fit" := IntCell(row.educationFit),
        "communication" := IntCell(row.communication),
        "overall_fit" := IntCell(row.overallFit)]
  }

  /** The `candidates` table. */
  class CandidateTable {
    /** The rows in rowid order. */
    var rows: seq<CandidateRow>
    /** The AUTOINCREMENT counter: the largest id ever handed out. */
    var lastId: int

    /** Ids are positive, strictly increasing in rowid order, and never above
        the counter. */
    ghost predicate Valid()
      reads this
    {
      && lastId >= 0
      && (forall i :: 0 <= i < |rows| ==> 1 <= rows[i].id <= lastId)
      && (forall i, j :: 0 <= i < j < |rows| ==> rows[i].id < rows[j].id)
    }

    constructor ()
      ensures Valid() && rows == [] && lastId == 0
    {
      rows := [];
      lastId := 0;
    }

    /** `add_candidate`: inserts a row under a fresh id (one above every id
        ever used) and returns that id; on an exception the table is
        unchanged. */
    method AddCandidate(resumeText: string, analysis: Object, now: string) returns (r: Result<int, Error>)
      requires Valid()
      modifies this
      ensures Valid()
      ensures r.Success? <==> NewRow(old(lastId) + 1, resumeText, analysis, now).Success?
      ensures r.Success? ==> && r.value == old(lastId) + 1 && lastId == r.value
                             && r.value !in IdsOf(old(rows))
                             && rows == old(rows) + [NewRow(r.value, resumeText, analysis, now).value]
      ensures r.Failure? ==> rows == old(rows) && lastId == old(lastId)
    {
      var id := lastId + 1;
      var row := NewRow(id, resumeText, analysis, now);
      if row.Failure? {
        return Failure(row.error);
      }
      rows := rows + [row.value];
      lastId := id;
      r := Success(id);
    }

    /** `delete_candidate`: true exactly when a row with that id existed; it
        is gone afterwards and every other row is kept in order. */
    method DeleteCandidate(id: int) returns (deleted: bool)
      requires Valid()
      modifies this
      ensures Valid()
      ensures deleted <==> id in IdsOf(old(rows))
      ensures rows == WithoutId(old(rows), id) && lastId == old(lastId)
      ensures id !in IdsOf(rows) && IdsOf(rows) == IdsOf(old(rows)) - {id}
    {
      deleted := FindRow(rows, id).Some?;
      var kept := WithoutId(rows, id);
      KeepOrderedIds(rows, id);
      assert forall i :: 0 <= i < |kept| ==> kept[i] in rows;
      rows := kept;
    }

    /** `get_candidate_by_id`: None for an unknown id; otherwise the row as a
        dict in which the decoded `analysis` replaces the `analysis_json`
        text. */
    method GetCandidateById(id: int) returns (r: Option<map<string, Cell>>)
      requires Valid()
      ensures r.None? <==> id !in IdsOf(rows)
      ensures r.Some? ==>
        && r.value.Keys == COLUMNS - {"analysis_json"} + {"analysis"}
        && r.value["analysis"] == JsonCell(JObject(FindRow(rows, id).value.analysis))
        && (forall k :: k in r.value && k != "analysis" ==> r.value[k] == RowDict(FindRow(rows, id).value)[k])
        && r.value["id"] == IntCell(id)
    {
      var found := FindRow(rows, id);
      if found.None? {
        return None;
      }
      ghost var d := RowDict(found.value);
      var candidate := RowDict(found.value);
      candidate := candidate["analysis" := JsonCell(candidate["analysis_json"].doc)];
      candidate := candidate - {"analysis_json"};
      assert "analysis" !in COLUMNS && "id" != "analysis";
      r := Some(candidate);
    }

    /** `get_all_candidates`: one summary per row, newest first. */
    method GetAllCandidates() returns (candidates: seq<CandidateSummary>)
      requires Valid()
      ensures |candidates| == |rows|
      ensures forall i :: 0 <= i < |candidates| ==> candidates[i] == Summary(SortNewestFirst(rows)[i])
      ensures forall i, j :: 0 <= i < j < |candidates| ==>
                Text.StrLe(candidates[j].uploadDate, candidates[i].uploadDate)
    {
      var sorted := SortNewestFirst(rows);
      SortIsNewestFirst(rows);
      candidates := [];
      var k := 0;
      while k < |sorted|
        invariant 0 <= k <= |sorted|
        invariant |candidates| == k
        invariant forall i :: 0 <= i < k ==> candidates[i] == Summary(sorted[i])
      {
        candidates := candidates + [Summary(sorted[k])];
        k := k + 1;
      }
    }

    /** `get_all_resumes_text`: id, name (with the fallback label) and resume
        text of every row, newest first. */
    method GetAllResumesText() returns (resumes: seq<ResumeEntry>)
      requires Valid()
      ensures |resumes| == |rows|
      ensures forall i :: 0 <= i < |resumes| ==> resumes[i] == ResumeOf(SortNewestFirst(rows)[i])
      ensures forall i :: 0 <= i < |resumes| ==> resumes[i].name != ""
    {
      var sorted := SortNewestFirst(rows);
      resumes := [];
      var k := 0;
      while k < |sorted|
        invariant 0 <= k <= |sorted|
        invariant |resumes| == k
        invariant forall i :: 0 <= i < k ==> resumes[i] == ResumeOf(sorted[i])
      {
        var row := sorted[k];
        resumes := resumes + [ResumeEntry(row.id, DisplayName(row.name, row.id), row.resumeText)];
        k := k + 1;
      }
    }
  }

  /** Dropping rows keeps the ids of the remaining ones increasing and within
      bounds. */
  lemma {:induction false} KeepOrderedIds(rows: seq<CandidateRow>, id: int)
    requires forall i, j :: 0 <= i < j < |rows| ==> rows[i].id < rows[j].id
    ensures forall i, j :: 0 <= i < j < |WithoutId(rows, id)| ==>
              WithoutId(rows, id)[i].id < WithoutId(rows, id)[j].id
    decreases |rows|
  {
    if rows != [] {
      KeepOrderedIds(rows[1..], id);
      var rest := WithoutId(rows[1..], id);
      forall x | x in rest ensures rows[0].id < x.id {
        assert x in rows[1..];
        var k :| 0 <= k < |rows[1..]| && rows[1..][k] == x;
        assert rows[k + 1] == x;
      }
      if rows[0].id != id {
        var r := [rows[0]] + rest;
        forall i, j | 0 <= i < j < |r| ensures r[i].id < r[j].id {
          assert r[j] == rest[j - 1];
          if i > 0 { assert r[i] == rest[i - 1]; }
          else { assert r[j] in rest; }
        }
      }
    }
  }
}
