/** The exam catalog listing: retired exams and exams of the old
    programmes are removed from the catalog, then one line is shown per
    remaining exam. */
module FetchExams {
  import opened Json
  import opened Text
  import opened Seqs

  /** The exam codes known to be retired. */
  const RetiredExams: set<string> := {
      "70-333", "70-334", "70-339", "70-345", "70-357", "70-410", "70-411", "70-412", "70-413",
      "70-414", "70-417", "70-461", "70-462", "70-463", "70-464", "70-465", "70-466", "70-467",
      "70-480", "70-483", "70-486", "70-487", "70-537", "70-705", "70-740", "70-741", "70-742",
      "70-743", "70-744", "70-745", "70-761", "70-762", "70-764", "70-765", "70-767", "70-768",
      "70-777", "70-778", "70-779", "70-797", "77-601", "77-602", "77-881", "77-882", "77-883",
      "77-884", "77-885", "77-887", "77-888", "98-349", "98-361", "98-364", "98-365", "98-366",
      "98-367", "98-368", "98-375", "98-381", "98-382", "98-383", "98-388", "AI-100", "AZ-100",
      "AZ-101", "AZ-102", "AZ-103", "AZ-200", "AZ-201", "AZ-202", "AZ-203", "AZ-220", "AZ-300",
      "AZ-301", "AZ-302", "AZ-303", "AZ-304", "AZ-600", "AZ-720", "DA-100", "DP-200", "DP-201",
      "MB-200", "MB-210", "MB-220", "MB-300", "MB-320", "MB-340", "MB-400", "MB-600", "MB-900",
      "MB-901", "MB2-716", "MB6-894", "MB6-897", "MB6-898", "MD-100", "MD-101", "MS-100", "MS-101",
      "MS-200", "MS-201", "MS-202", "MS-203", "MS-220", "MS-300", "MS-301", "MS-302", "MS-500",
      "MS-600", "MS-720", "MS-740", "DU-mmy"
    }

  /** Code prefixes of whole programmes that are excluded. */
  const Prefixes: seq<string> := ["MB6", "98", "77", "MO"]

  /** `exam.get("display_name")` when it is a string. */
  function DisplayName(exam: Json): Option<string>
  {
    match Get(exam, "display_name")
    case Some(JStr(s)) => Some(s)
    case _ => None
  }

  /** An exam is kept unless its code is one of `retired` or starts with one
      of `prefixes`; an exam without a code is kept. The script applies it
      with RetiredExams and Prefixes. */
  predicate Keep(exam: Json, retired: set<string>, prefixes: seq<string>)
  {
    match DisplayName(exam)
    case None => true
    case Some(code) =>
      code !in retired && forall k :: 0 <= k < |prefixes| ==> !StartsWith(code, prefixes[k])
  }

  /** `catalog.get("exams", [])`. */
  function CatalogExams(catalog: Json): seq<Json>
  {
    match Get(catalog, "exams")
    case Some(JArr(items)) => items
    case _ => []
  }

  /** The filtering comprehension: the exams that are kept, in catalog order. */
  function FilterExams(exams: seq<Json>, retired: set<string>, prefixes: seq<string>): (kept: seq<Json>)
    ensures |kept| <= |exams|
    ensures forall e :: e in kept ==> Keep(e, retired, prefixes)
  {
    if exams == [] then []
    else
      var n := |exams| - 1;
      var front := FilterExams(exams[..n], retired, prefixes);
      if Keep(exams[n], retired, prefixes) then front + [exams[n]] else front
  }

  /** The kept exams are picked out of the catalog at increasing positions,
      and the positions picked are exactly those of the exams that are kept. */
  lemma {:induction false} FilterExamsSubsequence(exams: seq<Json>, retired: set<string>, prefixes: seq<string>)
    returns (idx: seq<nat>)
    ensures Increasing(idx, |exams|)
    ensures |idx| == |FilterExams(exams, retired, prefixes)|
    ensures forall k :: 0 <= k < |idx| ==> FilterExams(exams, retired, prefixes)[k] == exams[idx[k]]
    ensures forall i :: 0 <= i < |exams| ==> (i in idx <==> Keep(exams[i], retired, prefixes))
  {
    if exams == [] {
      idx := [];
    } else {
      var n := |exams| - 1;
      var front := exams[..n];
      var fidx := FilterExamsSubsequence(front, retired, prefixes);
      var kept := FilterExams(exams, retired, prefixes);
      var fkept := FilterExams(front, retired, prefixes);
      if Keep(exams[n], retired, prefixes) {
        idx := fidx + [n];
        assert kept == fkept + [exams[n]];
        IncreasingSnoc(fidx, n);
      } else {
        idx := fidx;
        assert kept == fkept;
        IncreasingWiden(fidx, n);
      }
      forall k | 0 <= k < |idx| ensures kept[k] == exams[idx[k]] {
        if k < |fidx| {
          assert idx[k] == fidx[k] && kept[k] == fkept[k] && front[fidx[k]] == exams[fidx[k]];
        }
      }
      forall i | 0 <= i < n ensures i in idx <==> Keep(exams[i], retired, prefixes) {
        assert front[i] == exams[i];
        assert i in idx <==> i in fidx;
      }
    }
  }

  /** Filtering twice removes nothing more. */
  lemma {:induction false} FilterExamsIdempotent(exams: seq<Json>, retired: set<string>, prefixes: seq<string>)
    ensures FilterExams(FilterExams(exams, retired, prefixes), retired, prefixes)
            == FilterExams(exams, retired, prefixes)
  {
    if exams != [] {
      var n := |exams| - 1;
      FilterExamsIdempotent(exams[..n], retired, prefixes);
      var kept := FilterExams(exams, retired, prefixes);
      if Keep(exams[n], retired, prefixes) {
        assert kept[..|kept| - 1] == FilterExams(exams[..n], retired, prefixes);
      }
    }
  }

  /** `catalog['exams'] = [...]`: the catalog with its exam list replaced by
      the kept exams and every other member unchanged. */
  function FilterCatalog(catalog: Json): (r: Json)
    requires catalog.JObj?
    ensures r.JObj?
    ensures Get(r, "exams") == Some(JArr(FilterExams(CatalogExams(catalog), RetiredExams, Prefixes)))
    ensures forall k :: k != "exams" ==> Get(r, k) == Get(catalog, k)
  {
    JObj(SetMember(catalog.fields, "exams", JArr(FilterExams(CatalogExams(catalog), RetiredExams, Prefixes))))
  }

  /** The text of `exam.get(key)` in an f-string: "None" when absent. */
  function Shown(exam: Json, key: string, show: Json -> string): string
  {
    match Get(exam, key)
    case None => "None"
    case Some(v) => PyStr(v, show)
  }

  /** The pieces `", ".join` receives from `exam.get("levels", [])`: the
      strings of a list, the characters of a string, the keys of an object;
      None when `join` would fail, for a list holding a non-string or a value
      that cannot be iterated. */
  function Levels(exam: Json): Option<seq<string>>
  {
    match Get(exam, "levels")
    case None => Some([])
    case Some(JArr(items)) =>
      if forall i :: 0 <= i < |items| ==> items[i].JStr?
      then Some(seq(|items|, i requires 0 <= i < |items| && items[i].JStr? => items[i].s))
      else None
    case Some(JStr(s)) => Some(seq(|s|, i requires 0 <= i < |s| => [s[i]]))
    case Some(JObj(fields)) => Some(Keys(fields))
    case _ => None
  }

  /** The line shown for one exam, None when its levels cannot be joined. */
  function Row(exam: Json, show: Json -> string): Option<string>
  {
    match Levels(exam)
    case None => None
    case Some(levels) =>
      Some(Shown(exam, "display_name", show) + " | " + Shown(exam, "title", show) + " | "
           + JoinWith(", ", levels))
  }

  /** The lines shown for a list of exams: one per exam, in order, up to the
      first exam whose levels cannot be joined, where the listing stops. */
  function Rows(exams: seq<Json>, show: Json -> string): seq<string>
  {
    if exams == [] then []
    else
      match Row(exams[0], show)
      case None => []
      case Some(line) => [line] + Rows(exams[1..], show)
  }

  /** The listing holds the line of each exam, in order, up to the first
      exam whose levels cannot be joined, and nothing from it on. */
  lemma {:induction false} RowsUpToFailure(exams: seq<Json>, show: Json -> string)
    ensures |Rows(exams, show)| <= |exams|
    ensures forall i :: 0 <= i < |Rows(exams, show)| ==> Row(exams[i], show) == Some(Rows(exams, show)[i])
    ensures |Rows(exams, show)| < |exams| ==> Row(exams[|Rows(exams, show)|], show).None?
  {
    if exams != [] && Row(exams[0], show).Some? {
      var rest := exams[1..];
      RowsUpToFailure(rest, show);
      var r := Rows(exams, show);
      assert r == [Row(exams[0], show).value] + Rows(rest, show);
      forall i | 1 <= i < |r| ensures Row(exams[i], show) == Some(r[i]) {
        assert exams[i] == rest[i - 1];
      }
      if |r| < |exams| {
        assert exams[|r|] == rest[|r| - 1];
      }
    }
  }

  /** An exam with no code, title or levels is shown as "None | None | ". */
  lemma EmptyExamRow(show: Json -> string)
    ensures Row(JObj([]), show) == Some("None | None | ")
  {
    var exam := JObj([]);
    assert Levels(exam) == Some([]);
    assert Shown(exam, "display_name", show) == "None" && Shown(exam, "title", show) == "None";
    assert JoinWith(", ", []) == "";
    assert "None" + " | " + "None" + " | " + "" == "None | None | ";
  }

  /** What the script removes: a retired code, a code of an excluded
      programme; what it keeps: an exam without a code. */
  lemma KeepExamples()
    ensures !Keep(JObj([("display_name", JStr("MS-100"))]), RetiredExams, Prefixes)
    ensures !Keep(JObj([("display_name", JStr("MO-200"))]), RetiredExams, Prefixes)
    ensures Keep(JObj([("title", JStr("x"))]), RetiredExams, Prefixes)
  {
    assert DisplayName(JObj([("display_name", JStr("MO-200"))])) == Some("MO-200");
    assert StartsWith("MO-200", Prefixes[3]);
    assert DisplayName(JObj([("title", JStr("x"))])) == None;
  }

  /** One step of the listing: the lines for the exams from position `i`
      on are the line for exam `i` followed by those after it, or none when
      exam `i` stops the listing. */
  lemma RowsFrom(exams: seq<Json>, i: nat, show: Json -> string)
    requires i < |exams|
    ensures Rows(exams[i..], show) ==
              match Row(exams[i], show)
              case None => []
              case Some(line) => [line] + Rows(exams[i + 1..], show)
  {
    assert exams[i..][0] == exams[i] && exams[i..][1..] == exams[i + 1..];
  }

  /** The printing loop over `catalog.get("exams", [])`: the lines shown for
      the exams, and whether every exam was shown. */
  method ListExams(exams: seq<Json>, show: Json -> string) returns (lines: seq<string>, complete: bool)
    ensures lines == Rows(exams, show)
    ensures complete <==> |lines| == |exams|
  {
    lines := [];
    complete := true;
    var i := 0;
    assert exams[0..] == exams;
    while i < |exams|
      invariant 0 <= i <= |exams|
      invariant |lines| == i
      invariant complete
      invariant Rows(exams, show) == lines + Rows(exams[i..], show)
    {
      var exam := exams[i];
      var code := Shown(exam, "display_name", show);
      var title := Shown(exam, "title", show);
      var levels := Levels(exam);
      if levels.None? {
        assert Rows(exams[i..], show) == [] by {
          RowsFrom(exams, i, show);
        }
        complete := false;
        break;
      }
      var line := code + " | " + title + " | " + JoinWith(", ", levels.value);
      ghost var after := Rows(exams[i + 1..], show);
      assert Rows(exams[i..], show) == [line] + after by {
        RowsFrom(exams, i, show);
      }
      assert lines + ([line] + after) == (lines + [line]) + after;
      lines := lines + [line];
      i := i + 1;
    }
    if complete {
      assert exams[i..] == [];
    }
  }

  /** The whole script on an already fetched catalog: the filtered catalog,
      the lines shown and whether every kept exam was shown. */
  method FilterAndList(catalog: Json, show: Json -> string) returns (filtered: Json, lines: seq<string>, complete: bool)
    requires catalog.JObj?
    ensures filtered == FilterCatalog(catalog)
    ensures lines == Rows(FilterExams(CatalogExams(catalog), RetiredExams, Prefixes), show)
    ensures complete <==> |lines| == |FilterExams(CatalogExams(catalog), RetiredExams, Prefixes)|
  {
    filtered := FilterCatalog(catalog);
    assert CatalogExams(filtered) == FilterExams(CatalogExams(catalog), RetiredExams, Prefixes);
    lines, complete := ListExams(CatalogExams(filtered), show);
  }
}
