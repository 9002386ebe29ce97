/** The exam timeline: passed exams read from a Microsoft Learn transcript,
    exam-related badges read from a Credly profile, and their merge into
    one deduplicated list ordered by date. */
module PassedExams {
  import opened Json
  import opened Text
  import opened Seqs

  /** Which extractor produced a record. */
  datatype Source = MicrosoftLearn | Credly

  /** The text written in the Source column. */
  function SourceName(s: Source): string
  {
    match s
    case MicrosoftLearn => "Microsoft Learn"
    case Credly => "Credly"
  }

  /** One output row: the columns Exam Title, Exam Number, Exam Date and Source. */
  datatype ExamRecord = ExamRecord(title: string, number: string, date: string, source: Source)

  // ---------------------------------------------------------------------------
  // Locating the passed exams in a transcript

  predicate IsPassedExamsKey(key: string)
  {
    Lower(key) == "passedexams"
  }

  /** The depth-first search of `find_passed_exams`: in an object, the first
      member whose key is "passedexams" ignoring case and whose value is a
      list ends the search of that object with that list; otherwise nested
      objects and lists are searched in order, and the first non-empty list
      found is the answer. Nothing found gives []. */
  function FindPassedExams(j: Json): seq<Json>
    decreases j
  {
    match j
    case JObj(fields) => FindInMembers(fields)
    case JArr(items) => FindInItems(items)
    case _ => []
  }

  function FindInMembers(fields: seq<(string, Json)>): seq<Json>
    decreases fields
  {
    if fields == [] then []
    else
      var key, value := fields[0].0, fields[0].1;
      assert value < fields[0];
      if IsPassedExamsKey(key) && value.JArr? then value.items
      else if value.JObj? || value.JArr? then
        var found := FindPassedExams(value);
        if found != [] then found else FindInMembers(fields[1..])
      else FindInMembers(fields[1..])
  }

  function FindInItems(items: seq<Json>): seq<Json>
    decreases items
  {
    if items == [] then []
    else
      var found := FindPassedExams(items[0]);
      if found != [] then found else FindInItems(items[1..])
  }

  /** Reference definition: every list held by a "passedexams" member, in
      document order, without looking inside those lists. */
  ghost function Hits(j: Json): seq<seq<Json>>
    decreases j
  {
    match j
    case JObj(fields) => MemberHits(fields)
    case JArr(items) => ItemHits(items)
    case _ => []
  }

  ghost function MemberHits(fields: seq<(string, Json)>): seq<seq<Json>>
    decreases fields
  {
    if fields == [] then []
    else
      var key, value := fields[0].0, fields[0].1;
      assert value < fields[0];
      (if IsPassedExamsKey(key) && value.JArr? then [value.items] else Hits(value))
      + MemberHits(fields[1..])
  }

  ghost function ItemHits(items: seq<Json>): seq<seq<Json>>
    decreases items
  {
    if items == [] then [] else Hits(items[0]) + ItemHits(items[1..])
  }

  /** The search never invents a list: what it returns is empty or is the
      value of some "passedexams" member of the document. */
  lemma {:induction false} FindIsAHit(j: Json)
    ensures FindPassedExams(j) == [] || FindPassedExams(j) in Hits(j)
    decreases j
  {
    match j
    case JObj(fields) => FindInMembersIsAHit(fields);
    case JArr(items) => FindInItemsIsAHit(items);
    case _ =>
  }

  lemma {:induction false} FindInMembersIsAHit(fields: seq<(string, Json)>)
    ensures FindInMembers(fields) == [] || FindInMembers(fields) in MemberHits(fields)
    decreases fields
  {
    if fields != [] {
      var key, value := fields[0].0, fields[0].1;
      assert value < fields[0];
      FindIsAHit(value);
      FindInMembersIsAHit(fields[1..]);
    }
  }

  lemma {:induction false} FindInItemsIsAHit(items: seq<Json>)
    ensures FindInItems(items) == [] || FindInItems(items) in ItemHits(items)
    decreases items
  {
    if items != [] {
      FindIsAHit(items[0]);
      FindInItemsIsAHit(items[1..]);
    }
  }

  /** No "passedexams" member of the document holds an empty list. */
  ghost predicate NoEmptyHit(j: Json)
  {
    forall h :: h in Hits(j) ==> h != []
  }

  /** When no "passedexams" member holds an empty list, the search returns
      exactly the first such list in document order, at whatever depth it
      is nested, and [] only when the document has none. */
  lemma {:induction false} FindIsFirstHit(j: Json)
    requires NoEmptyHit(j)
    ensures FindPassedExams(j) == if Hits(j) == [] then [] else Hits(j)[0]
    decreases j
  {
    match j
    case JObj(fields) =>
      assert Hits(j) == MemberHits(fields);
      FindInMembersIsFirstHit(fields);
    case JArr(items) =>
      assert Hits(j) == ItemHits(items);
      FindInItemsIsFirstHit(items);
    case _ =>
  }

  lemma {:induction false} FindInMembersIsFirstHit(fields: seq<(string, Json)>)
    requires forall h :: h in MemberHits(fields) ==> h != []
    ensures FindInMembers(fields) == if MemberHits(fields) == [] then [] else MemberHits(fields)[0]
    decreases fields
  {
    if fields != [] {
      var key, value := fields[0].0, fields[0].1;
      assert value < fields[0];
      var rest := fields[1..];
      if !(IsPassedExamsKey(key) && value.JArr?) {
        var all := MemberHits(fields);
        assert all == Hits(value) + MemberHits(rest);
        assert forall h :: h in Hits(value) ==> h in all;
        assert forall h :: h in MemberHits(rest) ==> h in all;
        FindIsFirstHit(value);
        FindInMembersIsFirstHit(rest);
        if Hits(value) == [] {
          assert all == MemberHits(rest);
        } else {
          assert Hits(value)[0] in Hits(value);
          assert all[0] == Hits(value)[0];
        }
      }
    }
  }

  lemma {:induction false} FindInItemsIsFirstHit(items: seq<Json>)
    requires forall h :: h in ItemHits(items) ==> h != []
    ensures FindInItems(items) == if ItemHits(items) == [] then [] else ItemHits(items)[0]
    decreases items
  {
    if items != [] {
      var all := ItemHits(items);
      assert all == Hits(items[0]) + ItemHits(items[1..]);
      assert forall h :: h in Hits(items[0]) ==> h in all;
      assert forall h :: h in ItemHits(items[1..]) ==> h in all;
      FindIsFirstHit(items[0]);
      FindInItemsIsFirstHit(items[1..]);
      if Hits(items[0]) == [] {
        assert all == ItemHits(items[1..]);
      } else {
        assert Hits(items[0])[0] in Hits(items[0]);
        assert all[0] == Hits(items[0])[0];
      }
    }
  }

  // ---------------------------------------------------------------------------
  // Normalising transcript entries

  /** `a or b` for two strings. */
  function Prefer(a: string, b: string): string
  {
    if a != "" then a else b
  }

  /** `s.split("T")[0]`: the text before the first 'T'. */
  function DatePart(stamp: string): (d: string)
    ensures d <= stamp
    ensures 'T' !in d
    ensures |d| < |stamp| ==> stamp[|d|] == 'T'
  {
    if stamp == [] || stamp[0] == 'T' then []
    else [stamp[0]] + DatePart(stamp[1..])
  }

  /** The timestamp of a transcript entry, camelCase key first. */
  function DateTaken(entry: Json): string
  {
    Prefer(StrField(entry, "examDateTaken"), StrField(entry, "ExamDateTaken"))
  }

  /** The record made from one transcript entry. */
  function TranscriptRecord(entry: Json): ExamRecord
  {
    var title := Prefer(StrField(entry, "examTitle"), StrField(entry, "ExamTitle"));
    var number := Prefer(StrField(entry, "examNumber"), StrField(entry, "ExamNumber"));
    var stamp := DateTaken(entry);
    var date := if stamp != "" then DatePart(stamp) else "";
    ExamRecord(title, number, date, MicrosoftLearn)
  }

  /** A transcript record comes from the Microsoft Learn source; its title
      and number take the camelCase field when that is non-empty and the
      PascalCase field otherwise; its date is the part of the timestamp
      before the first 'T', and empty when there is no timestamp. */
  lemma TranscriptRecordFields(entry: Json)
    ensures var r := TranscriptRecord(entry);
      && r.source == MicrosoftLearn
      && (StrField(entry, "examTitle") != "" ==> r.title == StrField(entry, "examTitle"))
      && (StrField(entry, "examTitle") == "" ==> r.title == StrField(entry, "ExamTitle"))
      && (StrField(entry, "examNumber") != "" ==> r.number == StrField(entry, "examNumber"))
      && (StrField(entry, "examNumber") == "" ==> r.number == StrField(entry, "ExamNumber"))
      && r.date <= DateTaken(entry) && 'T' !in r.date
      && (|r.date| < |DateTaken(entry)| ==> DateTaken(entry)[|r.date|] == 'T')
  {
  }

  /** The transcript records, one per passed exam, in transcript order. */
  function MicrosoftExams(transcript: Json): seq<ExamRecord>
  {
    var raw := FindPassedExams(transcript);
    seq(|raw|, i requires 0 <= i < |raw| => TranscriptRecord(raw[i]))
  }

  /** `extract_microsoft_exams`. */
  method ExtractMicrosoftExams(transcript: Json) returns (exams: seq<ExamRecord>)
    ensures |exams| == |FindPassedExams(transcript)|
    ensures forall i :: 0 <= i < |exams| ==>
              exams[i] == TranscriptRecord(FindPassedExams(transcript)[i])
    ensures exams == MicrosoftExams(transcript)
  {
    var raw := FindPassedExams(transcript);
    exams := [];
    for i := 0 to |raw|
      invariant |exams| == i
      invariant forall k :: 0 <= k < i ==> exams[k] == TranscriptRecord(raw[k])
    {
      exams := exams + [TranscriptRecord(raw[i])];
    }
  }

  // ---------------------------------------------------------------------------
  // Mapping Credly badges to exams

  /** `CREDLY_TO_EXAM_MAP`, in declaration order: a fragment of a badge slug
      and the exam number it stands for. */
  const CredlyToExamMap: seq<(string, string)> := [
    ("microsoft-certified-azure-fundamentals", "AZ-900"),
    ("microsoft-certified-azure-administrator-associate", "AZ-104"),
    ("microsoft-certified-azure-solutions-architect-expert", "AZ-305"),
    ("microsoft-certified-azure-developer-associate", "AZ-204"),
    ("microsoft-certified-azure-security-engineer-associate", "AZ-500"),
    ("microsoft-certified-azure-ai-fundamentals", "AI-900"),
    ("microsoft-certified-azure-data-fundamentals", "DP-900"),
    ("microsoft-certified-power-platform-fundamentals", "PL-900"),
    ("microsoft-365-certified-fundamentals", "MS-900"),
    ("microsoft-certified-security-compliance-and-identity-fundamentals", "SC-900"),
    ("microsoft-certified-devops-engineer-expert", "AZ-400"),
    ("microsoft-certified-identity-and-access-administrator-associate", "SC-300"),
    ("github-copilot", "GH-300")
  ]

  /** The exam number of the first table entry whose fragment occurs in
      `slug`; none when no fragment occurs. */
  function LookupExam(table: seq<(string, string)>, slug: string): Option<string>
  {
    if table == [] then None
    else if Contains(slug, table[0].0) then Some(table[0].1)
    else LookupExam(table[1..], slug)
  }

  /** First match wins: the mapper answers with the number of the earliest
      table entry whose fragment occurs in the slug, and answers nothing
      exactly when no fragment occurs. */
  lemma {:induction false} LookupExamFirstMatch(table: seq<(string, string)>, slug: string)
    ensures LookupExam(table, slug).None? <==> forall i :: 0 <= i < |table| ==> !Contains(slug, table[i].0)
    ensures LookupExam(table, slug).Some? ==>
              exists i :: 0 <= i < |table| && table[i].1 == LookupExam(table, slug).value
                          && Contains(slug, table[i].0)
                          && forall k :: 0 <= k < i ==> !Contains(slug, table[k].0)
  {
    if table != [] && !Contains(slug, table[0].0) {
      LookupExamFirstMatch(table[1..], slug);
      var r := LookupExam(table, slug);
      assert forall i :: 1 <= i < |table| ==> table[i] == table[1..][i - 1];
      if r.Some? {
        var i :| 0 <= i < |table[1..]| && table[1..][i].1 == r.value
                 && Contains(slug, table[1..][i].0)
                 && forall k :: 0 <= k < i ==> !Contains(slug, table[1..][k].0);
        assert table[i + 1] == table[1..][i];
      }
    }
  }

  /** The table-scanning loop of `extract_credly_exams`, which stops at the
      first fragment found in the lower-cased slug. */
  method MapSlug(slug: string) returns (examNumber: Option<string>)
    ensures examNumber == LookupExam(CredlyToExamMap, Lower(slug))
  {
    var table := CredlyToExamMap;
    var lowered := Lower(slug);
    examNumber := None;
    var i := 0;
    while i < |table|
      invariant 0 <= i <= |table|
      invariant examNumber == None
      invariant LookupExam(table, lowered) == LookupExam(table[i..], lowered)
    {
      if Contains(lowered, table[i].0) {
        examNumber := Some(table[i].1);
        break;
      }
      assert table[i..][1..] == table[i + 1..];
      i := i + 1;
    }
  }

  function BadgeName(badge: Json): string
  {
    StrField(Child(badge, "badge_template"), "name")
  }

  function BadgeSlug(badge: Json): string
  {
    StrField(Child(badge, "badge_template"), "badge_template_earnable_id")
  }

  /** A badge name naming one of the two vendors, ignoring case. */
  predicate IsVendorBadge(name: string)
  {
    Contains(Lower(name), "microsoft") || Contains(Lower(name), "github")
  }

  /** The record a badge contributes, if any: the mapped exam number; else,
      for a Microsoft or GitHub badge, a "Badge: <slug>" tag; else none. */
  function CredlyRecord(badge: Json): Option<ExamRecord>
  {
    var name, slug := BadgeName(badge), BadgeSlug(badge);
    var issued := StrField(badge, "issued_at_date");
    match LookupExam(CredlyToExamMap, Lower(slug))
    case Some(code) => Some(ExamRecord(name, code, issued, Credly))
    case None =>
      if IsVendorBadge(name) then Some(ExamRecord(name, "Badge: " + slug, issued, Credly))
      else None
  }

  /** A badge contributes a record exactly when its slug is mapped or it is
      a Microsoft or GitHub badge; the record carries the mapped number, or
      the "Badge: <slug>" tag, with the badge's name and issue date. */
  lemma CredlyRecordFields(badge: Json)
    ensures var r := CredlyRecord(badge);
      var code := LookupExam(CredlyToExamMap, Lower(BadgeSlug(badge)));
      && (r.Some? <==> code.Some? || IsVendorBadge(BadgeName(badge)))
      && (r.Some? ==> r.value.title == BadgeName(badge)
                      && r.value.date == StrField(badge, "issued_at_date")
                      && r.value.source == Credly)
      && (r.Some? && code.Some? ==> r.value.number == code.value)
      && (r.Some? && code.None? ==> r.value.number == "Badge: " + BadgeSlug(badge))
  {
  }

  /** The records of all badges that contribute one, in badge order. */
  function CredlyExams(badges: seq<Json>): seq<ExamRecord>
  {
    if badges == [] then []
    else
      var prev := CredlyExams(badges[..|badges| - 1]);
      match CredlyRecord(badges[|badges| - 1])
      case Some(e) => prev + [e]
      case None => prev
  }

  /** `extract_credly_exams`. */
  method ExtractCredlyExams(badges: seq<Json>) returns (exams: seq<ExamRecord>)
    ensures exams == CredlyExams(badges)
  {
    exams := [];
    for i := 0 to |badges|
      invariant exams == CredlyExams(badges[..i])
    {
      var badge := badges[i];
      var badgeName := BadgeName(badge);
      var badgeSlug := BadgeSlug(badge);
      var issuedAt := StrField(badge, "issued_at_date");
      var examNumber := MapSlug(badgeSlug);
      assert badges[..i + 1][..i] == badges[..i];
      if examNumber.Some? {
        exams := exams + [ExamRecord(badgeName, examNumber.value, issuedAt, Credly)];
      } else if IsVendorBadge(badgeName) {
        exams := exams + [ExamRecord(badgeName, "Badge: " + badgeSlug, issuedAt, Credly)];
      }
    }
    assert badges[..|badges|] == badges;
  }

  /** The badge records keep badge order and drop exactly the badges that
      contribute nothing: `idx` gives, for each record, the position of its
      badge, and every contributing badge has a record. */
  lemma {:induction false} CredlyExamsOrder(badges: seq<Json>) returns (idx: seq<nat>)
    ensures Increasing(idx, |badges|)
    ensures |idx| == |CredlyExams(badges)| <= |badges|
    ensures forall k :: 0 <= k < |idx| ==> CredlyRecord(badges[idx[k]]) == Some(CredlyExams(badges)[k])
    ensures forall i :: 0 <= i < |badges| && CredlyRecord(badges[i]).Some? ==> i in idx
  {
    if badges == [] {
      idx := [];
    } else {
      var n := |badges| - 1;
      var prev := badges[..n];
      var pidx := CredlyExamsOrder(prev);
      var out := CredlyExams(badges);
      var pout := CredlyExams(prev);
      if CredlyRecord(badges[n]).Some? {
        idx := pidx + [n];
        assert out == pout + [CredlyRecord(badges[n]).value];
        IncreasingSnoc(pidx, n);
      } else {
        idx := pidx;
        assert out == pout;
        IncreasingWiden(pidx, n);
      }
      forall k | 0 <= k < |idx| ensures CredlyRecord(badges[idx[k]]) == Some(out[k]) {
        if k < |pidx| {
          assert idx[k] == pidx[k] && prev[pidx[k]] == badges[pidx[k]] && out[k] == pout[k];
        }
      }
      forall i | 0 <= i < |badges| && CredlyRecord(badges[i]).Some? ensures i in idx {
        if i < n {
          assert prev[i] == badges[i];
          assert i in pidx;
        }
      }
    }
  }

  /** No exam number in the table looks like a "Badge:" tag. */
  lemma TableCodesAreNotTags()
    ensures forall i :: 0 <= i < |CredlyToExamMap| ==> !StartsWith(CredlyToExamMap[i].1, "Badge:")
  {
    forall i | 0 <= i < |CredlyToExamMap|
      ensures !StartsWith(CredlyToExamMap[i].1, "Badge:")
    {
      var code := CredlyToExamMap[i].1;
      assert code[0] != 'B';
      assert "Badge:"[0] == 'B';
    }
  }

  /** A Credly record carries a "Badge:" tag exactly when the mapper found
      no table entry for its slug. */
  lemma BadgeTagIffUnmapped(badge: Json)
    requires CredlyRecord(badge).Some?
    ensures StartsWith(CredlyRecord(badge).value.number, "Badge:")
            <==> LookupExam(CredlyToExamMap, Lower(BadgeSlug(badge))).None?
  {
    var m := LookupExam(CredlyToExamMap, Lower(BadgeSlug(badge)));
    if m.Some? {
      LookupExamFirstMatch(CredlyToExamMap, Lower(BadgeSlug(badge)));
      TableCodesAreNotTags();
    } else {
      assert ("Badge: " + BadgeSlug(badge))[..6] == "Badge:";
    }
  }

  // ---------------------------------------------------------------------------
  // Merging the two sources

  type Key = (string, string)

  /** The deduplication key of a transcript record: (number, date). */
  function TranscriptKey(e: ExamRecord): Key
  {
    (e.number, e.date)
  }

  /** The deduplication key of a Credly record: (title, date) for a
      "Badge:" tag, (number, date) otherwise. */
  function CredlyKey(e: ExamRecord): Key
  {
    if StartsWith(e.number, "Badge:") then (e.title, e.date) else (e.number, e.date)
  }

  /** Every record with its key, in the order `merge_exam_data` visits them:
      all transcript records, then all Credly records. */
  function Candidates(ms: seq<ExamRecord>, credly: seq<ExamRecord>): seq<(Key, ExamRecord)>
  {
    seq(|ms|, i requires 0 <= i < |ms| => (TranscriptKey(ms[i]), ms[i]))
    + seq(|credly|, j requires 0 <= j < |credly| => (CredlyKey(credly[j]), credly[j]))
  }

  /** The candidate at position `n`: a transcript record with its key, or,
      past the transcript records, a Credly record with its key. */
  lemma CandidateAt(ms: seq<ExamRecord>, credly: seq<ExamRecord>, n: nat)
    requires n < |ms| + |credly|
    ensures |Candidates(ms, credly)| == |ms| + |credly|
    ensures n < |ms| ==> Candidates(ms, credly)[n] == (TranscriptKey(ms[n]), ms[n])
    ensures n >= |ms| ==> Candidates(ms, credly)[n] == (CredlyKey(credly[n - |ms|]), credly[n - |ms|])
  {
  }

  function KeySet(c: seq<(Key, ExamRecord)>): set<Key>
  {
    set i | 0 <= i < |c| :: c[i].0
  }

  /** The candidates that `merge_exam_data` keeps: each one whose key has
      not been seen before it. */
  function Dedup(c: seq<(Key, ExamRecord)>): seq<(Key, ExamRecord)>
  {
    if c == [] then []
    else
      var prev := c[..|c| - 1];
      if c[|c| - 1].0 in KeySet(prev) then Dedup(prev) else Dedup(prev) + [c[|c| - 1]]
  }

  function Records(c: seq<(Key, ExamRecord)>): (r: seq<ExamRecord>)
    ensures |r| == |c|
    ensures forall i :: 0 <= i < |c| ==> r[i] == c[i].1
  {
    seq(|c|, i requires 0 <= i < |c| => c[i].1)
  }

  lemma DedupSnoc(c: seq<(Key, ExamRecord)>, x: (Key, ExamRecord))
    ensures KeySet(c + [x]) == KeySet(c) + {x.0}
    ensures Dedup(c + [x]) == if x.0 in KeySet(c) then Dedup(c) else Dedup(c) + [x]
  {
    assert (c + [x])[..|c|] == c;
    KeySetSnoc(c, x);
  }

  /** Position `i` holds the first candidate with its key. */
  ghost predicate IsFirstOfKey(c: seq<(Key, ExamRecord)>, i: int)
    requires 0 <= i < |c|
  {
    forall j :: 0 <= j < i ==> c[j].0 != c[i].0
  }

  lemma KeySetSnoc(c: seq<(Key, ExamRecord)>, x: (Key, ExamRecord))
    ensures KeySet(c + [x]) == KeySet(c) + {x.0}
  {
    var cx := c + [x];
    assert forall i :: 0 <= i < |c| ==> cx[i] == c[i];
    assert cx[|c|] == x;
  }

  /** Deduplication keeps candidate order and keeps exactly the first
      candidate of each key: `idx` gives, for each kept candidate, its
      position among the candidates. */
  lemma {:induction false} DedupKeepsFirst(c: seq<(Key, ExamRecord)>) returns (idx: seq<nat>)
    ensures Increasing(idx, |c|)
    ensures |idx| == |Dedup(c)|
    ensures forall k :: 0 <= k < |idx| ==> Dedup(c)[k] == c[idx[k]]
    ensures forall i :: 0 <= i < |c| ==> (i in idx <==> IsFirstOfKey(c, i))
  {
    if c == [] {
      idx := [];
    } else {
      var n := |c| - 1;
      var prev := c[..n];
      var pidx := DedupKeepsFirst(prev);
      var d := Dedup(c);
      var pd := Dedup(prev);
      if c[n].0 in KeySet(prev) {
        idx := pidx;
        assert d == pd;
        IncreasingWiden(pidx, n);
        var j :| 0 <= j < n && prev[j].0 == c[n].0;
        assert c[j].0 == c[n].0;
        assert !IsFirstOfKey(c, n);
      } else {
        idx := pidx + [n];
        assert d == pd + [c[n]];
        IncreasingSnoc(pidx, n);
        assert IsFirstOfKey(c, n) by {
          forall j | 0 <= j < n ensures c[j].0 != c[n].0 {
            assert prev[j] == c[j];
          }
        }
      }
      forall k | 0 <= k < |idx| ensures d[k] == c[idx[k]] {
        if k < |pidx| {
          assert d[k] == pd[k] && pd[k] == prev[pidx[k]];
        }
      }
      forall i | 0 <= i < n ensures i in idx <==> IsFirstOfKey(c, i) {
        assert IsFirstOfKey(c, i) <==> IsFirstOfKey(prev, i) by {
          assert forall j :: 0 <= j <= i ==> prev[j] == c[j];
        }
        assert i in idx <==> i in pidx;
      }
    }
  }

  /** No two kept candidates share a key. */
  lemma DedupKeysDistinct(c: seq<(Key, ExamRecord)>)
    ensures forall k, l :: 0 <= k < l < |Dedup(c)| ==> Dedup(c)[k].0 != Dedup(c)[l].0
  {
    var idx := DedupKeepsFirst(c);
    forall k, l | 0 <= k < l < |Dedup(c)|
      ensures Dedup(c)[k].0 != Dedup(c)[l].0
    {
      assert idx[l] in idx;
      assert IsFirstOfKey(c, idx[l]);
    }
  }

  /** Every key among the candidates survives deduplication. */
  lemma DedupKeepsEveryKey(c: seq<(Key, ExamRecord)>)
    ensures KeySet(Dedup(c)) == KeySet(c)
  {
    var idx := DedupKeepsFirst(c);
    var d := Dedup(c);
    forall key | key in KeySet(c) ensures key in KeySet(d) {
      var i :| 0 <= i < |c| && c[i].0 == key;
      var f := FirstOfKey(c, i);
      assert f in idx;
      var k :| 0 <= k < |idx| && idx[k] == f;
      assert d[k] == c[f];
    }
    forall key | key in KeySet(d) ensures key in KeySet(c) {
      var k :| 0 <= k < |d| && d[k].0 == key;
      assert d[k] == c[idx[k]];
    }
  }

  /** The first position holding the key found at position `i`. */
  lemma FirstOfKey(c: seq<(Key, ExamRecord)>, i: int) returns (f: int)
    requires 0 <= i < |c|
    ensures 0 <= f <= i && c[f].0 == c[i].0 && IsFirstOfKey(c, f)
  {
    f := i;
    while exists j :: 0 <= j < f && c[j].0 == c[i].0
      invariant 0 <= f <= i && c[f].0 == c[i].0
      decreases f
    {
      var j :| 0 <= j < f && c[j].0 == c[i].0;
      f := j;
    }
  }

  /** Transcript records take priority: whenever a kept candidate has the
      key of some transcript record, it is a transcript record, the first
      one with that key. */
  lemma {:induction false} TranscriptWins(ms: seq<ExamRecord>, credly: seq<ExamRecord>)
    ensures var d := Dedup(Candidates(ms, credly));
      forall k, i :: 0 <= k < |d| && 0 <= i < |ms| && d[k].0 == TranscriptKey(ms[i]) ==>
        exists f :: 0 <= f <= i && d[k] == (TranscriptKey(ms[f]), ms[f])
  {
    var c := Candidates(ms, credly);
    var d := Dedup(c);
    var idx := DedupKeepsFirst(c);
    forall k, i | 0 <= k < |d| && 0 <= i < |ms| && d[k].0 == TranscriptKey(ms[i])
      ensures exists f :: 0 <= f <= i && d[k] == (TranscriptKey(ms[f]), ms[f])
    {
      assert idx[k] in idx;
      assert IsFirstOfKey(c, idx[k]);
      assert c[i].0 == d[k].0;
      assert idx[k] <= i;
      assert d[k] == (TranscriptKey(ms[idx[k]]), ms[idx[k]]);
    }
  }

  // ---------------------------------------------------------------------------
  // The stable sort by date

  predicate SortedByDate(s: seq<ExamRecord>)
  {
    forall i, j :: 0 <= i < j < |s| ==> LexLe(s[i].date, s[j].date)
  }

  /** Places `x` after every record whose date is not later than its own. */
  function InsertByDate(s: seq<ExamRecord>, x: ExamRecord): seq<ExamRecord>
  {
    if s == [] then [x]
    else if LexLess(x.date, s[|s| - 1].date) then InsertByDate(s[..|s| - 1], x) + [s[|s| - 1]]
    else s + [x]
  }

  /** `list.sort(key=lambda x: x["Exam Date"])`, a stable sort. */
  function SortByDate(s: seq<ExamRecord>): seq<ExamRecord>
  {
    if s == [] then [] else InsertByDate(SortByDate(s[..|s| - 1]), s[|s| - 1])
  }

  /** The records with date `d`, in order. */
  function WithDate(s: seq<ExamRecord>, d: string): seq<ExamRecord>
  {
    if s == [] then []
    else WithDate(s[..|s| - 1], d) + (if s[|s| - 1].date == d then [s[|s| - 1]] else [])
  }

  lemma {:induction false} InsertByDatePermutes(s: seq<ExamRecord>, x: ExamRecord)
    ensures multiset(InsertByDate(s, x)) == multiset(s) + multiset{x}
  {
    if s != [] {
      var n := |s| - 1;
      InsertByDatePermutes(s[..n], x);
      assert s == s[..n] + [s[n]];
    }
  }

  lemma {:induction false} InsertByDateSorted(s: seq<ExamRecord>, x: ExamRecord)
    requires SortedByDate(s)
    ensures SortedByDate(InsertByDate(s, x))
  {
    if s != [] {
      var n := |s| - 1;
      var last := s[n];
      var prev := s[..n];
      if LexLess(x.date, last.date) {
        assert SortedByDate(prev);
        InsertByDateSorted(prev, x);
        InsertByDatePermutes(prev, x);
        var t := InsertByDate(prev, x);
        forall e | e in t ensures LexLe(e.date, last.date) {
          assert e in multiset(t);
          if e != x {
            assert e in multiset(prev);
            var i :| 0 <= i < n && prev[i] == e;
            assert s[i] == e;
          }
        }
        var r := t + [last];
        assert InsertByDate(s, x) == r;
        forall i, j | 0 <= i < j < |r| ensures LexLe(r[i].date, r[j].date) {
          if j == |t| {
            assert r[i] == t[i] && t[i] in t;
          } else {
            assert r[i] == t[i] && r[j] == t[j];
          }
        }
      } else {
        LexLeTotal(x.date, last.date);
        if x.date == last.date {
          LexLeTotal(x.date, x.date);
        }
        assert LexLe(last.date, x.date);
        var r := s + [x];
        forall i, j | 0 <= i < j < |r| ensures LexLe(r[i].date, r[j].date) {
          if j == |s| {
            if i < n {
              LexLeTransitive(s[i].date, last.date, x.date);
            }
          }
        }
      }
    }
  }

  lemma {:induction false} WithDateAppend(s: seq<ExamRecord>, t: seq<ExamRecord>, d: string)
    ensures WithDate(s + t, d) == WithDate(s, d) + WithDate(t, d)
    decreases |t|
  {
    if t == [] {
      assert s + t == s;
    } else {
      var n := |t| - 1;
      assert (s + t)[..|s + t| - 1] == s + t[..n];
      WithDateAppend(s, t[..n], d);
    }
  }

  lemma {:induction false} InsertByDateStable(s: seq<ExamRecord>, x: ExamRecord, d: string)
    ensures WithDate(InsertByDate(s, x), d) == WithDate(s, d) + WithDate([x], d)
  {
    if s == [] {
      assert InsertByDate(s, x) == [x];
    } else {
      var n := |s| - 1;
      var last := s[n];
      var prev := s[..n];
      assert s == prev + [last];
      WithDateAppend(prev, [last], d);
      var a, xs, ls := WithDate(prev, d), WithDate([x], d), WithDate([last], d);
      if LexLess(x.date, last.date) {
        assert InsertByDate(s, x) == InsertByDate(prev, x) + [last];
        InsertByDateStable(prev, x, d);
        WithDateAppend(InsertByDate(prev, x), [last], d);
        assert xs == [] || ls == [] by {
          assert [x][..0] == [] && [last][..0] == [];
        }
        assert a + xs + ls == a + ls + xs;
      } else {
        assert InsertByDate(s, x) == s + [x];
        WithDateAppend(s, [x], d);
      }
    }
  }

  /** The date sort returns the same records, ordered by date. */
  lemma {:induction false} SortByDateSorted(s: seq<ExamRecord>)
    ensures SortedByDate(SortByDate(s))
    ensures multiset(SortByDate(s)) == multiset(s)
  {
    if s != [] {
      var n := |s| - 1;
      SortByDateSorted(s[..n]);
      InsertByDateSorted(SortByDate(s[..n]), s[n]);
      InsertByDatePermutes(SortByDate(s[..n]), s[n]);
      assert s == s[..n] + [s[n]];
    }
  }

  /** The date sort is stable: the records sharing a date keep their
      relative order. */
  lemma {:induction false} SortByDateStable(s: seq<ExamRecord>, d: string)
    ensures WithDate(SortByDate(s), d) == WithDate(s, d)
  {
    if s != [] {
      var n := |s| - 1;
      SortByDateStable(s[..n], d);
      InsertByDateStable(SortByDate(s[..n]), s[n], d);
    }
  }

  /** `merge_exam_data`: the kept records of both sources, sorted by date. */
  function Merge(ms: seq<ExamRecord>, credly: seq<ExamRecord>): seq<ExamRecord>
  {
    SortByDate(Records(Dedup(Candidates(ms, credly))))
  }

  /** The merged list holds exactly the kept records, sorted by date, with
      the records of equal date in the order they were kept. */
  lemma MergeSortedStable(ms: seq<ExamRecord>, credly: seq<ExamRecord>)
    ensures SortedByDate(Merge(ms, credly))
    ensures multiset(Merge(ms, credly)) == multiset(Records(Dedup(Candidates(ms, credly))))
    ensures forall d :: WithDate(Merge(ms, credly), d) == WithDate(Records(Dedup(Candidates(ms, credly))), d)
  {
    var kept := Records(Dedup(Candidates(ms, credly)));
    SortByDateSorted(kept);
    forall d ensures WithDate(Merge(ms, credly), d) == WithDate(kept, d) {
      SortByDateStable(kept, d);
    }
  }

  /** The merged list is empty exactly when both sources are. */
  lemma MergeEmptyIff(ms: seq<ExamRecord>, credly: seq<ExamRecord>)
    ensures Merge(ms, credly) == [] <==> ms == [] && credly == []
  {
    var c := Candidates(ms, credly);
    var idx := DedupKeepsFirst(c);
    SortByDateSorted(Records(Dedup(c)));
    if c != [] {
      assert IsFirstOfKey(c, 0);
      assert 0 in idx;
    }
    assert |Merge(ms, credly)| == |multiset(Merge(ms, credly))|;
  }

  /** One step of the deduplicating loops: visiting candidate `n` adds its
      key to the seen keys, and keeps its record exactly when the key was
      not seen before. */
  lemma DedupStep(c: seq<(Key, ExamRecord)>, n: nat)
    requires n < |c|
    ensures KeySet(c[..n + 1]) == KeySet(c[..n]) + {c[n].0}
    ensures Records(Dedup(c[..n + 1])) ==
              if c[n].0 in KeySet(c[..n]) then Records(Dedup(c[..n]))
              else Records(Dedup(c[..n])) + [c[n].1]
  {
    assert c[..n + 1] == c[..n] + [c[n]];
    DedupSnoc(c[..n], c[n]);
    var d := Dedup(c[..n]);
    if c[n].0 !in KeySet(c[..n]) {
      assert Records(d + [c[n]]) == Records(d) + [c[n].1];
    }
  }

  /** The loop body of `merge_exam_data` at candidate `n`, given the keys
      seen and the records kept before it: a seen key changes nothing, a new
      key is added to `seen` and its record appended to `merged`. */
  lemma VisitCandidate(c: seq<(Key, ExamRecord)>, n: nat, seen: set<Key>, merged: seq<ExamRecord>)
    requires n < |c|
    requires seen == KeySet(c[..n]) && merged == Records(Dedup(c[..n]))
    ensures c[n].0 in seen ==> seen == KeySet(c[..n + 1]) && merged == Records(Dedup(c[..n + 1]))
    ensures c[n].0 !in seen ==>
              seen + {c[n].0} == KeySet(c[..n + 1]) && merged + [c[n].1] == Records(Dedup(c[..n + 1]))
  {
    DedupStep(c, n);
  }

  /** `merge_exam_data`, with its `seen` set of keys. */
  method MergeExamData(ms: seq<ExamRecord>, credly: seq<ExamRecord>) returns (merged: seq<ExamRecord>)
    ensures merged == Merge(ms, credly)
  {
    ghost var c := Candidates(ms, credly);
    assert |c| == |ms| + |credly|;
    var seen: set<Key> := {};
    merged := [];
    for i := 0 to |ms|
      invariant seen == KeySet(c[..i])
      invariant merged == Records(Dedup(c[..i]))
    {
      var exam := ms[i];
      var key := (exam.number, exam.date);
      assert c[i] == (key, exam) by { CandidateAt(ms, credly, i); }
      VisitCandidate(c, i, seen, merged);
      if key !in seen {
        seen := seen + {key};
        merged := merged + [exam];
      }
    }
    for n := |ms| to |ms| + |credly|
      invariant seen == KeySet(c[..n])
      invariant merged == Records(Dedup(c[..n]))
    {
      var exam := credly[n - |ms|];
      var key := if StartsWith(exam.number, "Badge:") then (exam.title, exam.date)
                 else (exam.number, exam.date);
      assert c[n] == (key, exam) by { CandidateAt(ms, credly, n); }
      VisitCandidate(c, n, seen, merged);
      if key !in seen {
        seen := seen + {key};
        merged := merged + [exam];
      }
    }
    assert c[..|ms| + |credly|] == c;
    merged := SortByDate(merged);
  }

  // ---------------------------------------------------------------------------
  // The run

  /** `main` once its arguments are parsed. `transcript` is the fetched
      transcript, or None when fetching it failed; `badges` is the Credly
      badge list, [] when no Credly user was named or the fetch failed.
      Returns the exit code and the records written to the CSV file, None
      when no file is written. */
  method PassedExamsMain(transcript: Option<Json>, badges: seq<Json>)
    returns (code: int, written: Option<seq<ExamRecord>>)
    ensures code == 0 || code == 1
    ensures written.Some? <==> code == 0
    ensures code == 1 <==>
              (transcript.None? || (FindPassedExams(transcript.value) == [] && CredlyExams(badges) == []))
    ensures written.Some? ==> written.value == Merge(MicrosoftExams(transcript.value), CredlyExams(badges))
  {
    if transcript.None? {
      return 1, None;
    }
    var msExams := ExtractMicrosoftExams(transcript.value);
    var credlyExams: seq<ExamRecord> := [];
    if badges != [] {
      credlyExams := ExtractCredlyExams(badges);
    }
    var allExams := MergeExamData(msExams, credlyExams);
    MergeEmptyIff(msExams, credlyExams);
    if allExams == [] {
      return 1, None;
    }
    return 0, Some(allExams);
  }
}
