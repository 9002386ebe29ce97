# exam-timeline: record normalisation and reconciliation in Dafny

exam-timeline is a set of Python scripts. They gather the certification
exams a person has passed and related catalog data from public web APIs,
then turn the JSON answers into CSV rows. This project models the part of
the scripts that works on JSON once it has been parsed, and proves what that
part promises.

- **Passed exams** (`passed_exams.py`):
  - the depth-first search of a Microsoft Learn transcript for its
    `passedExams` list;
  - the normalisation of each transcript entry;
  - the mapping of Credly badges to exam numbers through an ordered table of
    slug fragments;
  - the merge of both sources: deduplication on a shared `seen` set, with
    transcript records first, then a stable sort by date;
  - the exit decision of `main`.
- **Credly badges** (`fetch_credly_badges.py`): one row per badge, with the
  issuer fallback order and the removal of an "issued by " prefix, plus the
  exit decision of `main`.
- **Microsoft Learn credentials** (`fetch_mslearn_credentials.py`):
  - the fixed query of the first search request;
  - the flattening of a credential record into CSV cells;
  - the CSV header, the sorted union of all keys.
- **Exam catalog** (`fetch_exams.py`): the removal of retired exams and of
  exams of excluded programmes, and the listing printed for the remaining
  exams.

## How the model is built

- **Modules.** The shared modules are `Json`, `Text` and `Seqs`.
  - `Json` holds parsed JSON. Objects keep their members in document order,
    because the transcript search depends on the order of dictionary
    iteration.
  - `Text` holds ASCII `lower()`, `startswith`, substring search, Python's
    string order, and `join` / `split`.
  - `Seqs` holds index sequences that describe a subsequence.

  Each script is one module: `PassedExams`, `CredlyBadges`,
  `MsLearnCredentials` and `FetchExams`.
- **Form.** Code written as loops is modelled as methods with loops. These
  are `ExtractMicrosoftExams`, `MapSlug`, `ExtractCredlyExams`, `MergeExamData`, `ExtractBadges`, `BuildInitialQuery`, `FlattenRecord` and
  `ListExams`. Each is proved equal to a specification function, and the
  properties are proved as lemmas about those functions. The recursive
  transcript search, the filtering comprehension and the header computation
  are pure functions.
- **Credly issuer and date.** The standalone Credly extractor
  gives `""` when no issuer is found. It also passes `issued_at_date`
  through unchanged: it is not cut at `T`.

## Model

| member | source | states |
|---|---|---|
| Json.LookupFindsFirst | passed_exams.py:91-93 | `d.get(key)` finds a value exactly when some member has the key, and the value is that of the first such member |
| Json.Member | fetch_mslearn_credentials.py:107-110 | `elem[key]` for a key the object has is the value `get` finds |
| Json.KeysAreMembers | fetch_mslearn_credentials.py:129 | `record.keys()` lists exactly the keys the record has, which are exactly the keys `get` finds a value for |
| Json.SetMember | fetch_exams.py:32-36 | `d[key] = v` makes `get(key)` return `v` and changes no other key; a new key is appended at the end |
| Text.LowerIdempotent | passed_exams.py:75 | a lowered text holds no ASCII capital, and lowering it again changes nothing |
| Text.LexLeTotal | passed_exams.py:167 | any two dates are comparable in Python's string order |
| Text.LexLeAntisymmetric | passed_exams.py:167 | two dates each at most the other are equal |
| Text.LexLeTransitive | passed_exams.py:167 | the string order is transitive |
| Text.Split | fetch_mslearn_credentials.py:115 | splitting at ";" always gives at least one piece |
| Text.SplitPlain | fetch_mslearn_credentials.py:115 | a text without ";" splits into itself |
| Text.SplitAfterPiece | fetch_mslearn_credentials.py:115 | a piece followed by ";" splits off as the first piece |
| Text.SplitJoin | fetch_mslearn_credentials.py:115 | `";".join` of at least one piece without ";" splits back into those pieces |
| PassedExams.FindIsAHit | passed_exams.py:72-86 | the search returns `[]` or the value of some key equal to "passedexams" ignoring case whose value is a list |
| PassedExams.FindInMembersIsAHit | passed_exams.py:73-80 | the same, for the members of one dictionary searched in order |
| PassedExams.FindInItemsIsAHit | passed_exams.py:81-85 | the same, for the items of one list searched in order |
| PassedExams.FindIsFirstHit | passed_exams.py:72-86 | when no matching list is empty, the search returns the first matching list in depth-first document order, or `[]` when there is none |
| PassedExams.FindInMembersIsFirstHit | passed_exams.py:73-80 | the same, for the members of one dictionary |
| PassedExams.FindInItemsIsFirstHit | passed_exams.py:81-85 | the same, for the items of one list |
| PassedExams.DatePart | passed_exams.py:94 | `split("T")[0]` is a prefix of the timestamp without 'T', followed in the timestamp by a 'T' when it is shorter |
| PassedExams.TranscriptRecordFields | passed_exams.py:91-99 | title and number take the camelCase field when non-empty, else the PascalCase field; the date is the text before the first 'T'; the source is Microsoft Learn |
| PassedExams.ExtractMicrosoftExams | passed_exams.py:88-101 | one record per raw transcript entry, in the same order, each the normalised entry |
| PassedExams.LookupExamFirstMatch | passed_exams.py:115-119 | the mapper finds nothing exactly when no table fragment occurs in the slug; otherwise it finds the code of the first table entry, in declared order, whose fragment occurs |
| PassedExams.MapSlug | passed_exams.py:115-119 | the loop with `break` finds the first match in the lowered slug |
| PassedExams.CredlyRecordFields | passed_exams.py:108-136 | a badge gives a record exactly when it is mapped or its lowered name contains "microsoft" or "github"; it carries the mapped code, or "Badge: " followed by the slug; title, date and source are those of the badge |
| PassedExams.ExtractCredlyExams | passed_exams.py:104-138 | the loop produces the records of the contributing badges, in badge order |
| PassedExams.CredlyExamsOrder | passed_exams.py:108-136 | the output is a subsequence of the badges (at most as long, in order), and every contributing badge is in it |
| PassedExams.TableCodesAreNotTags | passed_exams.py:24-39 | no exam number of the table starts with "Badge:" |
| PassedExams.BadgeTagIffUnmapped | passed_exams.py:122-136 | a Credly record's number starts with "Badge:" exactly when its slug is unmapped |
| PassedExams.KeySetSnoc | passed_exams.py:151 | `seen.add(key)` adds exactly the candidate's key |
| PassedExams.DedupStep | passed_exams.py:150-164 | one loop step updates `seen` and `merged` as the deduplication prescribes |
| PassedExams.VisitCandidate | passed_exams.py:150-164 | a key already seen changes neither `seen` nor `merged`; a new key is added to `seen` and its record appended to `merged` |
| PassedExams.DedupKeepsFirst | passed_exams.py:144-164 | deduplication keeps, in order, exactly the candidates that are the first with their key |
| PassedExams.DedupKeysDistinct | passed_exams.py:144-164 | no two kept records share a key |
| PassedExams.DedupKeepsEveryKey | passed_exams.py:144-164 | every key of the input keeps a record |
| PassedExams.FirstOfKey | passed_exams.py:150 | every candidate's key has a first occurrence at or before it |
| PassedExams.TranscriptWins | passed_exams.py:147-164 | a kept record whose key is that of a transcript record is the first transcript record with that key: transcript records win every collision |
| PassedExams.InsertByDatePermutes | passed_exams.py:167 | inserting a record adds exactly that record |
| PassedExams.InsertByDateSorted | passed_exams.py:167 | inserting into a date-sorted list keeps it sorted |
| PassedExams.WithDateAppend | passed_exams.py:167 | selecting one date distributes over concatenation |
| PassedExams.InsertByDateStable | passed_exams.py:167 | an inserted record goes after every record with the same date |
| PassedExams.SortByDateSorted | passed_exams.py:167 | the sort yields a permutation sorted by date |
| PassedExams.SortByDateStable | passed_exams.py:167 | records of equal date keep their relative order |
| PassedExams.MergeSortedStable | passed_exams.py:141-169 | the merge is the deduplicated records sorted by date, as a permutation, with equal dates in insertion order |
| PassedExams.MergeEmptyIff | passed_exams.py:141-169 | the merge is empty exactly when both sources are empty |
| PassedExams.MergeExamData | passed_exams.py:141-169 | the two loops over the `seen` set and the final sort compute the merge |
| PassedExams.PassedExamsMain | passed_exams.py:198-224 | exit code 1, with nothing written, exactly when the transcript fetch failed or both sources yield no records; otherwise code 0 and the merged records are written |
| CredlyBadges.StripIssuedBy | fetch_credly_badges.py:81-82 | a name starting with "issued by " in any case loses exactly its first 10 characters, which lower to "issued by "; any other name is unchanged |
| CredlyBadges.ExtractBadges | fetch_credly_badges.py:53-93 | one row per element of `data`, in order (none when `data` is missing): the template name, the cleaned issuer, `issued_at_date` unchanged |
| CredlyBadges.IssuerPrecedence | fetch_credly_badges.py:67-78 | the issuer is a non-empty summary, else the first entity's name when the entity list is a non-empty list, else ""; a non-object issuer gives "" |
| CredlyBadges.StripOnce | fetch_credly_badges.py:81-82 | the prefix is removed once: "Issued by issued by X" becomes "issued by X" |
| CredlyBadges.CredlyBadgesMain | fetch_credly_badges.py:118-135 | exit code 0, with one row per badge written, exactly when the fetch succeeded and `data` is non-empty |
| MsLearnCredentials.BuildInitialQuery | fetch_mslearn_credentials.py:23-55 | the URL is the learn.microsoft.com credential search; the parameters are locale, $filter, $orderBy and $top, followed by the facets roles, products, levels, subjects, credential_types |
| MsLearnCredentials.FlatRecord | fetch_mslearn_credentials.py:97-120 | the flattened record has the same keys in the same order |
| MsLearnCredentials.FlattenRecord | fetch_mslearn_credentials.py:91-120 | the nested loops build the flattened record |
| MsLearnCredentials.FlatLookup | fetch_mslearn_credentials.py:98-119 | each key of the flattened record holds the flattened value of the same key, and an absent key stays absent |
| MsLearnCredentials.DisplayNameFirst | fetch_mslearn_credentials.py:107-108 | an element with `display_name` is shown by it, whatever its `uid` |
| MsLearnCredentials.ListCellPieces | fetch_mslearn_credentials.py:99-115 | a list becomes text; an empty list gives ""; otherwise, when no element text holds ";", splitting the cell gives back the element texts in order |
| MsLearnCredentials.InsertKey | fetch_mslearn_credentials.py:129 | inserting a key keeps a list strictly sorted and adds exactly that key |
| MsLearnCredentials.SortKeys | fetch_mslearn_credentials.py:129 | `sorted(set(keys))` is strictly sorted and holds exactly the given keys |
| MsLearnCredentials.AllKeysMembers | fetch_mslearn_credentials.py:129 | the collected keys are exactly those some record has |
| MsLearnCredentials.Header | fetch_mslearn_credentials.py:126-129 | the header is strictly sorted, so free of duplicates, and holds exactly the keys some record has |
| MsLearnCredentials.SortedListUnique | fetch_mslearn_credentials.py:129 | a strictly sorted list is determined by its elements |
| MsLearnCredentials.CsvHeaderOfRecords | fetch_mslearn_credentials.py:126-129 | the header of the flattened records equals that of the fetched records |
| FetchExams.FilterExams | fetch_exams.py:32-36 | the filtered list is no longer than the input and every kept exam passes the retired and prefix tests |
| FetchExams.FilterExamsSubsequence | fetch_exams.py:32-36 | the filtered list is a subsequence of the catalog, and an exam is kept exactly when it is neither retired nor prefixed; an exam without `display_name` is kept |
| FetchExams.FilterExamsIdempotent | fetch_exams.py:32-36 | filtering a filtered list changes nothing |
| FetchExams.FilterCatalog | fetch_exams.py:32-36 | the catalog's `exams` member becomes the filtered list and every other member is unchanged |
| FetchExams.KeepExamples | fetch_exams.py:17-35 | "MS-100" (retired) and "MO-200" (prefix) are removed; an exam with no code is kept |
| FetchExams.RowsUpToFailure | fetch_exams.py:39-43 | one line per exam, in order, up to the first exam whose levels cannot be joined, where the listing stops |
| FetchExams.EmptyExamRow | fetch_exams.py:40-43 | an exam with no code, title or levels prints "None \| None \| " |
| FetchExams.ListExams | fetch_exams.py:39-43 | the printing loop over the catalog's exam list shows those lines, and reports whether all exams were shown |
| FetchExams.FilterAndList | fetch_exams.py:32-43 | the script replaces the catalog's exams with the filtered list and shows the lines of the filtered exams |

## Left out

- HTTP fetching is not modelled. This covers `fetch_microsoft_transcript`, `fetch_credly_badges`, `fetch_badges`, `fetch_all_credentials` with its `@nextLink` pagination, and the request in `fetch_exams.py`. A fetched document is a parameter, and a failed fetch is `None`.
- CSV writing, argparse, environment variables and console output are not modelled. Each `main` is modelled only through its exit code and the records it would write.
- `ai_exam_recommender.py` and `test_ai_recommender.py` are not part of this model. The first is a remote model call; the second checks the environment and files on disk.
- `json.dumps` and Python's `str` of numbers, lists and objects are function parameters (`dumps`, `show`) and are never interpreted. `str` of a string, `None` or a boolean is modelled exactly.
- `lower()` is modelled for ASCII letters only; full Unicode case mapping is left out.
- JSON numbers are integers; floating point is left out.
- The scripts sometimes read a field that holds a value of the wrong type. The model reads such a string field as absent and gives a non-object entry no members. This covers a `summary`, `name`, `display_name`, `examTitle` or date field that is not a string, a `data` or `exams` member that is not a list, an entity list that is not a list, and a badge or exam entry that is not an object. In those cases the Python code raises, or carries the odd value into the output.
- A Python dictionary cannot repeat a key. `MsLearnCredentials.FlattenRecord` therefore requires distinct keys; the other functions use the first member with a given key.
- `list.sort` is modelled as a functional stable insertion sort on a sequence (`PassedExams.SortByDate`), not as an in-place sort.
- `credential_types` and the other facet names are data only; the API's meaning of them is not modelled.
- PassedExams.FindIsFirstHit, PassedExams.FindInMembersIsFirstHit and PassedExams.FindInItemsIsFirstHit: the first-hit characterisation is proved only when no matching `passedExams` list is empty. The code returns a matching empty list at once from the dictionary that holds it, so later keys of that dictionary are not searched, while the caller keeps searching elsewhere. `PassedExams.FindIsAHit` holds for every document.
- FetchExams.KeepExamples: shows only removed codes and an exam with no code. It has no kept code, because proving that a code is outside the 112-element retired set needs one string comparison per element.
- FetchExams.FilterExams: the retired set and the prefixes are parameters; the script's own values are `FetchExams.RetiredExams` and `FetchExams.Prefixes`, which `FetchExams.FilterCatalog` uses.
