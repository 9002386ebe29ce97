/** The Microsoft Learn credential export: the fixed query sent to the
    content browser search API, the flattening of each credential record into
    CSV cells, and the CSV header. */
module MsLearnCredentials {
  import opened Json
  import opened Text

  /** The facets requested with the first page, in request order. */
  const Facets: seq<string> := ["roles", "products", "levels", "subjects", "credential_types"]

  /** The parameters sent before the facets, in request order. */
  const BaseParams: seq<(string, string)> := [("locale", "en-us"), ("$filter", ""), ("$orderBy", "title"), ("$top", "30")]

  /** The host every request goes to. */
  const BaseUrl := "https://learn.microsoft.com"

  /** The path of the credential search. */
  const Endpoint := "/api/contentbrowser/search/credentials"

  /** One `facet` parameter per facet, in the same order. */
  function FacetParams(facets: seq<string>): (r: seq<(string, string)>)
    ensures |r| == |facets|
    ensures forall k :: 0 <= k < |facets| ==> r[k] == ("facet", facets[k])
  {
    seq(|facets|, k requires 0 <= k < |facets| => ("facet", facets[k]))
  }

  /** `build_initial_query`: the search endpoint, then the four fixed
      parameters followed by one `facet` parameter per facet. */
  method BuildInitialQuery() returns (url: string, params: seq<(string, string)>)
    ensures url == BaseUrl + Endpoint
    ensures params == BaseParams + FacetParams(Facets)
  {
    url := BaseUrl + Endpoint;
    var filterExpr := "";
    params := [("locale", "en-us"), ("$filter", filterExpr), ("$orderBy", "title"), ("$top", "30")];
    var facets := Facets;
    for f := 0 to |facets|
      invariant params == BaseParams + FacetParams(facets[..f])
    {
      assert FacetParams(facets[..f + 1]) == FacetParams(facets[..f]) + [("facet", facets[f])];
      params := params + [("facet", facets[f])];
    }
    assert facets[..|facets|] == facets;
  }

  /** A Python dictionary: no key occurs twice. */
  predicate DistinctKeys(record: seq<(string, Json)>)
  {
    forall i, j :: 0 <= i < j < |record| ==> record[i].0 != record[j].0
  }

  /** The text of one list element: a dictionary gives its `display_name`,
      else its `uid`, else its JSON dump; any other element gives `str`. */
  function RenderElem(elem: Json, dumps: Json -> string, show: Json -> string): string
  {
    if !elem.JObj? then PyStr(elem, show)
    else if Has(elem, "display_name") then PyStr(Member(elem, "display_name"), show)
    else if Has(elem, "uid") then PyStr(Member(elem, "uid"), show)
    else dumps(elem)
  }

  /** The texts of the elements of a list, one per element, in order. */
  function Renders(items: seq<Json>, dumps: Json -> string, show: Json -> string): (r: seq<string>)
    ensures |r| == |items|
    ensures forall i :: 0 <= i < |items| ==> r[i] == RenderElem(items[i], dumps, show)
  {
    seq(|items|, i requires 0 <= i < |items| => RenderElem(items[i], dumps, show))
  }

  /** The cell of one value: a list becomes its element texts joined by ";",
      a dictionary its JSON dump, anything else stays as it is. */
  function FlatValue(v: Json, dumps: Json -> string, show: Json -> string): Json
  {
    match v
    case JArr(items) => JStr(JoinWith(";", Renders(items, dumps, show)))
    case JObj(_) => JStr(dumps(v))
    case _ => v
  }

  /** `flatten_record`: the same keys in the same order, each value flattened. */
  function FlatRecord(record: seq<(string, Json)>, dumps: Json -> string, show: Json -> string)
    : (flat: seq<(string, Json)>)
    ensures Keys(flat) == Keys(record)
  {
    seq(|record|, i requires 0 <= i < |record| => (record[i].0, FlatValue(record[i].1, dumps, show)))
  }

  /** `flatten_record`, filling the new dictionary key by key and each list
      cell element by element. */
  method FlattenRecord(record: seq<(string, Json)>, dumps: Json -> string, show: Json -> string)
    returns (flat: seq<(string, Json)>)
    requires DistinctKeys(record)
    ensures flat == FlatRecord(record, dumps, show)
  {
    flat := [];
    for i := 0 to |record|
      invariant flat == FlatRecord(record[..i], dumps, show)
    {
      var key := record[i].0;
      var value := record[i].1;
      var cell: Json;
      if value.JArr? {
        var items: seq<string> := [];
        for e := 0 to |value.items|
          invariant items == Renders(value.items[..e], dumps, show)
        {
          var elem := value.items[e];
          if elem.JObj? {
            if Has(elem, "display_name") {
              items := items + [PyStr(Member(elem, "display_name"), show)];
            } else if Has(elem, "uid") {
              items := items + [PyStr(Member(elem, "uid"), show)];
            } else {
              items := items + [dumps(elem)];
            }
          } else {
            items := items + [PyStr(elem, show)];
          }
          assert value.items[..e + 1] == value.items[..e] + [elem];
        }
        assert value.items[..|value.items|] == value.items;
        cell := JStr(JoinWith(";", items));
      } else if value.JObj? {
        cell := JStr(dumps(value));
      } else {
        cell := value;
      }
      forall j | 0 <= j < |flat| ensures flat[j].0 != key {
        assert flat[j].0 == record[j].0;
      }
      assert FlatRecord(record[..i + 1], dumps, show) == flat + [(key, cell)];
      flat := SetMember(flat, key, cell);
    }
    assert record[..|record|] == record;
  }

  /** Looking a key up in the flattened record finds the flattened value of
      the same key in the original record, and nothing for a key it lacks. */
  lemma {:induction false} FlatLookup(record: seq<(string, Json)>, key: string, dumps: Json -> string, show: Json -> string)
    ensures Lookup(FlatRecord(record, dumps, show), key) ==
              match Lookup(record, key)
              case None => None
              case Some(v) => Some(FlatValue(v, dumps, show))
  {
    if record != [] {
      var flat := FlatRecord(record, dumps, show);
      assert flat[1..] == FlatRecord(record[1..], dumps, show);
      FlatLookup(record[1..], key, dumps, show);
    }
  }

  /** A dictionary element with a `display_name` is shown by it, whether or
      not it also has a `uid`. */
  lemma DisplayNameFirst(elem: Json, dumps: Json -> string, show: Json -> string)
    requires Has(elem, "display_name")
    ensures RenderElem(elem, dumps, show) == PyStr(Member(elem, "display_name"), show)
  {
  }

  /** A list cell keeps one piece per element, in order: when no element
      text holds ";", splitting a non-empty list's cell at ";" gives back the
      element texts, and an empty list gives the empty cell. */
  lemma ListCellPieces(items: seq<Json>, dumps: Json -> string, show: Json -> string)
    requires forall i :: 0 <= i < |items| ==> ';' !in RenderElem(items[i], dumps, show)
    ensures FlatValue(JArr(items), dumps, show).JStr?
    ensures items == [] ==> FlatValue(JArr(items), dumps, show).s == ""
    ensures items != [] ==> Split(FlatValue(JArr(items), dumps, show).s) == Renders(items, dumps, show)
  {
    if items != [] {
      SplitJoin(Renders(items, dumps, show));
    }
  }

  /** Strictly increasing in Python's string order: sorted, no duplicates. */
  predicate StrictlySorted(s: seq<string>)
  {
    forall i, j :: 0 <= i < j < |s| ==> LexLess(s[i], s[j])
  }

  /** Adds `k` to a strictly sorted list of keys at its place, unless present. */
  function InsertKey(s: seq<string>, k: string): (r: seq<string>)
    requires StrictlySorted(s)
    ensures StrictlySorted(r)
    ensures forall x :: x in r <==> x in s || x == k
  {
    if s == [] then [k]
    else if s[0] == k then s
    else if LexLe(k, s[0]) then
      var r := [k] + s;
      forall i, j | 0 <= i < j < |r| ensures LexLess(r[i], r[j]) {
        if i == 0 && j > 1 {
          LexLeTransitive(k, s[0], s[j - 1]);
          if k == s[j - 1] {
            LexLeAntisymmetric(k, s[0]);
          }
        }
      }
      r
    else
      var rest := InsertKey(s[1..], k);
      var r := [s[0]] + rest;
      LexLeTotal(k, s[0]);
      forall i, j | 0 <= i < j < |r| ensures LexLess(r[i], r[j]) {
        if i == 0 {
          assert r[j] in rest;
          if r[j] != k {
            assert r[j] in s[1..];
          }
        }
      }
      r
  }

  /** The sorted, duplicate-free list of the given keys. */
  function SortKeys(keys: seq<string>): (r: seq<string>)
    ensures StrictlySorted(r)
    ensures forall x :: x in r <==> x in keys
  {
    if keys == [] then []
    else InsertKey(SortKeys(keys[..|keys| - 1]), keys[|keys| - 1])
  }

  /** Every key of every record, record by record. */
  function AllKeys(records: seq<seq<(string, Json)>>): seq<string>
  {
    if records == [] then []
    else AllKeys(records[..|records| - 1]) + Keys(records[|records| - 1])
  }

  lemma {:induction false} AllKeysMembers(records: seq<seq<(string, Json)>>)
    ensures forall x :: x in AllKeys(records) <==> exists i :: 0 <= i < |records| && x in Keys(records[i])
  {
    if records != [] {
      var n := |records| - 1;
      var front := records[..n];
      AllKeysMembers(front);
      forall x ensures x in AllKeys(records) <==> exists i :: 0 <= i < |records| && x in Keys(records[i]) {
        if exists i :: 0 <= i < |front| && x in Keys(front[i]) {
          var i :| 0 <= i < |front| && x in Keys(front[i]);
          assert x in Keys(records[i]);
        }
        if exists i :: 0 <= i < |records| && x in Keys(records[i]) {
          var i :| 0 <= i < |records| && x in Keys(records[i]);
          if i < n {
            assert x in Keys(front[i]);
          }
        }
      }
    }
  }

  /** `sorted({key for rec in records for key in rec.keys()})`: strictly
      sorted, and holding exactly the keys some record has. */
  function Header(records: seq<seq<(string, Json)>>): (h: seq<string>)
    ensures StrictlySorted(h)
    ensures forall x :: x in h <==> exists i :: 0 <= i < |records| && x in Keys(records[i])
  {
    AllKeysMembers(records);
    SortKeys(AllKeys(records))
  }

  /** A strictly sorted list is fixed by its elements: any other strictly
      sorted listing of the union of keys is the header itself. */
  lemma {:induction false} SortedListUnique(a: seq<string>, b: seq<string>)
    requires StrictlySorted(a) && StrictlySorted(b)
    requires forall x :: x in a <==> x in b
    ensures a == b
  {
    if a != [] {
      assert a[0] in b;
    }
    if b != [] {
      assert b[0] in a;
    }
    if a != [] && b != [] {
      assert a[0] == b[0] by {
        if a[0] != b[0] {
          assert a[0] in b && b[0] in a;
          var i :| 0 < i < |b| && b[i] == a[0];
          var j :| 0 < j < |a| && a[j] == b[0];
          LexLeAntisymmetric(a[0], b[0]);
        }
      }
      forall x ensures x in a[1..] <==> x in b[1..] {
        if x in a[1..] {
          var i :| 1 <= i < |a| && a[i] == x;
          assert x in a;
          var k :| 0 <= k < |b| && b[k] == x;
          assert k != 0;
          assert b[1..][k - 1] == x;
        }
        if x in b[1..] {
          var i :| 1 <= i < |b| && b[i] == x;
          assert x in b;
          var k :| 0 <= k < |a| && a[k] == x;
          assert k != 0;
          assert a[1..][k - 1] == x;
        }
      }
      SortedListUnique(a[1..], b[1..]);
      assert a == [a[0]] + a[1..] && b == [b[0]] + b[1..];
    }
  }

  /** The header computed from the flattened records, as `write_csv` does. */
  function CsvHeader(records: seq<seq<(string, Json)>>, dumps: Json -> string, show: Json -> string)
    : seq<string>
  {
    Header(seq(|records|, i requires 0 <= i < |records| => FlatRecord(records[i], dumps, show)))
  }

  /** Flattening changes no key, so the header is that of the records as
      fetched. */
  lemma CsvHeaderOfRecords(records: seq<seq<(string, Json)>>, dumps: Json -> string, show: Json -> string)
    ensures CsvHeader(records, dumps, show) == Header(records)
  {
    var flat := seq(|records|, i requires 0 <= i < |records| => FlatRecord(records[i], dumps, show));
    assert forall i :: 0 <= i < |records| ==> Keys(flat[i]) == Keys(records[i]);
    SortedListUnique(CsvHeader(records, dumps, show), Header(records));
  }
}
