/** The standalone Credly export: one row per badge of a public profile,
    with the badge title, the cleaned issuer name and the issue date. */
module CredlyBadges {
  import opened Json
  import opened Text

  /** One output row: the columns Badge Title, Issuer and Issue Date. */
  datatype BadgeRecord = BadgeRecord(title: string, issuer: string, issueDate: string)

  /** `badges_json.get("data", [])`. */
  function RawBadges(doc: Json): seq<Json>
  {
    match Get(doc, "data")
    case Some(JArr(items)) => items
    case _ => []
  }

  /** The issuer name before cleaning: the issuer's summary when it is
      non-empty, else the name of the entity of its first entity entry,
      else "". An issuer that is not an object gives "". */
  function RawIssuer(badge: Json): string
  {
    var issuer := Child(badge, "issuer");
    if !issuer.JObj? then ""
    else
      var summary := StrField(issuer, "summary");
      if summary != "" then summary
      else
        match Get(issuer, "entities")
        case Some(JArr(entities)) =>
          if entities != [] then StrField(Child(entities[0], "entity"), "name") else ""
        case _ => ""
  }

  /** Removes a leading "issued by " written in any case, once. */
  function StripIssuedBy(name: string): (r: string)
    ensures StartsWith(Lower(name), "issued by ") ==> |r| == |name| - 10 && name == name[..10] + r
    ensures !StartsWith(Lower(name), "issued by ") ==> r == name
    ensures |r| < |name| ==> Lower(name[..10]) == "issued by "
  {
    if StartsWith(Lower(name), "issued by ") then name[10..] else name
  }

  /** The row made from one badge. */
  function BadgeOf(badge: Json): BadgeRecord
  {
    BadgeRecord(
      StrField(Child(badge, "badge_template"), "name"),
      StripIssuedBy(RawIssuer(badge)),
      StrField(badge, "issued_at_date"))
  }

  /** `extract_badges`: one row per badge, in profile order. */
  method ExtractBadges(doc: Json) returns (badges: seq<BadgeRecord>)
    ensures |badges| == |RawBadges(doc)|
    ensures forall i :: 0 <= i < |badges| ==> badges[i] == BadgeOf(RawBadges(doc)[i])
  {
    var raw := RawBadges(doc);
    badges := [];
    for i := 0 to |raw|
      invariant |badges| == i
      invariant forall k :: 0 <= k < i ==> badges[k] == BadgeOf(raw[k])
    {
      var badge := raw[i];
      var badgeTitle := StrField(Child(badge, "badge_template"), "name");
      var issuerName := "";
      var issuer := Child(badge, "issuer");
      if issuer.JObj? {
        issuerName := StrField(issuer, "summary");
        if issuerName == "" {
          var entities := Get(issuer, "entities");
          if entities.Some? && entities.value.JArr? && |entities.value.items| > 0 {
            var entity := Child(entities.value.items[0], "entity");
            issuerName := StrField(entity, "name");
          }
        }
      }
      assert issuerName == RawIssuer(badge);
      if StartsWith(Lower(issuerName), "issued by ") {
        issuerName := issuerName[10..];
      }
      var issuedDate := StrField(badge, "issued_at_date");
      badges := badges + [BadgeRecord(badgeTitle, issuerName, issuedDate)];
    }
  }

  /** The issuer fallback order: a non-empty summary wins over the first
      entity's name, which wins over "". */
  lemma IssuerPrecedence(badge: Json)
    ensures var issuer := Child(badge, "issuer");
      var entities := Get(issuer, "entities");
      var hasEntity := entities.Some? && entities.value.JArr? && entities.value.items != [];
      && (issuer.JObj? && StrField(issuer, "summary") != "" ==>
            RawIssuer(badge) == StrField(issuer, "summary"))
      && (issuer.JObj? && StrField(issuer, "summary") == "" && hasEntity ==>
            RawIssuer(badge) == StrField(Child(entities.value.items[0], "entity"), "name"))
      && (issuer.JObj? && StrField(issuer, "summary") == "" && !hasEntity ==> RawIssuer(badge) == "")
      && (!issuer.JObj? ==> RawIssuer(badge) == "")
  {
  }

  /** The prefix is stripped once only: an issuer written "Issued by
      issued by X" keeps its second "issued by ". */
  lemma StripOnce()
    ensures StripIssuedBy("Issued by issued by X") == "issued by X"
  {
    assert Lower("Issued by issued by X")[..10] == "issued by ";
  }

  /** `main` once its arguments are parsed: `doc` is the fetched document,
      None when the request or the decoding failed. Returns the exit code and
      the rows written to the CSV file, None when no file is written. */
  method CredlyBadgesMain(doc: Option<Json>) returns (code: int, written: Option<seq<BadgeRecord>>)
    ensures code == 0 || code == 1
    ensures written.Some? <==> code == 0
    ensures code == 0 <==> doc.Some? && RawBadges(doc.value) != []
    ensures written.Some? ==> |written.value| == |RawBadges(doc.value)|
    ensures written.Some? ==>
              forall i :: 0 <= i < |written.value| ==> written.value[i] == BadgeOf(RawBadges(doc.value)[i])
  {
    if doc.None? {
      return 1, None;
    }
    var badges := ExtractBadges(doc.value);
    if badges == [] {
      return 1, None;
    }
    return 0, Some(badges);
  }
}
