/** The kibun.social status card (`src/components/KibunStatus.jsx`): the
    age label of the latest status and when the card shows at all. */
module KibunStatus {
  import opened Wrappers
  import opened JsText

  /** `${n}` followed by `unit`, with an `s` when `n > 1`, then " ago". */
  function CountAgo(n: nat, unit: string): string
  {
    NatToString(n) + " " + unit + (if n > 1 then "s" else "") + " ago"
  }

  /** `timeAgo` for a status `diffMs` milliseconds old (negative for a
      date in the future). `None` is the branch past a day, which throws
      because it calls `getDate` on the number `Date.parse` returned. */
  function TimeAgo(diffMs: int): (shown: Option<string>)
    ensures shown.None? <==> 86400000 <= diffMs
    ensures shown == Some("just now") <==> diffMs < 5000
    ensures 5000 <= diffMs < 60000 ==> shown == Some(NatToString(diffMs / 1000) + " seconds ago")
    ensures 60000 <= diffMs < 3600000 ==> shown == Some(CountAgo(diffMs / 60000, "minute"))
    ensures 3600000 <= diffMs < 86400000 ==> shown == Some(CountAgo(diffMs / 3600000, "hour"))
  {
    if diffMs < 5000 then Some("just now")
    else if diffMs < 60000 then
      assert (NatToString(diffMs / 1000) + " seconds ago")[0] != "just now"[0];
      Some(NatToString(diffMs / 1000) + " seconds ago")
    else if diffMs < 3600000 then
      assert CountAgo(diffMs / 60000, "minute")[0] != "just now"[0];
      Some(CountAgo(diffMs / 60000, "minute"))
    else if diffMs < 86400000 then
      assert CountAgo(diffMs / 3600000, "hour")[0] != "just now"[0];
      Some(CountAgo(diffMs / 3600000, "hour"))
    else None
  }

  /** The numbers shown lie in 5 to 59 seconds, 1 to 59 minutes and 1 to
      23 hours, each the whole number of units elapsed. */
  lemma TimeAgoRanges(diffMs: int)
    ensures 5000 <= diffMs < 60000 ==> 5 <= diffMs / 1000 <= 59
    ensures 60000 <= diffMs < 3600000 ==>
      (1 <= diffMs / 60000 <= 59 && diffMs / 60000 * 60000 <= diffMs < (diffMs / 60000 + 1) * 60000)
    ensures 3600000 <= diffMs < 86400000 ==>
      (1 <= diffMs / 3600000 <= 23 && diffMs / 3600000 * 3600000 <= diffMs < (diffMs / 3600000 + 1) * 3600000)
  {
  }

  /** The unit is singular exactly when the count is one: "1 minute ago"
      but "2 minutes ago". */
  lemma TimeAgoPlural(diffMs: int)
    requires 60000 <= diffMs < 86400000
    ensures var n := if diffMs < 3600000 then diffMs / 60000 else diffMs / 3600000;
      var unit := if diffMs < 3600000 then "minute" else "hour";
      var shown := TimeAgo(diffMs).value;
      && shown[..|NatToString(n)|] == NatToString(n)
      && ParseDecimal(shown[..|NatToString(n)|]) == n
      && (n == 1 <==> shown[|NatToString(n)|..] == " " + unit + " ago")
      && (n > 1 <==> shown[|NatToString(n)|..] == " " + unit + "s ago")
  {
    var n := if diffMs < 3600000 then diffMs / 60000 else diffMs / 3600000;
    var unit := if diffMs < 3600000 then "minute" else "hour";
    assert TimeAgo(diffMs).value == CountAgo(n, unit);
    assert n >= 1;
    CountAgoParts(n, unit);
  }

  /** `CountAgo(n, unit)` reads back as `n`, then the unit, plural exactly
      when `n > 1`. */
  lemma CountAgoParts(n: nat, unit: string)
    ensures var shown, digits := CountAgo(n, unit), NatToString(n);
      && shown[..|digits|] == digits
      && ParseDecimal(shown[..|digits|]) == n
      && (n <= 1 <==> shown[|digits|..] == " " + unit + " ago")
      && (n > 1 <==> shown[|digits|..] == " " + unit + "s ago")
  {
    var shown, digits := CountAgo(n, unit), NatToString(n);
    var rest := " " + unit + (if n > 1 then "s" else "") + " ago";
    assert shown == digits + rest;
    assert shown[..|digits|] == digits && shown[|digits|..] == rest;
    ParseNatToString(n);
    if n > 1 {
      assert (" " + unit + " ago")[|unit| + 1] == ' ' != 's' == (" " + unit + "s ago")[|unit| + 1];
    } else {
      assert |" " + unit + " ago"| != |" " + unit + "s ago"|;
    }
  }

  /** A status record's `value`. */
  datatype Status = Status(emoji: string, text: string, createdAt: string)

  /** `records[0].value` when there is a record, otherwise `null`. */
  function LatestStatus(records: seq<Status>): (s: Option<Status>)
    ensures s.None? <==> records == []
    ensures s.Some? ==> s.value == records[0]
  {
    if |records| > 0 then Some(records[0]) else None
  }

  /** The card renders only once loading is over, with no error message
      and a status present. */
  predicate ShowsCard(loading: bool, error: Option<string>, status: Option<Status>)
  {
    !loading && !(error.Some? && error.value != []) && status.Some?
  }

  /** An empty feed of statuses means no card. */
  lemma NoRecordsNoCard(loading: bool, error: Option<string>, records: seq<Status>)
    ensures ShowsCard(loading, error, LatestStatus(records)) <==>
      !loading && (error.None? || error.value == []) && records != []
  {
  }

  /** The card's name: the profile's display name, or the username when the
      profile has none (or an empty one). */
  function DisplayName(profileDisplayName: Option<string>, username: string): (name: string)
    ensures profileDisplayName.Some? && profileDisplayName.value != [] ==> name == profileDisplayName.value
    ensures profileDisplayName.None? || profileDisplayName.value == [] ==> name == username
  {
    if profileDisplayName.Some? && profileDisplayName.value != [] then profileDisplayName.value else username
  }
}
