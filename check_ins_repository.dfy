/**
 * The check-in store contract: the persisted shape of a check-in, the input of `create`,
 * and the `findByUserIdOnDate` query stated over the sequence of stored records.
 */
module CheckInsRepository {
  import opened Wrappers
  import opened Calendar

  type UserId = string
  type GymId = string
  /** A check-in identifier; the model draws them from a counter instead of random UUIDs. */
  type CheckInId = nat

  /** The persisted record `{ id, user_id, gym_id, created_at, is_validated }`. */
  datatype CheckIn = CheckIn(
    id: CheckInId,
    user_id: UserId,
    gym_id: GymId,
    created_at: Timestamp,
    is_validated: Option<Timestamp>)

  /** A date given to `create`: either a date value or a text that the host parses into `parsed`. */
  datatype DateInput = DateValue(t: Timestamp) | DateText(text: string, parsed: Timestamp)

  /** The fields of the unchecked create input that the in-memory store reads. */
  datatype CheckInCreateInput = CheckInCreateInput(
    user_id: UserId,
    gym_id: GymId,
    is_validated: Option<DateInput>)

  /**
   * The validation timestamp of a new record: `null` unless the input is truthy.
   * A date value is always truthy; a text is truthy unless it is empty.
   */
  function ValidatedAt(v: Option<DateInput>): (r: Option<Timestamp>)
    ensures r.Some? ==> v.Some?
    ensures v.Some? && v.value.DateValue? ==> r == Some(v.value.t)
    ensures v.Some? && v.value.DateText? ==> (r.None? <==> v.value.text == "")
    ensures v.Some? && v.value.DateText? && v.value.text != "" ==> r == Some(v.value.parsed)
  {
    match v
    case None => None
    case Some(DateValue(t)) => Some(t)
    case Some(DateText(text, parsed)) => if text == "" then None else Some(parsed)
  }

  /** Record `c` belongs to `userId` and was created within the day of `date`. */
  predicate OnDate(c: CheckIn, userId: UserId, date: Timestamp)
  {
    c.user_id == userId && SameDay(c.created_at, date)
  }

  /**
   * `findByUserIdOnDate`: the first stored record of `userId` created on the day of `date`,
   * or `None` when there is none.
   */
  function FindOnDate(items: seq<CheckIn>, userId: UserId, date: Timestamp): (r: Option<CheckIn>)
    ensures r.Some? ==> r.value in items && OnDate(r.value, userId, date)
    ensures r.None? ==> forall c :: c in items ==> !OnDate(c, userId, date)
    decreases |items|
  {
    if items == [] then None
    else if OnDate(items[0], userId, date) then Some(items[0])
    else FindOnDate(items[1..], userId, date)
  }

  /** The record `FindOnDate` returns is the earliest matching one in store order. */
  lemma {:induction false} FindOnDateIsFirst(items: seq<CheckIn>, userId: UserId, date: Timestamp)
    requires FindOnDate(items, userId, date).Some?
    ensures exists i :: 0 <= i < |items| && items[i] == FindOnDate(items, userId, date).value
                        && forall j :: 0 <= j < i ==> !OnDate(items[j], userId, date)
    decreases |items|
  {
    if !OnDate(items[0], userId, date) {
      FindOnDateIsFirst(items[1..], userId, date);
      var i :| 0 <= i < |items[1..]| && items[1..][i] == FindOnDate(items[1..], userId, date).value
               && forall j :: 0 <= j < i ==> !OnDate(items[1..][j], userId, date);
      assert items[i + 1] == FindOnDate(items, userId, date).value;
      forall j | 0 <= j < i + 1 ensures !OnDate(items[j], userId, date) {
        if j > 0 { assert items[j] == items[1..][j - 1]; }
      }
    }
  }

  /** A stored record of the user on the day of `date` makes the query non-null, whatever the time of day. */
  lemma FindOnDateFindsSameDay(items: seq<CheckIn>, c: CheckIn, date: Timestamp)
    requires c in items && Day(c.created_at) == Day(date)
    ensures FindOnDate(items, c.user_id, date).Some?
  {
    SameDayIffDay(c.created_at, date);
  }

  /** When none of the user's records falls on the day of `date`, the query returns null. */
  lemma FindOnDateMissesOtherDays(items: seq<CheckIn>, userId: UserId, date: Timestamp)
    requires forall c :: c in items && c.user_id == userId ==> Day(c.created_at) != Day(date)
    ensures FindOnDate(items, userId, date) == None
  {
    if FindOnDate(items, userId, date).Some? {
      var c := FindOnDate(items, userId, date).value;
      SameDayIffDay(c.created_at, date);
    }
  }

  /** The store invariant the check-in rule maintains: at most one record per (user, calendar day). */
  predicate AtMostOnePerUserDay(items: seq<CheckIn>)
  {
    forall i, j :: 0 <= i < j < |items| && items[i].user_id == items[j].user_id
      ==> Day(items[i].created_at) != Day(items[j].created_at)
  }

  /** No two stored records share an identifier. */
  predicate DistinctIds(items: seq<CheckIn>)
  {
    forall i, j :: 0 <= i < j < |items| ==> items[i].id != items[j].id
  }

  /** Appending a record whose user has no record on its day keeps at most one per (user, day). */
  lemma AppendKeepsAtMostOnePerUserDay(items: seq<CheckIn>, c: CheckIn)
    requires AtMostOnePerUserDay(items)
    requires FindOnDate(items, c.user_id, c.created_at).None?
    ensures AtMostOnePerUserDay(items + [c])
  {
    var all := items + [c];
    forall i, j | 0 <= i < j < |all| && all[i].user_id == all[j].user_id
      ensures Day(all[i].created_at) != Day(all[j].created_at)
    {
      if j == |items| {
        assert all[i] in items;
        SameDayIffDay(all[i].created_at, c.created_at);
      }
    }
  }
}
