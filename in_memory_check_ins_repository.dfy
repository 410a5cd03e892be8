/** The array-backed check-in store used as the test double of the persistent store. */
module InMemory {
  import opened Wrappers
  import opened Calendar
  import opened CheckInsRepository

  class InMemoryCheckInsRepository {
    /** The stored check-ins, in insertion order. */
    var items: seq<CheckIn>
    /** The next identifier the fresh-id generator hands out. */
    var nextId: CheckInId

    /** Every stored identifier was handed out before, so the next one is fresh, and none repeats. */
    ghost predicate Valid()
      reads this
    {
      (forall i :: 0 <= i < |items| ==> items[i].id < nextId) && DistinctIds(items)
    }

    constructor ()
      ensures Valid() && items == []
    {
      items := [];
      nextId := 0;
    }

    /**
     * `create`: stamps a fresh identifier and the current instant `now`, copies the user and the gym,
     * sets the validation timestamp only from a truthy input, appends the record and returns it.
     */
    method Create(data: CheckInCreateInput, now: Timestamp) returns (c: CheckIn)
      requires Valid()
      modifies this
      ensures Valid()
      ensures items == old(items) + [c]
      ensures nextId == old(nextId) + 1
      ensures c.user_id == data.user_id && c.gym_id == data.gym_id
      ensures c.created_at == now
      ensures c.is_validated == ValidatedAt(data.is_validated)
      ensures forall x :: x in old(items) ==> x.id != c.id
    {
      c := CheckIn(nextId, data.user_id, data.gym_id, now, ValidatedAt(data.is_validated));
      items := items + [c];
      nextId := nextId + 1;
    }

    /** `findByUserIdOnDate`: a linear scan for the first record of `userId` on the day of `date`. */
    method FindByUserIdOnDate(userId: UserId, date: Timestamp) returns (r: Option<CheckIn>)
      ensures r == FindOnDate(items, userId, date)
    {
      var i := 0;
      while i < |items|
        invariant 0 <= i <= |items|
        invariant FindOnDate(items[i..], userId, date) == FindOnDate(items, userId, date)
      {
        assert items[i..][1..] == items[i + 1..];
        if OnDate(items[i], userId, date) {
          return Some(items[i]);
        }
        i := i + 1;
      }
      return None;
    }
  }
}
