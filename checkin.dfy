/**
 * The check-in use case: a user may check in once per calendar day, at a gym that exists.
 */
module UseCases {
  import opened Wrappers
  import opened Calendar
  import opened GymsRepository
  import opened CheckInsRepository
  import opened InMemory

  /** The request of `execute`; the user's coordinates are accepted but never read. */
  datatype CheckInRequest = CheckInRequest(
    userId: CheckInsRepository.UserId,
    gymId: GymsRepository.GymId,
    userLatitude: real,
    userLongitude: real)

  /** `ResourceNotFoundError`, and the plain `Error` thrown for a second check-in on one day. */
  datatype CheckInError = ResourceNotFound | AlreadyCheckedInToday

  /** What `execute` decides before it writes anything. */
  datatype Verdict = Proceed | Reject(error: CheckInError)

  /** The user has a stored check-in, at any gym, on the calendar day of `now`. */
  predicate CheckedInOnDay(items: seq<CheckIn>, userId: CheckInsRepository.UserId, now: Timestamp)
  {
    exists c :: c in items && c.user_id == userId && Day(c.created_at) == Day(now)
  }

  /** The same-day query is non-null exactly when the user checked in on the day of `now`. */
  lemma FoundIffCheckedInOnDay(items: seq<CheckIn>, userId: CheckInsRepository.UserId, now: Timestamp)
    ensures FindOnDate(items, userId, now).Some? <==> CheckedInOnDay(items, userId, now)
  {
    var found := FindOnDate(items, userId, now);
    if found.Some? {
      SameDayIffDay(found.value.created_at, now);
    } else if CheckedInOnDay(items, userId, now) {
      var c :| c in items && c.user_id == userId && Day(c.created_at) == Day(now);
      FindOnDateFindsSameDay(items, c, now);
    }
  }

  /**
   * The decision of `execute` at instant `now`: the gym lookup comes first, then the
   * same-day query, which is keyed on the user alone.
   */
  function Decide(gyms: map<GymsRepository.GymId, Gym>, items: seq<CheckIn>, req: CheckInRequest, now: Timestamp)
    : (v: Verdict)
    ensures v == Reject(ResourceNotFound) <==> req.gymId !in gyms
    ensures v == Reject(AlreadyCheckedInToday) <==> req.gymId in gyms && CheckedInOnDay(items, req.userId, now)
    ensures v == Proceed <==> req.gymId in gyms && !CheckedInOnDay(items, req.userId, now)
  {
    FoundIffCheckedInOnDay(items, req.userId, now);
    if FindById(gyms, req.gymId).None? then Reject(ResourceNotFound)
    else if FindOnDate(items, req.userId, now).Some? then Reject(AlreadyCheckedInToday)
    else Proceed
  }

  class CheckinUseCase {
    const checkIns: InMemoryCheckInsRepository
    const gyms: map<GymsRepository.GymId, Gym>

    /** The store is well formed, gyms are keyed by id, and no user has two check-ins on one day. */
    ghost predicate Valid()
      reads this, checkIns
    {
      checkIns.Valid() && KeyedById(gyms) && AtMostOnePerUserDay(checkIns.items)
    }

    constructor (checkIns: InMemoryCheckInsRepository, gyms: map<GymsRepository.GymId, Gym>)
      requires checkIns.Valid() && KeyedById(gyms) && AtMostOnePerUserDay(checkIns.items)
      ensures Valid() && this.checkIns == checkIns && this.gyms == gyms
    {
      this.checkIns := checkIns;
      this.gyms := gyms;
    }

    /**
     * `execute` at instant `now`: fails without writing when the gym is unknown or the user
     * already checked in today; otherwise appends exactly one new check-in and returns it.
     */
    method Execute(req: CheckInRequest, now: Timestamp) returns (r: Result<CheckIn, CheckInError>)
      requires Valid()
      modifies checkIns
      ensures Valid()
      ensures Decide(gyms, old(checkIns.items), req, now) == Reject(ResourceNotFound)
              ==> r == Failure(ResourceNotFound)
      ensures Decide(gyms, old(checkIns.items), req, now) == Reject(AlreadyCheckedInToday)
              ==> r == Failure(AlreadyCheckedInToday)
      ensures r.Failure? ==> checkIns.items == old(checkIns.items) && checkIns.nextId == old(checkIns.nextId)
      ensures Decide(gyms, old(checkIns.items), req, now) == Proceed ==> r.Success?
      ensures r.Success? ==>
                && checkIns.items == old(checkIns.items) + [r.value]
                && checkIns.nextId == old(checkIns.nextId) + 1
                && r.value.user_id == req.userId
                && r.value.gym_id == req.gymId
                && r.value.created_at == now
                && r.value.is_validated == None
                && forall x :: x in old(checkIns.items) ==> x.id != r.value.id
    {
      var gym := FindById(gyms, req.gymId);
      if gym.None? {
        return Failure(ResourceNotFound);
      }
      var checkInOnSameDate := checkIns.FindByUserIdOnDate(req.userId, now);
      if checkInOnSameDate.Some? {
        return Failure(AlreadyCheckedInToday);
      }
      ghost var before := checkIns.items;
      var checkIn := checkIns.Create(CheckInCreateInput(req.userId, req.gymId, None), now);
      AppendKeepsAtMostOnePerUserDay(before, checkIn);
      return Success(checkIn);
    }
  }

  /** The outcome does not depend on the user's coordinates. */
  lemma DecideIgnoresLocation(gyms: map<GymsRepository.GymId, Gym>, items: seq<CheckIn>, req: CheckInRequest,
                              lat: real, lon: real, now: Timestamp)
    ensures Decide(gyms, items, req, now) == Decide(gyms, items, req.(userLatitude := lat, userLongitude := lon), now)
  {
  }

  /**
   * Once a check-in of the user on the day of `now` is stored, at whatever gym, another
   * request of that user at a known gym that day is refused.
   */
  lemma SameDayRepeatRejected(gyms: map<GymsRepository.GymId, Gym>, items: seq<CheckIn>, c: CheckIn,
                              req: CheckInRequest, now: Timestamp)
    requires req.gymId in gyms
    requires c.user_id == req.userId && Day(c.created_at) == Day(now)
    ensures Decide(gyms, items + [c], req, now) == Reject(AlreadyCheckedInToday)
  {
    assert c in items + [c];
  }

  /** A user whose check-ins all lie on earlier days is accepted at a known gym. */
  lemma LaterDayAccepted(gyms: map<GymsRepository.GymId, Gym>, items: seq<CheckIn>, req: CheckInRequest, now: Timestamp)
    requires req.gymId in gyms
    requires forall c :: c in items && c.user_id == req.userId ==> Day(c.created_at) < Day(now)
    ensures Decide(gyms, items, req, now) == Proceed
  {
  }

  /** On an empty store the first check-in at a known gym is accepted. */
  lemma FirstCheckInAccepted(gyms: map<GymsRepository.GymId, Gym>, req: CheckInRequest, now: Timestamp)
    requires req.gymId in gyms
    ensures Decide(gyms, [], req, now) == Proceed
  {
  }
}
