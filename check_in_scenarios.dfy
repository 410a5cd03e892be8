/** The check-in scenarios of the use case's test suite, as a client of the verified contracts. */
module Scenarios {
  import opened Wrappers
  import opened GymsRepository
  import opened CheckInsRepository
  import opened InMemory
  import opened UseCases

  /** 2022-01-20T08:00:00Z and 2022-01-21T08:00:00Z in milliseconds since the epoch. */
  const January20At8: int := 1_642_665_600_000
  const January21At8: int := 1_642_752_000_000

  /**
   * Checks in at gym-01, is refused a second time that day, succeeds again the next day with a new id,
   * and is refused at a gym that does not exist.
   */
  method CheckInOncePerDay()
    returns (first: Result<CheckIn, CheckInError>, again: Result<CheckIn, CheckInError>,
             nextDay: Result<CheckIn, CheckInError>, elsewhere: Result<CheckIn, CheckInError>)
    ensures first.Success? && first.value.user_id == "user-01" && first.value.gym_id == "gym-01"
    ensures again == Failure(AlreadyCheckedInToday)
    ensures nextDay.Success? && nextDay.value.id != first.value.id
    ensures elsewhere == Failure(ResourceNotFound)
  {
    var store := new InMemoryCheckInsRepository();
    var gym := Gym("gym-01", "Minha academia", "", "", 12.1, 12.1);
    var sut := new CheckinUseCase(store, map["gym-01" := gym]);
    var req := CheckInRequest("user-01", "gym-01", 0.0, 0.0);

    first := sut.Execute(req, January20At8);
    again := sut.Execute(req, January20At8);
    nextDay := sut.Execute(req, January21At8);
    elsewhere := sut.Execute(req.(gymId := "gym-02"), January21At8);
  }
}
