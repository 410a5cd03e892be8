/** The gym store: a read-only lookup of gyms by identifier. */
module GymsRepository {
  import opened Wrappers

  type GymId = string

  /** A gym; `Decimal` coordinates are modelled as reals. */
  datatype Gym = Gym(
    id: GymId,
    title: string,
    description: string,
    phone: string,
    latitude: real,
    longitude: real)

  /** Every gym is stored under its own identifier. */
  predicate KeyedById(gyms: map<GymId, Gym>)
  {
    forall k :: k in gyms ==> gyms[k].id == k
  }

  /** `findById`: the gym stored under `id`, or `None` when there is none (absence is not an error). */
  function FindById(gyms: map<GymId, Gym>, id: GymId): (r: Option<Gym>)
    ensures r.Some? <==> id in gyms
    ensures r.Some? ==> r.value == gyms[id]
    ensures r.Some? && KeyedById(gyms) ==> r.value.id == id
  {
    if id in gyms then Some(gyms[id]) else None
  }
}
