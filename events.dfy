/** Lane-crossing events, as the input array of CountTurns.js holds them. */
module Events {

  /** Vehicle identifiers are opaque; they are compared for equality only. */
  type Vehicle = string

  /** The number of lanes; a region at most NUM_LANES is an entrance, above it an exit. */
  const NUM_LANES: int := 4

  /** One crossing: the lane region (1-8 in well-formed input), a timestamp and the vehicle. */
  datatype Event = Event(region: int, time: int, vehicle: Vehicle)

  predicate IsEntrance(e: Event) {
    e.region <= NUM_LANES
  }

  predicate IsExit(e: Event) {
    e.region > NUM_LANES
  }

  datatype Option<T> = None | Some(value: T)

  /** The entry a table holds for a key, if any. */
  function Lookup<K, V>(m: map<K, V>, k: K): Option<V> {
    if k in m then Some(m[k]) else None
  }
}
