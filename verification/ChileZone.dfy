/** Time zones with Chile's two offsets, in any unit of time that divides an hour into `hour` parts. */
module ChileZone {

  /** The offset in force at each instant. */
  type Zone = int -> int

  ghost predicate TwoValued(zone: Zone, hour: int) {
    forall t :: zone(t) == -3 * hour || zone(t) == -4 * hour
  }
}
