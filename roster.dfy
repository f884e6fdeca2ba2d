/**
 * The records the schedule generator is given: staff members with the stations
 * they may work, stations with the number of people each needs in an hour, and
 * the hour labels of one shift.
 */
module Roster {
  /** A staff member. The name is the key of every table the generator keeps. */
  datatype Staff = Staff(name: string, stations: seq<string>)

  /** A station and the number of people it needs in every hour. */
  datatype Station = Station(name: string, requiredStaff: int)

  datatype Option<T> = None | Some(value: T)

  predicate DistinctStaffNames(staff: seq<Staff>)
  {
    forall i, j | 0 <= i < |staff| && 0 <= j < |staff| && i != j :: staff[i].name != staff[j].name
  }

  predicate DistinctStationNames(stations: seq<Station>)
  {
    forall i, j | 0 <= i < |stations| && 0 <= j < |stations| && i != j :: stations[i].name != stations[j].name
  }

  predicate DistinctHours(hours: seq<string>)
  {
    forall i, j | 0 <= i < |hours| && 0 <= j < |hours| && i != j :: hours[i] != hours[j]
  }

  /** The station dialog accepts only a headcount of at least one. */
  predicate PositiveHeadcounts(stations: seq<Station>)
  {
    forall j | 0 <= j < |stations| :: stations[j].requiredStaff >= 1
  }

  /**
   * A station name is used as an own key of an hour's row and of every
   * member's counter table. The one string that a plain object does not take
   * as an own key on assignment, `"__proto__"`, is not a station name here.
   */
  predicate PlainStationNames(stations: seq<Station>)
  {
    forall j | 0 <= j < |stations| :: stations[j].name != "__proto__"
  }

  /**
   * What the generator relies on: every name is a dictionary key, so staff
   * names, station names and hour labels must each be distinct, every station
   * name must be stored as an own key, and every station needs at least one
   * person.
   */
  predicate WellFormedInputs(staff: seq<Staff>, stations: seq<Station>, hours: seq<string>)
  {
    DistinctStaffNames(staff) && DistinctStationNames(stations) && DistinctHours(hours) &&
    PlainStationNames(stations) && PositiveHeadcounts(stations)
  }

  function StationNames(stations: seq<Station>): set<string>
  {
    set j | 0 <= j < |stations| :: stations[j].name
  }

  function StaffNames(staff: seq<Staff>): set<string>
  {
    set k | 0 <= k < |staff| :: staff[k].name
  }

  /** Some member of the roster called `name` lists `station` among their stations. */
  ghost predicate QualifiedFor(staff: seq<Staff>, name: string, station: string)
  {
    exists k | 0 <= k < |staff| :: staff[k].name == name && station in staff[k].stations
  }
}
