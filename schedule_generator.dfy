/**
 * The fair schedule generator: for every hour, station by station and seat by
 * seat, it places the available, qualified staff member who has worked that
 * station least, skipping anyone already recorded as having worked with the
 * station's first assignee.
 */
module ScheduleGenerator {
  import opened Roster
  import opened PairTable
  import opened ScheduleSpec
  import opened ChoiceRule

  /** The roster members not yet placed in the current hour, in roster order. */
  function AvailableStaff(staff: seq<Staff>, busy: set<string>): (r: seq<Staff>)
    ensures |r| <= |staff|
  {
    if staff == [] then []
    else (if staff[0].name in busy then [] else [staff[0]]) + AvailableStaff(staff[1..], busy)
  }

  /** One step of the filter: a busy head is dropped, a free one is kept in front. */
  lemma AvailableStaffStep(staff: seq<Staff>, busy: set<string>)
    requires |staff| > 0
    ensures staff[0].name in busy ==> AvailableStaff(staff, busy) == AvailableStaff(staff[1..], busy)
    ensures staff[0].name !in busy ==> AvailableStaff(staff, busy) == [staff[0]] + AvailableStaff(staff[1..], busy)
  {
  }

  /** The filter keeps exactly the roster members whose names are not busy. */
  lemma {:induction false} AvailableStaffMembers(staff: seq<Staff>, busy: set<string>)
    ensures forall m :: m in AvailableStaff(staff, busy) <==> m in staff && m.name !in busy
  {
    if staff != [] {
      AvailableStaffStep(staff, busy);
      AvailableStaffMembers(staff[1..], busy);
      assert staff == [staff[0]] + staff[1..];
    }
  }

  /**
   * The filter keeps roster order: whenever member `i` comes before member `q`
   * in the roster and neither is busy, `i` comes before any occurrence of `q`
   * in the filtered list.
   */
  lemma {:induction false} AvailableStaffKeepsOrder(staff: seq<Staff>, busy: set<string>, i: nat, q: nat, p: nat)
    requires DistinctStaffNames(staff)
    requires i < q < |staff| && staff[i].name !in busy
    requires p < |AvailableStaff(staff, busy)| && AvailableStaff(staff, busy)[p] == staff[q]
    ensures exists p' | 0 <= p' < p :: AvailableStaff(staff, busy)[p'] == staff[i]
  {
    var r := AvailableStaff(staff, busy);
    var rest := staff[1..];
    var r' := AvailableStaff(rest, busy);
    AvailableStaffStep(staff, busy);
    DistinctStaffNamesTail(staff);
    assert rest[q - 1] == staff[q];
    var w: nat;
    if staff[0].name in busy {
      assert rest[i - 1] == staff[i];
      AvailableStaffKeepsOrder(rest, busy, i - 1, q - 1, p);
      w :| 0 <= w < p && r'[w] == staff[i];
    } else if i == 0 {
      assert staff[0].name != staff[q].name;
      w := 0;
    } else {
      assert staff[0].name != staff[q].name;
      assert r'[p - 1] == staff[q] && rest[i - 1] == staff[i];
      AvailableStaffKeepsOrder(rest, busy, i - 1, q - 1, p - 1);
      var w' :| 0 <= w' < p - 1 && r'[w'] == staff[i];
      w := w' + 1;
    }
    assert 0 <= w < p && r[w] == staff[i];
  }

  lemma DistinctStaffNamesTail(staff: seq<Staff>)
    requires DistinctStaffNames(staff) && |staff| > 0
    ensures DistinctStaffNames(staff[1..])
  {
    var rest := staff[1..];
    forall x, y | 0 <= x < |rest| && 0 <= y < |rest| && x != y ensures rest[x].name != rest[y].name {
      assert rest[x] == staff[x + 1] && rest[y] == staff[y + 1];
    }
  }

  /** One member's counters before any hour: a zero for every station they may work. */
  method ZeroCounts(qualified: seq<string>) returns (counts: map<string, nat>)
    ensures counts.Keys == set s | s in qualified
    ensures forall s | s in counts :: counts[s] == 0
  {
    counts := map[];
    var t := 0;
    while t < |qualified|
      invariant 0 <= t <= |qualified|
      invariant counts.Keys == set s | s in qualified[..t]
      invariant forall s | s in counts :: counts[s] == 0
    {
      counts := counts[qualified[t] := 0];
      assert qualified[..t + 1] == qualified[..t] + [qualified[t]];
      t := t + 1;
    }
    assert qualified[..t] == qualified;
  }

  /** The counter table before any hour: a zero for every station each member may work. */
  method InitialCounters(staff: seq<Staff>) returns (counters: Counters)
    requires DistinctStaffNames(staff)
    ensures counters.Keys == StaffNames(staff)
    ensures forall k | 0 <= k < |staff| :: counters[staff[k].name].Keys == (set s | s in staff[k].stations)
    ensures forall n, s | n in counters && s in counters[n] :: counters[n][s] == 0
  {
    counters := map[];
    var i := 0;
    while i < |staff|
      invariant 0 <= i <= |staff|
      invariant counters.Keys == set k | 0 <= k < i :: staff[k].name
      invariant forall k | 0 <= k < i :: counters[staff[k].name].Keys == (set s | s in staff[k].stations)
      invariant forall n, s | n in counters && s in counters[n] :: counters[n][s] == 0
    {
      var member := staff[i];
      var counts := ZeroCounts(member.stations);
      assert forall k | 0 <= k < i :: staff[k].name != member.name;
      counters := counters[member.name := counts];
      assert (set k | 0 <= k < i + 1 :: staff[k].name) == (set k | 0 <= k < i :: staff[k].name) + {member.name};
      i := i + 1;
    }
  }

  /** The schedule before any hour: every hour has every station, each with an empty list. */
  method InitialSchedule(hours: seq<string>, stations: seq<Station>) returns (sch: Schedule)
    ensures Shaped(sch, hours, stations)
    ensures forall h, s | h in sch && s in sch[h] :: sch[h][s] == []
  {
    sch := map[];
    var i := 0;
    while i < |hours|
      invariant 0 <= i <= |hours|
      invariant sch.Keys == set h | h in hours[..i]
      invariant forall h | h in sch :: sch[h].Keys == StationNames(stations)
      invariant forall h, s | h in sch && s in sch[h] :: sch[h][s] == []
    {
      var hour := hours[i];
      var row: Row := map[];
      var j := 0;
      while j < |stations|
        invariant 0 <= j <= |stations|
        invariant row.Keys == StationNames(stations[..j])
        invariant forall s | s in row :: row[s] == []
      {
        row := row[stations[j].name := []];
        assert StationNames(stations[..j + 1]) == StationNames(stations[..j]) + {stations[j].name} by {
          assert forall x | 0 <= x < j :: stations[..j + 1][x] == stations[..j][x];
        }
        j := j + 1;
      }
      assert stations[..j] == stations;
      sch := sch[hour := row];
      assert hours[..i + 1] == hours[..i] + [hour];
      i := i + 1;
    }
    assert hours[..i] == hours;
  }

  /**
   * The state of one generation run: the schedule being filled in, the
   * per-(staff, station) counters and the pair table.
   */
  class FairScheduler {
    const staff: seq<Staff>
    const stations: seq<Station>
    const hours: seq<string>
    var schedule: Schedule
    var staffAssignments: Counters
    var staffPairs: seq<StaffPair>

    /** The invariant of the run, stated on the current values of the fields. */
    ghost predicate Valid()
      reads this
    {
      RunInvariant(staff, stations, hours, schedule, staffAssignments, staffPairs)
    }

    /** Sets every counter to 0 and every slot to an empty list. */
    constructor (staff: seq<Staff>, stations: seq<Station>, hours: seq<string>)
      requires WellFormedInputs(staff, stations, hours)
      ensures this.staff == staff && this.stations == stations && this.hours == hours
      ensures Valid() && EmptyFrom(schedule, hours, stations, 0, 0)
      ensures forall h, s | h in schedule && s in schedule[h] :: schedule[h][s] == []
      ensures forall n, s | n in staffAssignments && s in staffAssignments[n] :: staffAssignments[n][s] == 0
      ensures staffPairs == []
    {
      var counters := InitialCounters(staff);
      var sch := InitialSchedule(hours, stations);
      EmptyInvariant(staff, stations, hours, sch, counters);
      this.staff := staff;
      this.stations := stations;
      this.hours := hours;
      schedule := sch;
      staffAssignments := counters;
      staffPairs := [];
    }

    /**
     * Whether the first entry of the table naming the two, in either order,
     * has a count of at least one.
     */
    function HaveWorkedTogether(staff1: string, staff2: string): (r: bool)
      reads this
      ensures r ==> exists i | 0 <= i < |staffPairs| :: Matches(staffPairs[i], staff1, staff2) && staffPairs[i].count >= 1
      ensures (forall i | 0 <= i < |staffPairs| :: staffPairs[i].count >= 1) ==>
        (r <==> exists i | 0 <= i < |staffPairs| :: Matches(staffPairs[i], staff1, staff2))
    {
      match FindPair(staffPairs, staff1, staff2)
      case Some(i) => staffPairs[i].count >= 1
      case None => false
    }

    /** The lookup is symmetric in its two arguments. */
    lemma HaveWorkedTogetherSymmetric(staff1: string, staff2: string)
      ensures HaveWorkedTogether(staff1, staff2) == HaveWorkedTogether(staff2, staff1)
    {
      FindPairSymmetric(staffPairs, staff1, staff2);
    }

    /**
     * Records that the two worked together: the count of the existing entry for
     * the pair goes up by one, otherwise a new entry with count 1 is added.
     */
    method RecordStaffPair(staff1: string, staff2: string)
      modifies this`staffPairs
      ensures staffPairs == Recorded(old(staffPairs), staff1, staff2)
      ensures HaveWorkedTogether(staff1, staff2) && HaveWorkedTogether(staff2, staff1)
    {
      var existingPair := FindPair(staffPairs, staff1, staff2);
      if existingPair.Some? {
        var i := existingPair.value;
        staffPairs := staffPairs[i := staffPairs[i].(count := staffPairs[i].count + 1)];
      } else {
        staffPairs := staffPairs + [StaffPair(staff1, staff2, 1)];
      }
      assert staffPairs == Recorded(old(staffPairs), staff1, staff2);
      RecordedFinds(old(staffPairs), staff1, staff2);
      HaveWorkedTogetherSymmetric(staff1, staff2);
    }

    /** With every count positive, a pair never found worked together has no entry at all. */
    lemma NotWorkedTogetherNotFound(staff1: string, staff2: string)
      requires forall i | 0 <= i < |staffPairs| :: staffPairs[i].count >= 1
      requires !HaveWorkedTogether(staff1, staff2)
      ensures FindPair(staffPairs, staff2, staff1).None?
    {
      FindPairSymmetric(staffPairs, staff1, staff2);
    }

    /** The counter of `name` at `station`, or 0 when there is none. */
    function AssignmentCount(name: string, station: string): nat
      reads this
    {
      if name in staffAssignments && station in staffAssignments[name] then staffAssignments[name][station] else 0
    }

    /**
     * May `m` take the next seat at `station` in `hour`: qualified, not already
     * on the station's list, and not recorded with its first assignee.
     */
    predicate IsCandidate(station: string, hour: string, current: seq<string>, m: Staff)
      reads this
      requires hour in schedule && station in schedule[hour]
    {
      station in m.stations &&
      m.name !in schedule[hour][station] &&
      (|current| == 0 || !HaveWorkedTogether(m.name, current[0]))
    }

    /** The candidates among `available`, in their order there. */
    function Candidates(station: string, hour: string, available: seq<Staff>, current: seq<string>): (q: seq<Staff>)
      reads this
      requires hour in schedule && station in schedule[hour]
      ensures |q| <= |available|
    {
      if available == [] then []
      else
        (if IsCandidate(station, hour, current, available[0]) then [available[0]] else []) +
        Candidates(station, hour, available[1..], current)
    }

    /** The candidates are exactly the members of `available` that are candidates. */
    lemma {:induction false} CandidatesMembers(station: string, hour: string, available: seq<Staff>, current: seq<string>)
      requires hour in schedule && station in schedule[hour]
      ensures forall m :: m in Candidates(station, hour, available, current) <==>
        m in available && IsCandidate(station, hour, current, m)
    {
      if available != [] {
        CandidatesMembers(station, hour, available[1..], current);
        assert available == [available[0]] + available[1..];
      }
    }

    /**
     * The position of the first element of `q` with the least counter at
     * `station`: the head of `q` after a stable ascending sort by that counter.
     */
    function EarliestLeast(q: seq<Staff>, station: string): (k: nat)
      reads this
      requires |q| > 0
      ensures k < |q|
      ensures forall i | 0 <= i < |q| :: AssignmentCount(q[k].name, station) <= AssignmentCount(q[i].name, station)
      ensures forall i | 0 <= i < k :: AssignmentCount(q[i].name, station) > AssignmentCount(q[k].name, station)
    {
      if |q| == 1 then 0
      else
        var k' := EarliestLeast(q[1..], station);
        if AssignmentCount(q[0].name, station) <= AssignmentCount(q[1 + k'].name, station) then 0 else 1 + k'
    }

    /**
     * `m`, at position `p` of `available`, is a candidate with the least counter
     * among all candidates there, and every candidate before it has a larger one.
     */
    ghost predicate ChosenAmong(station: string, hour: string, current: seq<string>, available: seq<Staff>, m: Staff, p: int)
      reads this
      requires hour in schedule && station in schedule[hour]
    {
      0 <= p < |available| && available[p] == m && IsCandidate(station, hour, current, m) &&
      (forall i | 0 <= i < |available| && IsCandidate(station, hour, current, available[i]) ::
        AssignmentCount(m.name, station) <= AssignmentCount(available[i].name, station)) &&
      (forall i | 0 <= i < p && IsCandidate(station, hour, current, available[i]) ::
        AssignmentCount(available[i].name, station) > AssignmentCount(m.name, station))
    }

    /** A choice among the tail stays a choice among the whole list when the head does not beat it. */
    lemma ChosenAmongTail(station: string, hour: string, current: seq<string>, available: seq<Staff>, m: Staff, p: int)
      requires hour in schedule && station in schedule[hour]
      requires |available| > 0 && ChosenAmong(station, hour, current, available[1..], m, p)
      requires IsCandidate(station, hour, current, available[0]) ==>
                 AssignmentCount(available[0].name, station) > AssignmentCount(m.name, station)
      ensures ChosenAmong(station, hour, current, available, m, p + 1)
    {
      var rest := available[1..];
      forall i | 0 < i < |available|
        ensures available[i] == rest[i - 1]
      {
      }
    }

    /** The earliest least candidate of the filtered list is the earliest least candidate of `available`. */
    lemma {:induction false} EarliestLeastInAvailable(station: string, hour: string, available: seq<Staff>, current: seq<string>)
      requires hour in schedule && station in schedule[hour]
      requires |Candidates(station, hour, available, current)| > 0
      ensures var q := Candidates(station, hour, available, current);
              exists p :: ChosenAmong(station, hour, current, available, q[EarliestLeast(q, station)], p)
    {
      var q := Candidates(station, hour, available, current);
      var k := EarliestLeast(q, station);
      var m := q[k];
      var rest := available[1..];
      var q' := Candidates(station, hour, rest, current);
      CandidatesMembers(station, hour, available, current);
      if IsCandidate(station, hour, current, available[0]) {
        assert q == [available[0]] + q';
        if k == 0 {
          assert ChosenAmong(station, hour, current, available, m, 0);
        } else {
          assert q[1..] == q';
          assert m == q'[EarliestLeast(q', station)];
          EarliestLeastInAvailable(station, hour, rest, current);
          var p' :| ChosenAmong(station, hour, current, rest, m, p');
          ChosenAmongTail(station, hour, current, available, m, p');
        }
      } else {
        assert q == q';
        EarliestLeastInAvailable(station, hour, rest, current);
        var p' :| ChosenAmong(station, hour, current, rest, m, p');
        ChosenAmongTail(station, hour, current, available, m, p');
      }
    }

    /**
     * The member to place on the next seat: none when no one in `available` is
     * a candidate; otherwise the candidate with the least counter at the
     * station, ties going to the earliest in `available`.
     */
    function FindBestStaffMember(station: string, hour: string, available: seq<Staff>, current: seq<string>): (r: Option<Staff>)
      reads this
      requires hour in schedule && station in schedule[hour]
      ensures r.None? <==> forall i | 0 <= i < |available| :: !IsCandidate(station, hour, current, available[i])
      ensures r.Some? ==> exists p :: ChosenAmong(station, hour, current, available, r.value, p)
    {
      var qualified := Candidates(station, hour, available, current);
      CandidatesMembers(station, hour, available, current);
      if |qualified| == 0 then None
      else
        EarliestLeastInAvailable(station, hour, available, current);
        Some(qualified[EarliestLeast(qualified, station)])
    }

    /**
     * Roster member `q` is outside `busy`, a candidate, with a counter at the
     * station no larger than that of any candidate outside `busy`, and
     * strictly smaller than that of every such candidate earlier in the roster.
     */
    ghost predicate RosterBest(station: string, hour: string, busy: set<string>, current: seq<string>, q: int)
      reads this
      requires hour in schedule && station in schedule[hour]
    {
      0 <= q < |staff| && staff[q].name !in busy && IsCandidate(station, hour, current, staff[q]) &&
      (forall i | 0 <= i < |staff| && staff[i].name !in busy && IsCandidate(station, hour, current, staff[i]) ::
        AssignmentCount(staff[q].name, station) <= AssignmentCount(staff[i].name, station)) &&
      (forall i | 0 <= i < q && staff[i].name !in busy && IsCandidate(station, hour, current, staff[i]) ::
        AssignmentCount(staff[i].name, station) > AssignmentCount(staff[q].name, station))
    }

    /**
     * The choice rule stated on the roster: the member chosen from the staff not
     * in `busy` is a candidate with the least counter at the station among all
     * such candidates, and every such candidate earlier in the roster has a
     * larger counter.
     */
    lemma BestInRosterOrder(station: string, hour: string, busy: set<string>, current: seq<string>)
      requires DistinctStaffNames(staff)
      requires hour in schedule && station in schedule[hour]
      ensures var best := FindBestStaffMember(station, hour, AvailableStaff(staff, busy), current);
              best.Some? ==> exists q | 0 <= q < |staff| && staff[q] == best.value :: RosterBest(station, hour, busy, current, q)
    {
      var available := AvailableStaff(staff, busy);
      var best := FindBestStaffMember(station, hour, available, current);
      AvailableStaffMembers(staff, busy);
      if best.Some? {
        var m := best.value;
        var p :| ChosenAmong(station, hour, current, available, m, p);
        assert m in staff;
        var q :| 0 <= q < |staff| && staff[q] == m;
        forall i | 0 <= i < |staff| && staff[i].name !in busy && IsCandidate(station, hour, current, staff[i])
          ensures AssignmentCount(m.name, station) <= AssignmentCount(staff[i].name, station)
        {
          assert staff[i] in available;
        }
        forall i | 0 <= i < q && staff[i].name !in busy && IsCandidate(station, hour, current, staff[i])
          ensures AssignmentCount(staff[i].name, station) > AssignmentCount(m.name, station)
        {
          AvailableStaffKeepsOrder(staff, busy, i, q, p);
        }
        assert RosterBest(station, hour, busy, current, q);
      }
    }

    /**
     * While station `station` of hour `h` is being filled with `l`, a roster
     * member is a candidate outside the hour's busy names exactly when it is
     * eligible by the rule against the names placed before the station and
     * the table as it stood before the station.
     */
    lemma EligibleBridge(h: string, station: Station, l: seq<string>, busy: set<string>,
                         busy0: set<string>, pairs0: seq<StaffPair>, m: Staff)
      requires h in schedule && station.name in schedule[h] && schedule[h][station.name] == l
      requires forall i | 0 <= i < |staffPairs| :: staffPairs[i].count >= 1
      requires staffPairs == pairs0 + LeadPair(l) && busy == busy0 + Names(l)
      ensures (m.name !in busy && IsCandidate(station.name, h, l, m)) <==> Eligible(m, station, l, busy0, pairs0)
    {
      if |l| > 0 && m.name !in l {
        LeadPairNoMatch(pairs0, l, m.name);
      }
    }

    /** Every counter at station `s` of a member qualified for it is the member's number of hours there. */
    ghost predicate CountsAt(s: string)
      reads this
    {
      forall i | 0 <= i < |staff| && s in staff[i].stations ::
        AssignmentCount(staff[i].name, s) == HoursAt(schedule, hours, staff[i].name, s)
    }

    lemma CountsAtFromCounters(s: string)
      requires CountersAgree(staffAssignments, schedule, staff, hours)
      ensures CountsAt(s)
    {
      forall i | 0 <= i < |staff| && s in staff[i].stations
        ensures AssignmentCount(staff[i].name, s) == HoursAt(schedule, hours, staff[i].name, s)
      {
        assert staff[i].name in StaffNames(staff);
      }
    }

    /** What the choice of one seat at station `s` needs of the run invariant. */
    lemma SeatFacts(s: string)
      requires Valid()
      ensures DistinctStaffNames(staff) && CountsAt(s)
      ensures forall i | 0 <= i < |staffPairs| :: staffPairs[i].count >= 1
    {
      CountsAtFromCounters(s);
    }

    /**
     * While station `s` of hour `h` is being filled with `l`, the counter of a
     * member qualified for it and not on the list is its number of hours
     * there before the station.
     */
    lemma CountBridge(h: string, s: string, l: seq<string>, sch0: Schedule, i: nat)
      requires CountsAt(s)
      requires i < |staff| && s in staff[i].stations && staff[i].name !in l
      requires h in sch0 && s in sch0[h] && sch0[h][s] == []
      requires schedule == sch0[h := sch0[h][s := l]]
      ensures AssignmentCount(staff[i].name, s) == HoursAt(sch0, hours, staff[i].name, s)
    {
      HoursAtFill(sch0, hours, h, s, l, staff[i].name, s);
    }

    /**
     * The next seat of a station follows the rule: while the station's list is
     * `l`, the member FindBestStaffMember picks is the one the rule picks
     * against the state at the start of the station, and when it picks
     * nobody, nobody is eligible.
     */
    lemma SeatChoice(h: string, station: Station, l: seq<string>, busy: set<string>,
                     busy0: set<string>, sch0: Schedule, pairs0: seq<StaffPair>)
      requires DistinctStaffNames(staff) && CountsAt(station.name)
      requires forall i | 0 <= i < |staffPairs| :: staffPairs[i].count >= 1
      requires h in sch0 && station.name in sch0[h] && sch0[h][station.name] == []
      requires schedule == sch0[h := sch0[h][station.name := l]]
      requires staffPairs == pairs0 + LeadPair(l) && busy == busy0 + Names(l)
      ensures var best := FindBestStaffMember(station.name, h, AvailableStaff(staff, busy), l);
              (best.Some? ==> ChosenAt(staff, station, l + [best.value.name], |l|, busy0, sch0, hours, pairs0)) &&
              (best.None? ==> NoneEligible(staff, station, l, busy0, pairs0))
    {
      if FindBestStaffMember(station.name, h, AvailableStaff(staff, busy), l).Some? {
        SeatChoiceSome(h, station, l, busy, busy0, sch0, pairs0);
      } else {
        SeatChoiceNone(h, station, l, busy, busy0, sch0, pairs0);
      }
    }

    /**
     * SeatChoice in the form one seat of FillSeat needs it: the pick extends
     * the list by the rule's choice, so somebody was eligible; no pick means
     * nobody was.
     */
    lemma SeatRule(h: string, station: Station, l: seq<string>, busy: set<string>,
                   busy0: set<string>, sch0: Schedule, pairs0: seq<StaffPair>)
      requires Valid() && Seated(h, station, l, busy, busy0, sch0, pairs0)
      ensures var best := FindBestStaffMember(station.name, h, AvailableStaff(staff, busy), l);
              (best.Some? ==> !NoneEligible(staff, station, l, busy0, pairs0) &&
                              ChosenUpTo(staff, station, l + [best.value.name], busy0, sch0, hours, pairs0)) &&
              (best.None? ==> NoneEligible(staff, station, l, busy0, pairs0))
    {
      SeatFacts(station.name);
      SeatChoice(h, station, l, busy, busy0, sch0, pairs0);
      var best := FindBestStaffMember(station.name, h, AvailableStaff(staff, busy), l);
      if best.Some? {
        var n := best.value.name;
        ChosenUpToAppend(staff, station, l, n, busy0, sch0, hours, pairs0);
        var q :| 0 <= q < |staff| && staff[q].name == (l + [n])[|l|] && Best(staff, station, (l + [n])[..|l|], q, busy0, sch0, hours, pairs0);
        assert (l + [n])[..|l|] == l;
        assert Eligible(staff[q], station, l, busy0, pairs0);
      }
    }

    lemma SeatChoiceSome(h: string, station: Station, l: seq<string>, busy: set<string>,
                         busy0: set<string>, sch0: Schedule, pairs0: seq<StaffPair>)
      requires DistinctStaffNames(staff) && CountsAt(station.name)
      requires forall i | 0 <= i < |staffPairs| :: staffPairs[i].count >= 1
      requires h in sch0 && station.name in sch0[h] && sch0[h][station.name] == []
      requires schedule == sch0[h := sch0[h][station.name := l]]
      requires staffPairs == pairs0 + LeadPair(l) && busy == busy0 + Names(l)
      requires FindBestStaffMember(station.name, h, AvailableStaff(staff, busy), l).Some?
      ensures var m := FindBestStaffMember(station.name, h, AvailableStaff(staff, busy), l).value;
              ChosenAt(staff, station, l + [m.name], |l|, busy0, sch0, hours, pairs0)
    {
      var s := station.name;
      BestInRosterOrder(s, h, busy, l);
      var m := FindBestStaffMember(s, h, AvailableStaff(staff, busy), l).value;
      var q :| 0 <= q < |staff| && staff[q] == m && RosterBest(s, h, busy, l, q);
      EligibleBridge(h, station, l, busy, busy0, pairs0, m);
      CountBridge(h, s, l, sch0, q);
      forall i | 0 <= i < |staff| && Eligible(staff[i], station, l, busy0, pairs0)
        ensures HoursAt(sch0, hours, m.name, s) <= HoursAt(sch0, hours, staff[i].name, s)
      {
        EligibleBridge(h, station, l, busy, busy0, pairs0, staff[i]);
        CountBridge(h, s, l, sch0, i);
      }
      forall i | 0 <= i < q && Eligible(staff[i], station, l, busy0, pairs0)
        ensures HoursAt(sch0, hours, staff[i].name, s) > HoursAt(sch0, hours, m.name, s)
      {
        EligibleBridge(h, station, l, busy, busy0, pairs0, staff[i]);
        CountBridge(h, s, l, sch0, i);
      }
      assert (l + [m.name])[..|l|] == l;
      assert Best(staff, station, l, q, busy0, sch0, hours, pairs0);
    }

    lemma SeatChoiceNone(h: string, station: Station, l: seq<string>, busy: set<string>,
                         busy0: set<string>, sch0: Schedule, pairs0: seq<StaffPair>)
      requires DistinctStaffNames(staff) && CountsAt(station.name)
      requires forall i | 0 <= i < |staffPairs| :: staffPairs[i].count >= 1
      requires h in sch0 && station.name in sch0[h] && sch0[h][station.name] == []
      requires schedule == sch0[h := sch0[h][station.name := l]]
      requires staffPairs == pairs0 + LeadPair(l) && busy == busy0 + Names(l)
      requires FindBestStaffMember(station.name, h, AvailableStaff(staff, busy), l).None?
      ensures NoneEligible(staff, station, l, busy0, pairs0)
    {
      var available := AvailableStaff(staff, busy);
      AvailableStaffMembers(staff, busy);
      forall i | 0 <= i < |staff| ensures !Eligible(staff[i], station, l, busy0, pairs0) {
        EligibleBridge(h, station, l, busy, busy0, pairs0, staff[i]);
        if staff[i].name !in busy {
          assert staff[i] in available;
        }
      }
    }

    /**
     * Places `n` on the next seat of station `s` in hour `h`: the name is
     * appended to the station's list and its counter there goes up by one;
     * when the list then has two names, the pair is recorded.
     */
    method Place(h: string, s: string, n: string)
      requires h in schedule && s in schedule[h] && n in staffAssignments && s in staffAssignments[n]
      requires |schedule[h][s]| == 1 ==> FindPair(staffPairs, schedule[h][s][0], n).None?
      modifies this
      ensures schedule == Append(old(schedule), h, s, n)
      ensures staffAssignments == Increment(old(staffAssignments), n, s)
      ensures staffPairs == old(staffPairs) + NewPair(old(schedule)[h][s], n)
    {
      var current := schedule[h][s];
      schedule := Append(schedule, h, s, n);
      staffAssignments := Increment(staffAssignments, n, s);
      if |current| + 1 == 2 {
        RecordStaffPair(current[0], n);
      }
    }

    /**
     * One seat of station `j` in hour `k`: the best candidate among the staff
     * not yet placed in the hour takes it. With no candidate the seat stays
     * empty and nothing changes.
     */
    method FillSeat(k: nat, j: nat, hourly: set<string>, current: seq<string>,
                    ghost busy0: set<string>, ghost sch0: Schedule, ghost pairs0: seq<StaffPair>)
      returns (hourly': set<string>, current': seq<string>)
      requires SeatReady(k, j, hourly, current, busy0, sch0, pairs0)
      requires |current| < stations[j].requiredStaff
      modifies this
      ensures SeatReady(k, j, hourly', current', busy0, sch0, pairs0)
      ensures var best := old(FindBestStaffMember(stations[j].name, hours[k], AvailableStaff(staff, hourly), current));
              match best
              case None =>
                schedule == old(schedule) && staffAssignments == old(staffAssignments) && staffPairs == old(staffPairs) &&
                hourly' == hourly && current' == current
              case Some(m) =>
                var sa := old(staffAssignments);
                m.name in sa && stations[j].name in sa[m.name] &&
                current' == current + [m.name] && hourly' == hourly + {m.name} &&
                schedule == Append(old(schedule), hours[k], stations[j].name, m.name) &&
                staffAssignments == Increment(sa, m.name, stations[j].name) &&
                staffPairs == old(staffPairs) + NewPair(current, m.name)
      ensures schedule == old(schedule)[hours[k] := old(schedule)[hours[k]][stations[j].name := current']]
      ensures hourly' == hourly + Names(current') && old(staffPairs) <= staffPairs && current <= current'
      ensures current' == current <==> NoneEligible(staff, stations[j], current, busy0, pairs0)
    {
      var h, s := hours[k], stations[j].name;
      var availableStaff := AvailableStaff(staff, hourly);
      var bestStaff := FindBestStaffMember(s, h, availableStaff, current);
      AvailableStaffMembers(staff, hourly);
      NamesIn(schedule[h], s, hourly);
      SeatRule(h, stations[j], current, hourly, busy0, sch0, pairs0);
      hourly', current' := hourly, current;
      if bestStaff.Some? {
        var m := bestStaff.value;
        ghost var p :| ChosenAmong(s, h, current, availableStaff, m, p);
        assert m in staff && m.name !in hourly;
        if |current| > 0 {
          NotWorkedTogetherNotFound(m.name, current[0]);
        }
        ghost var km :| 0 <= km < |staff| && staff[km] == m;
        SeatKeepsInvariant(staff, stations, hours, schedule, staffAssignments, staffPairs, k, j, km, hourly);
        Place(h, s, m.name);
        current' := current' + [m.name];
        hourly' := hourly' + {m.name};
        BusyAfterAppend(hourly, current, m.name);
        LeadPairAppend(pairs0, current, m.name);
        assert (current + [m.name])[..|current|] == current;
      } else {
        RewriteSlot(schedule, h, s);
      }
      RewriteSlotTwice(sch0, h, s, current, current');
      BusyChain(busy0, hourly, hourly', current, current');
    }

    /**
     * With no candidate left among the members outside `busy`, every such
     * member qualified for the station is kept off it by the pair rule.
     */
    lemma NoCandidateSaturated(station: Station, hour: string, busy: set<string>, l: seq<string>)
      requires hour in schedule && station.name in schedule[hour] && l == schedule[hour][station.name]
      requires Names(l) <= busy
      requires FindBestStaffMember(station.name, hour, AvailableStaff(staff, busy), l).None?
      ensures Saturated(staff, station, l, busy, staffPairs)
    {
      var available := AvailableStaff(staff, busy);
      AvailableStaffMembers(staff, busy);
      forall i | 0 <= i < |staff| && staff[i].name !in busy && station.name in staff[i].stations
        ensures |l| > 0 && FindPair(staffPairs, staff[i].name, l[0]).Some?
      {
        assert staff[i] in available;
        assert staff[i].name !in l;
        assert !IsCandidate(station.name, hour, l, staff[i]);
      }
    }

    /**
     * Station `j` of hour `k`: up to `requiredStaff` seats, filled one after
     * the other. A seat with no candidate stays empty, and no error is raised:
     * at the end the station is either full or nobody else may join it. Only
     * the station's own list changes, the hour's busy set gains exactly its
     * names, and the pair table only grows at its end.
     */
    method FillStation(k: nat, j: nat, hourly: set<string>) returns (hourly': set<string>)
      requires Valid()
      requires k < |hours| && j < |stations|
      requires EmptyFrom(schedule, hours, stations, k, j)
      requires RowNamesIn(schedule[hours[k]], hourly)
      modifies this
      ensures Valid() && EmptyFrom(schedule, hours, stations, k, j + 1)
      ensures RowNamesIn(schedule[hours[k]], hourly')
      ensures var l := schedule[hours[k]][stations[j].name];
              schedule == old(schedule)[hours[k] := old(schedule)[hours[k]][stations[j].name := l]] &&
              hourly' == hourly + Names(l) &&
              old(staffPairs) <= staffPairs
      ensures var l := schedule[hours[k]][stations[j].name];
              |l| == stations[j].requiredStaff ||
              FindBestStaffMember(stations[j].name, hours[k], AvailableStaff(staff, hourly'), l).None?
      ensures Saturated(staff, stations[j], schedule[hours[k]][stations[j].name], hourly', staffPairs)
      ensures StationChoices(staff, stations[j], schedule[hours[k]][stations[j].name], hourly, old(schedule), hours, old(staffPairs))
    {
      var h, s := hours[k], stations[j].name;
      var neededStaff := stations[j].requiredStaff;
      var stationAssignments: seq<string> := [];
      ghost var sch, pairs0 := schedule, staffPairs;
      StationStart(k, j, hourly);
      hourly' := hourly;
      var i := 0;
      while i < neededStaff
        invariant 0 <= i <= neededStaff && |stationAssignments| <= i
        invariant SeatReady(k, j, hourly', stationAssignments, hourly, sch, pairs0)
        invariant |stationAssignments| == i || NoneEligible(staff, stations[j], stationAssignments, hourly, pairs0)
      {
        hourly', stationAssignments := FillSeat(k, j, hourly', stationAssignments, hourly, sch, pairs0);
        i := i + 1;
      }
      StationDone(h, stations[j], stationAssignments, hourly', hourly, sch, pairs0);
    }

    /**
     * The state partway through a station: its slot, empty in `sch0`, now holds
     * `l`; the hour's names and the pair table grew by `l` alone; and every
     * seat of `l` went to the member the rule picks from the station's start.
     */
    ghost predicate Seated(h: string, station: Station, l: seq<string>, busy: set<string>,
                           busy0: set<string>, sch0: Schedule, pairs0: seq<StaffPair>)
      reads this
    {
      h in sch0 && station.name in sch0[h] && sch0[h][station.name] == [] &&
      schedule == sch0[h := sch0[h][station.name := l]] &&
      staffPairs == pairs0 + LeadPair(l) && busy == busy0 + Names(l) &&
      ChosenUpTo(staff, station, l, busy0, sch0, hours, pairs0)
    }

    /**
     * Everything a seat of station `j` in hour `k` needs and keeps: the run
     * invariant, the later slots still empty, the list so far and the hour's
     * names as they stand, and the station's progress against its start.
     */
    ghost predicate SeatReady(k: nat, j: nat, hourly: set<string>, current: seq<string>,
                              busy0: set<string>, sch0: Schedule, pairs0: seq<StaffPair>)
      reads this
    {
      Valid() && k < |hours| && j < |stations| &&
      EmptyFrom(schedule, hours, stations, k, j + 1) &&
      hours[k] in schedule && stations[j].name in schedule[hours[k]] &&
      current == schedule[hours[k]][stations[j].name] &&
      RowNamesIn(schedule[hours[k]], hourly) &&
      Seated(hours[k], stations[j], current, hourly, busy0, sch0, pairs0)
    }

    /** A station about to be filled: its slot is empty and nothing of it is placed yet. */
    lemma StationStart(k: nat, j: nat, hourly: set<string>)
      requires Valid()
      requires k < |hours| && j < |stations|
      requires EmptyFrom(schedule, hours, stations, k, j)
      requires RowNamesIn(schedule[hours[k]], hourly)
      ensures SeatReady(k, j, hourly, [], hourly, schedule, staffPairs)
    {
      var h, s := hours[k], stations[j].name;
      assert s in StationNames(stations);
      assert Slot(schedule, h, s) == [];
      RewriteSlot(schedule, h, s);
      assert staffPairs == staffPairs + LeadPair([]);
      assert hourly == hourly + Names([]);
    }

    /**
     * A station whose seats were all tried: short only when FindBestStaffMember
     * finds nobody, in which case nobody outside the hour's names may join it,
     * and its list is the one the rule builds from the state at its start.
     */
    lemma StationDone(h: string, station: Station, l: seq<string>, busy: set<string>,
                      busy0: set<string>, sch0: Schedule, pairs0: seq<StaffPair>)
      requires Valid()
      requires Seated(h, station, l, busy, busy0, sch0, pairs0) && |l| <= station.requiredStaff
      requires |l| == station.requiredStaff || NoneEligible(staff, station, l, busy0, pairs0)
      ensures |l| == station.requiredStaff || FindBestStaffMember(station.name, h, AvailableStaff(staff, busy), l).None?
      ensures Saturated(staff, station, l, busy, staffPairs)
      ensures StationChoices(staff, station, l, busy0, sch0, hours, pairs0)
    {
      if |l| != station.requiredStaff {
        SeatRule(h, station, l, busy, busy0, sch0, pairs0);
        NoCandidateSaturated(station, h, busy, l);
      }
    }

    /**
     * Hour `k`: every station in turn, each one drawing on the staff not yet
     * placed in the hour. Only the hour's own row changes, and at the end
     * every station of the hour is full or nobody outside the hour's names
     * may join it.
     */
    method GenerateHour(k: nat)
      requires Valid() && k < |hours| && EmptyFrom(schedule, hours, stations, k, 0)
      modifies this
      ensures Valid() && EmptyFrom(schedule, hours, stations, k + 1, 0)
      ensures hours[k] in schedule && schedule == old(schedule)[hours[k] := schedule[hours[k]]]
      ensures old(staffPairs) <= staffPairs
      ensures StationsSaturated(staff, stations, schedule, hours[k], |stations|, HourNames(schedule[hours[k]]), staffPairs)
      ensures HourFair(staff, stations, hours, schedule, k, |stations|)
    {
      var h := hours[k];
      var hourlyAssignments: set<string> := {};
      EmptyHour(schedule, hours, stations, k);
      var j := 0;
      while j < |stations|
        invariant 0 <= j <= |stations|
        invariant Valid() && EmptyFrom(schedule, hours, stations, k, j)
        invariant h in schedule && RowNamesIn(schedule[h], hourlyAssignments)
        invariant hourlyAssignments == HourNames(schedule[h])
        invariant schedule == old(schedule)[h := schedule[h]]
        invariant old(staffPairs) <= staffPairs
        invariant StationsSaturated(staff, stations, schedule, h, j, hourlyAssignments, staffPairs)
        invariant hourlyAssignments == NamesBefore(schedule, h, stations, j)
        invariant HourFair(staff, stations, hours, schedule, k, j)
      {
        ghost var sch0, busy0, pairs0 := schedule, hourlyAssignments, staffPairs;
        assert Slot(schedule, h, stations[j].name) == [];
        assert pairs0 == TablePairs(sch0, hours, stations);
        hourlyAssignments := FillStation(k, j, hourlyAssignments);
        ghost var l := schedule[h][stations[j].name];
        RewriteRowTwice(old(schedule), h, sch0[h], sch0[h][stations[j].name := l]);
        HourNamesFill(sch0[h], stations[j].name, l);
        StationsSaturatedStep(staff, stations, sch0, h, j, l, busy0, hourlyAssignments, pairs0, staffPairs);
        HourFairStep(staff, stations, hours, sch0, k, j, l, busy0, pairs0);
        NamesBeforeStep(sch0, h, stations, j, l);
        j := j + 1;
      }
    }

    /**
     * Every hour in turn. At the end every station of every hour is full or
     * nobody outside that hour's names may join it.
     */
    method Run()
      requires Valid() && EmptyFrom(schedule, hours, stations, 0, 0)
      modifies this
      ensures Valid()
      ensures HoursSaturated(staff, stations, hours, schedule, |hours|, staffPairs)
      ensures RunFair(staff, stations, hours, schedule, |hours|)
    {
      var k := 0;
      while k < |hours|
        invariant 0 <= k <= |hours|
        invariant Valid() && EmptyFrom(schedule, hours, stations, k, 0)
        invariant HoursSaturated(staff, stations, hours, schedule, k, staffPairs)
        invariant RunFair(staff, stations, hours, schedule, k)
      {
        ghost var sch0, pairs0 := schedule, staffPairs;
        GenerateHour(k);
        HoursSaturatedStep(staff, stations, hours, sch0, k, schedule[hours[k]], pairs0, staffPairs);
        RunFairStep(staff, stations, hours, sch0, k, schedule[hours[k]]);
        k := k + 1;
      }
    }
  }

  /**
   * The generated schedule: one entry per hour, one list per station in every
   * hour; no list longer than the station's headcount; every name placed
   * belongs to a member qualified for the station; nobody twice in an hour;
   * and no two lists share the same first two names. A list left short is
   * not an error: every roster member qualified for its station and not
   * placed anywhere in that hour was kept off it because the table pairs
   * them with the list's first name.
   */
  method GenerateFairSchedule(staff: seq<Staff>, stations: seq<Station>, hours: seq<string>) returns (schedule: Schedule)
    requires WellFormedInputs(staff, stations, hours)
    ensures Shaped(schedule, hours, stations)
    ensures ScheduleOk(schedule, staff, stations)
    ensures UniquePairs(TablePairs(schedule, hours, stations))
    ensures forall k, j | 0 <= k < |hours| && 0 <= j < |stations| ::
              Saturated(staff, stations[j], Slot(schedule, hours[k], stations[j].name),
                        HourNamesAt(schedule, hours[k]), TablePairs(schedule, hours, stations))
    ensures forall k, j | 0 <= k < |hours| && 0 <= j < |stations| ::
              StationChoices(staff, stations[j], Slot(schedule, hours[k], stations[j].name),
                             NamesBefore(schedule, hours[k], stations, j), schedule, hours[..k],
                             PairsBefore(schedule, hours, stations, k, j))
  {
    var generator := new FairScheduler(staff, stations, hours);
    generator.Run();
    schedule := generator.schedule;
    forall k, j | 0 <= k < |hours| && 0 <= j < |stations|
      ensures StationChoices(staff, stations[j], Slot(schedule, hours[k], stations[j].name),
                             NamesBefore(schedule, hours[k], stations, j), schedule, hours[..k],
                             PairsBefore(schedule, hours, stations, k, j))
    {
      assert HourFair(staff, stations, hours, schedule, k, |stations|);
      assert SlotFair(staff, stations, hours, schedule, k, j);
    }
  }
}
