/**
 * What a generated schedule is and what it must satisfy, stated on values:
 * hour -> station -> the names assigned there, in the order they were chosen.
 */
module ScheduleSpec {
  import opened Roster
  import opened PairTable

  type Row = map<string, seq<string>>
  type Schedule = map<string, Row>
  type Counters = map<string, map<string, nat>>

  /** The names at (`h`, `s`), or none when the schedule has no such slot. */
  function Slot(sch: Schedule, h: string, s: string): seq<string>
  {
    if h in sch && s in sch[h] then sch[h][s] else []
  }

  /** `n` is appended to the list at (`h`, `s`). */
  function Append(sch: Schedule, h: string, s: string, n: string): Schedule
    requires h in sch && s in sch[h]
  {
    sch[h := sch[h][s := sch[h][s] + [n]]]
  }

  /** One entry per hour, and in every hour one entry per station. */
  ghost predicate Shaped(sch: Schedule, hours: seq<string>, stations: seq<Station>)
  {
    sch.Keys == (set h | h in hours) &&
    forall h | h in sch :: sch[h].Keys == StationNames(stations)
  }

  ghost predicate WithinCapacity(row: Row, stations: seq<Station>)
  {
    forall j | 0 <= j < |stations| && stations[j].name in row ::
      |row[stations[j].name]| <= stations[j].requiredStaff
  }

  ghost predicate RowQualified(row: Row, staff: seq<Staff>)
  {
    forall s, i | s in row && 0 <= i < |row[s]| :: QualifiedFor(staff, row[s][i], s)
  }

  /** A name occurs at most once in an hour: under one station, and once in its list. */
  ghost predicate NoDoubleBooking(row: Row)
  {
    forall s1, i1, s2, i2 |
      s1 in row && s2 in row && 0 <= i1 < |row[s1]| && 0 <= i2 < |row[s2]| && row[s1][i1] == row[s2][i2] ::
      s1 == s2 && i1 == i2
  }

  ghost predicate RowOk(row: Row, staff: seq<Staff>, stations: seq<Station>)
  {
    WithinCapacity(row, stations) && RowQualified(row, staff) && NoDoubleBooking(row)
  }

  ghost predicate ScheduleOk(sch: Schedule, staff: seq<Staff>, stations: seq<Station>)
  {
    forall h | h in sch :: RowOk(sch[h], staff, stations)
  }

  /** Every name placed in the hour is in `busy`. */
  ghost predicate RowNamesIn(row: Row, busy: set<string>)
  {
    forall s, i | s in row && 0 <= i < |row[s]| :: row[s][i] in busy
  }

  /** The number of hours of `hs` in which `name` works at `station`. */
  function HoursAt(sch: Schedule, hs: seq<string>, name: string, station: string): nat
  {
    if hs == [] then 0
    else (if name in Slot(sch, hs[0], station) then 1 else 0) + HoursAt(sch, hs[1..], name, station)
  }

  /**
   * The counter table has one row per staff member, one counter per station the
   * member may work, and each counter is the number of hours worked there.
   */
  ghost predicate CountersAgree(sa: Counters, sch: Schedule, staff: seq<Staff>, hours: seq<string>)
  {
    sa.Keys == StaffNames(staff) &&
    forall k | 0 <= k < |staff| ::
      sa[staff[k].name].Keys == (set s | s in staff[k].stations) &&
      forall s | s in sa[staff[k].name] :: sa[staff[k].name][s] == HoursAt(sch, hours, staff[k].name, s)
  }

  /** The entry a list contributes to the table: its first two names, once they exist. */
  function LeadPair(l: seq<string>): seq<StaffPair>
  {
    if |l| >= 2 then [StaffPair(l[0], l[1], 1)] else []
  }

  /** The pair a slot contributes to the table. */
  function SlotPair(sch: Schedule, h: string, s: string): seq<StaffPair>
  {
    LeadPair(Slot(sch, h, s))
  }

  function RowPairs(sch: Schedule, h: string, sts: seq<Station>): seq<StaffPair>
  {
    if sts == [] then [] else SlotPair(sch, h, sts[0].name) + RowPairs(sch, h, sts[1..])
  }

  /** The pairs of all slots, hour by hour and station by station. */
  function TablePairs(sch: Schedule, hs: seq<string>, sts: seq<Station>): seq<StaffPair>
  {
    if hs == [] then [] else RowPairs(sch, hs[0], sts) + TablePairs(sch, hs[1..], sts)
  }

  /** The entry added when `n` joins the list `l`. */
  function NewPair(l: seq<string>, n: string): seq<StaffPair>
  {
    if |l| == 1 then [StaffPair(l[0], n, 1)] else []
  }

  /**
   * Every slot not yet reached is still empty: in hour `k` the stations from
   * `j` on, and all stations of the hours after `k`.
   */
  ghost predicate EmptyFrom(sch: Schedule, hours: seq<string>, stations: seq<Station>, k: nat, j: nat)
  {
    (k < |hours| ==> forall j' | j <= j' < |stations| :: Slot(sch, hours[k], stations[j'].name) == []) &&
    (forall k', j' | k < k' < |hours| && 0 <= j' < |stations| :: Slot(sch, hours[k'], stations[j'].name) == [])
  }

  /** Appending a fresh, qualified name to a station with a free seat keeps the hour valid. */
  lemma AppendKeepsRowOk(row: Row, staff: seq<Staff>, stations: seq<Station>, j: nat, n: string)
    requires RowOk(row, staff, stations) && DistinctStationNames(stations)
    requires j < |stations| && stations[j].name in row
    requires |row[stations[j].name]| < stations[j].requiredStaff
    requires QualifiedFor(staff, n, stations[j].name)
    requires forall s, i | s in row && 0 <= i < |row[s]| :: row[s][i] != n
    ensures RowOk(row[stations[j].name := row[stations[j].name] + [n]], staff, stations)
  {
  }

  /** Appending `n` at (`h`, `s`) adds one hour to `n`'s count there and changes no other count. */
  lemma {:induction false} HoursAtAfterAppend(sch: Schedule, hs: seq<string>, h: string, s: string, n: string, x: string, t: string)
    requires h in sch && s in sch[h] && n !in sch[h][s] && DistinctHours(hs)
    ensures HoursAt(Append(sch, h, s, n), hs, x, t)
         == HoursAt(sch, hs, x, t) + (if x == n && t == s && h in hs then 1 else 0)
  {
    if hs != [] {
      assert DistinctHours(hs[1..]) by {
        forall i, j | 0 <= i < |hs[1..]| && 0 <= j < |hs[1..]| && i != j ensures hs[1..][i] != hs[1..][j] {
          assert hs[1..][i] == hs[i + 1] && hs[1..][j] == hs[j + 1];
        }
      }
      HoursAtAfterAppend(sch, hs[1..], h, s, n, x, t);
      assert h in hs <==> h == hs[0] || h in hs[1..] by {
        assert hs == [hs[0]] + hs[1..];
      }
      if hs[0] == h {
        assert h !in hs[1..] by {
          forall i | 0 <= i < |hs[1..]| ensures hs[1..][i] != h {
            assert hs[1..][i] == hs[i + 1];
          }
        }
      }
    }
  }

  /** With every slot empty, nobody has worked anywhere. */
  lemma {:induction false} HoursAtEmpty(sch: Schedule, hs: seq<string>, x: string, t: string)
    requires forall h, s | h in sch && s in sch[h] :: sch[h][s] == []
    ensures HoursAt(sch, hs, x, t) == 0
  {
    if hs != [] {
      HoursAtEmpty(sch, hs[1..], x, t);
    }
  }

  /** The pairs of an hour depend only on the lists of that hour. */
  lemma {:induction false} RowPairsFrame(sch: Schedule, sch': Schedule, h: string, sts: seq<Station>)
    requires forall j | 0 <= j < |sts| :: Slot(sch, h, sts[j].name) == Slot(sch', h, sts[j].name)
    ensures RowPairs(sch, h, sts) == RowPairs(sch', h, sts)
  {
    if sts != [] {
      assert Slot(sch, h, sts[0].name) == Slot(sch', h, sts[0].name);
      RowPairsFrame(sch, sch', h, sts[1..]);
    }
  }

  lemma {:induction false} TablePairsFrame(sch: Schedule, sch': Schedule, hs: seq<string>, sts: seq<Station>)
    requires forall k, j | 0 <= k < |hs| && 0 <= j < |sts| :: Slot(sch, hs[k], sts[j].name) == Slot(sch', hs[k], sts[j].name)
    ensures TablePairs(sch, hs, sts) == TablePairs(sch', hs, sts)
  {
    if hs != [] {
      RowPairsFrame(sch, sch', hs[0], sts);
      TablePairsFrame(sch, sch', hs[1..], sts);
    }
  }

  /** The pairs of an hour, split between two runs of stations. */
  lemma {:induction false} RowPairsConcat(sch: Schedule, h: string, a: seq<Station>, b: seq<Station>)
    ensures RowPairs(sch, h, a + b) == RowPairs(sch, h, a) + RowPairs(sch, h, b)
  {
    if a != [] {
      assert (a + b)[1..] == a[1..] + b;
      RowPairsConcat(sch, h, a[1..], b);
    } else {
      assert a + b == b;
    }
  }

  /** The pairs of the table, split between two runs of hours. */
  lemma {:induction false} TablePairsConcat(sch: Schedule, a: seq<string>, b: seq<string>, sts: seq<Station>)
    ensures TablePairs(sch, a + b, sts) == TablePairs(sch, a, sts) + TablePairs(sch, b, sts)
  {
    if a != [] {
      assert (a + b)[1..] == a[1..] + b;
      TablePairsConcat(sch, a[1..], b, sts);
    } else {
      assert a + b == b;
    }
  }

  lemma {:induction false} RowPairsEmpty(sch: Schedule, h: string, sts: seq<Station>)
    requires forall j | 0 <= j < |sts| :: Slot(sch, h, sts[j].name) == []
    ensures RowPairs(sch, h, sts) == []
  {
    if sts != [] {
      assert Slot(sch, h, sts[0].name) == [];
      RowPairsEmpty(sch, h, sts[1..]);
    }
  }

  /** Empty slots contribute no pair. */
  lemma {:induction false} TablePairsEmpty(sch: Schedule, hs: seq<string>, sts: seq<Station>)
    requires forall k, j | 0 <= k < |hs| && 0 <= j < |sts| :: Slot(sch, hs[k], sts[j].name) == []
    ensures TablePairs(sch, hs, sts) == []
  {
    if hs != [] {
      RowPairsEmpty(sch, hs[0], sts);
      TablePairsEmpty(sch, hs[1..], sts);
    }
  }

  /**
   * Changing one slot of an hour, all of whose later slots are empty before and
   * after, changes the hour's pairs only at their end.
   */
  lemma {:induction false} RowPairsChangeAt(sch: Schedule, sch': Schedule, h: string, sts: seq<Station>, j: nat, extra: seq<StaffPair>)
    requires j < |sts|
    requires forall i | 0 <= i < j :: Slot(sch, h, sts[i].name) == Slot(sch', h, sts[i].name)
    requires forall i | j < i < |sts| :: Slot(sch, h, sts[i].name) == [] && Slot(sch', h, sts[i].name) == []
    requires SlotPair(sch', h, sts[j].name) == SlotPair(sch, h, sts[j].name) + extra
    ensures RowPairs(sch', h, sts) == RowPairs(sch, h, sts) + extra
  {
    var rest := sts[1..];
    if j == 0 {
      forall i | 0 <= i < |rest| ensures Slot(sch, h, rest[i].name) == [] && Slot(sch', h, rest[i].name) == [] {
        assert rest[i] == sts[i + 1];
      }
      RowPairsEmpty(sch, h, rest);
      RowPairsEmpty(sch', h, rest);
    } else {
      forall i | 0 <= i < j - 1 ensures Slot(sch, h, rest[i].name) == Slot(sch', h, rest[i].name) {
        assert rest[i] == sts[i + 1];
      }
      forall i | j - 1 < i < |rest| ensures Slot(sch, h, rest[i].name) == [] && Slot(sch', h, rest[i].name) == [] {
        assert rest[i] == sts[i + 1];
      }
      assert rest[j - 1] == sts[j];
      assert SlotPair(sch, h, sts[0].name) == SlotPair(sch', h, sts[0].name) by {
        assert Slot(sch, h, sts[0].name) == Slot(sch', h, sts[0].name);
      }
      RowPairsChangeAt(sch, sch', h, rest, j - 1, extra);
    }
    ConcatShift(SlotPair(sch, h, sts[0].name), SlotPair(sch', h, sts[0].name), RowPairs(sch, h, rest), RowPairs(sch', h, rest), extra);
  }

  lemma ConcatShift<T>(p: seq<T>, p': seq<T>, r: seq<T>, r': seq<T>, extra: seq<T>)
    requires (p' == p && r' == r + extra) || (r == [] && r' == [] && p' == p + extra)
    ensures p' + r' == (p + r) + extra
  {
  }

  /** The same, one level up: one hour changes and all later hours stay empty. */
  lemma {:induction false} TablePairsChangeAt(sch: Schedule, sch': Schedule, hs: seq<string>, sts: seq<Station>, k: nat, extra: seq<StaffPair>)
    requires k < |hs|
    requires forall i, j | 0 <= i < k && 0 <= j < |sts| :: Slot(sch, hs[i], sts[j].name) == Slot(sch', hs[i], sts[j].name)
    requires forall i, j | k < i < |hs| && 0 <= j < |sts| :: Slot(sch, hs[i], sts[j].name) == [] && Slot(sch', hs[i], sts[j].name) == []
    requires RowPairs(sch', hs[k], sts) == RowPairs(sch, hs[k], sts) + extra
    ensures TablePairs(sch', hs, sts) == TablePairs(sch, hs, sts) + extra
  {
    var rest := hs[1..];
    if k == 0 {
      forall i, j | 0 <= i < |rest| && 0 <= j < |sts|
        ensures Slot(sch, rest[i], sts[j].name) == [] && Slot(sch', rest[i], sts[j].name) == []
      {
        assert rest[i] == hs[i + 1];
      }
      TablePairsEmpty(sch, rest, sts);
      TablePairsEmpty(sch', rest, sts);
    } else {
      forall i, j | 0 <= i < k - 1 && 0 <= j < |sts|
        ensures Slot(sch, rest[i], sts[j].name) == Slot(sch', rest[i], sts[j].name)
      {
        assert rest[i] == hs[i + 1];
      }
      forall i, j | k - 1 < i < |rest| && 0 <= j < |sts|
        ensures Slot(sch, rest[i], sts[j].name) == [] && Slot(sch', rest[i], sts[j].name) == []
      {
        assert rest[i] == hs[i + 1];
      }
      assert rest[k - 1] == hs[k];
      forall j | 0 <= j < |sts| ensures Slot(sch, hs[0], sts[j].name) == Slot(sch', hs[0], sts[j].name) {
      }
      RowPairsFrame(sch, sch', hs[0], sts);
      TablePairsChangeAt(sch, sch', rest, sts, k - 1, extra);
    }
    ConcatShift(RowPairs(sch, hs[0], sts), RowPairs(sch', hs[0], sts), TablePairs(sch, rest, sts), TablePairs(sch', rest, sts), extra);
  }

  /**
   * When every later slot is still empty, appending `n` at slot (`k`, `j`) adds
   * an entry to the end of the table exactly when it becomes that slot's second
   * name: only positions 0 and 1 of a list ever form a pair.
   */
  lemma TablePairsAfterAppend(sch: Schedule, hours: seq<string>, stations: seq<Station>, k: nat, j: nat, n: string)
    requires DistinctHours(hours) && DistinctStationNames(stations)
    requires k < |hours| && j < |stations|
    requires hours[k] in sch && stations[j].name in sch[hours[k]]
    requires EmptyFrom(sch, hours, stations, k, j + 1)
    ensures TablePairs(Append(sch, hours[k], stations[j].name, n), hours, stations)
         == TablePairs(sch, hours, stations) + NewPair(sch[hours[k]][stations[j].name], n)
  {
    var h, s := hours[k], stations[j].name;
    var sch' := Append(sch, h, s, n);
    var l := sch[h][s];
    assert Slot(sch', h, s) == l + [n];
    assert SlotPair(sch', h, s) == SlotPair(sch, h, s) + NewPair(l, n);
    forall y | y != s ensures Slot(sch', h, y) == Slot(sch, h, y) { }
    forall x, y | x != h ensures Slot(sch', x, y) == Slot(sch, x, y) { }
    RowPairsChangeAt(sch, sch', h, stations, j, NewPair(l, n));
    TablePairsChangeAt(sch, sch', hours, stations, k, NewPair(l, n));
  }

  /** Placing a qualified name with a free seat, not yet placed in the hour, keeps the shape and every hour valid. */
  lemma AppendKeepsScheduleOk(sch: Schedule, hours: seq<string>, staff: seq<Staff>, stations: seq<Station>, h: string, j: nat, n: string)
    requires Shaped(sch, hours, stations) && ScheduleOk(sch, staff, stations) && DistinctStationNames(stations)
    requires h in sch && j < |stations|
    requires |sch[h][stations[j].name]| < stations[j].requiredStaff
    requires QualifiedFor(staff, n, stations[j].name)
    requires forall s, i | s in sch[h] && 0 <= i < |sch[h][s]| :: sch[h][s][i] != n
    ensures Shaped(Append(sch, h, stations[j].name, n), hours, stations)
    ensures ScheduleOk(Append(sch, h, stations[j].name, n), staff, stations)
  {
    assert stations[j].name in StationNames(stations);
    AppendKeepsRowOk(sch[h], staff, stations, j, n);
  }

  /** Placing `n` at (`h`, `s`) and adding one to its counter there keeps the counters in step. */
  lemma AppendKeepsCounters(sa: Counters, sch: Schedule, staff: seq<Staff>, hours: seq<string>, h: string, s: string, km: nat)
    requires CountersAgree(sa, sch, staff, hours) && DistinctStaffNames(staff) && DistinctHours(hours)
    requires h in sch && s in sch[h] && h in hours
    requires km < |staff| && s in staff[km].stations && staff[km].name !in sch[h][s]
    ensures var n := staff[km].name;
            n in sa && s in sa[n] &&
            CountersAgree(Increment(sa, n, s), Append(sch, h, s, n), staff, hours)
  {
    var n := staff[km].name;
    assert n in StaffNames(staff);
    var sa' := Increment(sa, n, s);
    var sch' := Append(sch, h, s, n);
    forall k | 0 <= k < |staff|
      ensures sa'[staff[k].name].Keys == (set t | t in staff[k].stations)
      ensures forall t | t in sa'[staff[k].name] :: sa'[staff[k].name][t] == HoursAt(sch', hours, staff[k].name, t)
    {
      assert staff[k].name == n ==> k == km;
      forall t | t in sa'[staff[k].name]
        ensures sa'[staff[k].name][t] == HoursAt(sch', hours, staff[k].name, t)
      {
        HoursAtAfterAppend(sch, hours, h, s, n, staff[k].name, t);
      }
    }
  }

  /** Filling slot (`k`, `j`) leaves the slots after it empty. */
  lemma AppendKeepsEmptyFrom(sch: Schedule, hours: seq<string>, stations: seq<Station>, k: nat, j: nat, n: string)
    requires DistinctHours(hours) && DistinctStationNames(stations)
    requires k < |hours| && j < |stations|
    requires hours[k] in sch && stations[j].name in sch[hours[k]]
    requires EmptyFrom(sch, hours, stations, k, j + 1)
    ensures EmptyFrom(Append(sch, hours[k], stations[j].name, n), hours, stations, k, j + 1)
  {
    var sch' := Append(sch, hours[k], stations[j].name, n);
    forall j' | j + 1 <= j' < |stations| ensures Slot(sch', hours[k], stations[j'].name) == [] {
      assert stations[j'].name != stations[j].name;
    }
    forall k', j' | k < k' < |hours| && 0 <= j' < |stations| ensures Slot(sch', hours[k'], stations[j'].name) == [] {
      assert hours[k'] != hours[k];
    }
  }

  /** A name placed in the hour joins the hour's busy set. */
  lemma AppendKeepsRowNamesIn(row: Row, s: string, n: string, busy: set<string>)
    requires RowNamesIn(row, busy) && s in row
    ensures RowNamesIn(row[s := row[s] + [n]], busy + {n})
  {
  }

  /** `n`'s counter at `s` one higher. */
  function Increment(sa: Counters, n: string, s: string): (sa': Counters)
    requires n in sa && s in sa[n]
    ensures sa'.Keys == sa.Keys && sa'[n].Keys == sa[n].Keys && sa'[n][s] == sa[n][s] + 1
    ensures forall x | x in sa && x != n :: sa'[x] == sa[x]
    ensures forall t | t in sa[n] && t != s :: sa'[n][t] == sa[n][t]
  {
    sa[n := sa[n][s := sa[n][s] + 1]]
  }

  /**
   * The invariant of a generation run, on the state's values: the schedule has
   * its fixed shape and every hour is valid, the counters count hours worked,
   * and the pair table holds, in order and once each, the first two names of
   * every slot that has two, each with count 1.
   */
  ghost predicate RunInvariant(staff: seq<Staff>, stations: seq<Station>, hours: seq<string>,
                               sch: Schedule, sa: Counters, pairs: seq<StaffPair>)
  {
    WellFormedInputs(staff, stations, hours) &&
    Shaped(sch, hours, stations) &&
    ScheduleOk(sch, staff, stations) &&
    CountersAgree(sa, sch, staff, hours) &&
    pairs == TablePairs(sch, hours, stations) &&
    UniquePairs(pairs) &&
    (forall i | 0 <= i < |pairs| :: pairs[i].count == 1)
  }

  /**
   * The state before any hour: every list empty, every counter 0 and no pair
   * recorded satisfies the run invariant, with every slot still to be reached.
   */
  lemma EmptyInvariant(staff: seq<Staff>, stations: seq<Station>, hours: seq<string>, sch: Schedule, sa: Counters)
    requires WellFormedInputs(staff, stations, hours)
    requires Shaped(sch, hours, stations) && forall h, s | h in sch && s in sch[h] :: sch[h][s] == []
    requires sa.Keys == StaffNames(staff)
    requires forall k | 0 <= k < |staff| :: sa[staff[k].name].Keys == (set s | s in staff[k].stations)
    requires forall n, s | n in sa && s in sa[n] :: sa[n][s] == 0
    ensures RunInvariant(staff, stations, hours, sch, sa, []) && EmptyFrom(sch, hours, stations, 0, 0)
  {
    forall k, s | 0 <= k < |staff| && s in sa[staff[k].name]
      ensures sa[staff[k].name][s] == HoursAt(sch, hours, staff[k].name, s)
    {
      assert staff[k].name in StaffNames(staff);
      HoursAtEmpty(sch, hours, staff[k].name, s);
    }
    assert CountersAgree(sa, sch, staff, hours);
    assert ScheduleOk(sch, staff, stations);
    TablePairsEmpty(sch, hours, stations);
  }

  /**
   * One seat filled: member `km`, qualified for station `j`, not yet placed in
   * hour `k` and never paired with the station's first name, is appended to
   * the station's list. The invariant holds of the new schedule, the
   * incremented counters and the table with the new pair at its end.
   */
  lemma SeatKeepsInvariant(staff: seq<Staff>, stations: seq<Station>, hours: seq<string>,
                           sch: Schedule, sa: Counters, pairs: seq<StaffPair>,
                           k: nat, j: nat, km: nat, busy: set<string>)
    requires RunInvariant(staff, stations, hours, sch, sa, pairs)
    requires k < |hours| && j < |stations| && km < |staff|
    requires EmptyFrom(sch, hours, stations, k, j + 1)
    requires |sch[hours[k]][stations[j].name]| < stations[j].requiredStaff
    requires RowNamesIn(sch[hours[k]], busy) && staff[km].name !in busy
    requires stations[j].name in staff[km].stations
    requires var l := sch[hours[k]][stations[j].name];
             |l| > 0 ==> FindPair(pairs, l[0], staff[km].name).None?
    ensures var h, s, n := hours[k], stations[j].name, staff[km].name;
            n in sa && s in sa[n] &&
            RunInvariant(staff, stations, hours, Append(sch, h, s, n), Increment(sa, n, s), pairs + NewPair(sch[h][s], n)) &&
            EmptyFrom(Append(sch, h, s, n), hours, stations, k, j + 1) &&
            RowNamesIn(Append(sch, h, s, n)[h], busy + {n})
  {
    var h, s, n := hours[k], stations[j].name, staff[km].name;
    assert h in sch && s in sch[h] by {
      assert stations[j].name in StationNames(stations);
    }
    var l := sch[h][s];
    assert QualifiedFor(staff, n, s);
    AppendKeepsScheduleOk(sch, hours, staff, stations, h, j, n);
    AppendKeepsCounters(sa, sch, staff, hours, h, s, km);
    AppendKeepsEmptyFrom(sch, hours, stations, k, j, n);
    AppendKeepsRowNamesIn(sch[h], s, n, busy);
    TablePairsAfterAppend(sch, hours, stations, k, j, n);
    NewPairKeepsTable(pairs, l, n);
  }

  /** The pair a second name adds is new to the table, so entries stay unique and each counts once. */
  lemma NewPairKeepsTable(pairs: seq<StaffPair>, l: seq<string>, n: string)
    requires UniquePairs(pairs) && forall i | 0 <= i < |pairs| :: pairs[i].count == 1
    requires |l| > 0 ==> FindPair(pairs, l[0], n).None?
    ensures UniquePairs(pairs + NewPair(l, n))
    ensures forall i | 0 <= i < |pairs + NewPair(l, n)| :: (pairs + NewPair(l, n))[i].count == 1
  {
    var pairs' := pairs + NewPair(l, n);
    if |l| == 1 {
      assert Recorded(pairs, l[0], n) == pairs';
      RecordedKeepsUnique(pairs, l[0], n);
    } else {
      assert pairs' == pairs;
    }
  }

  /** The names on one list. */
  ghost function Names(l: seq<string>): set<string>
  {
    set x | x in l
  }

  /** Every name placed anywhere in the hour. */
  ghost function HourNames(row: Row): set<string>
  {
    set s, i | s in row && 0 <= i < |row[s]| :: row[s][i]
  }

  /** The names placed in hour `h`, or none when the schedule has no such hour. */
  ghost function HourNamesAt(sch: Schedule, h: string): set<string>
  {
    if h in sch then HourNames(sch[h]) else {}
  }

  /**
   * A station whose list is `l` is full, or else every roster member qualified
   * for it and not in `busy` was kept off it by the pair rule: the list has a
   * first name and the table holds an entry pairing the member with it.
   */
  ghost predicate Saturated(staff: seq<Staff>, station: Station, l: seq<string>, busy: set<string>, pairs: seq<StaffPair>)
  {
    |l| == station.requiredStaff ||
    forall i | 0 <= i < |staff| && staff[i].name !in busy && station.name in staff[i].stations ::
      |l| > 0 && FindPair(pairs, staff[i].name, l[0]).Some?
  }

  /** Saturation survives more names becoming busy and more pairs being recorded at the table's end. */
  lemma SaturatedGrows(staff: seq<Staff>, station: Station, l: seq<string>,
                       busy: set<string>, busy': set<string>, pairs: seq<StaffPair>, pairs': seq<StaffPair>)
    requires Saturated(staff, station, l, busy, pairs)
    requires busy <= busy' && pairs <= pairs'
    ensures Saturated(staff, station, l, busy', pairs')
  {
    if |l| != station.requiredStaff {
      forall i | 0 <= i < |staff| && staff[i].name !in busy' && station.name in staff[i].stations
        ensures |l| > 0 && FindPair(pairs', staff[i].name, l[0]).Some?
      {
        FindPairExtends(pairs, pairs', staff[i].name, l[0]);
      }
    }
  }

  /** Filling an empty list of the hour adds exactly its names to the hour's names. */
  lemma HourNamesFill(row: Row, s: string, l: seq<string>)
    requires s in row && row[s] == []
    ensures HourNames(row[s := l]) == HourNames(row) + Names(l)
  {
    var row' := row[s := l];
    forall x | x in HourNames(row') ensures x in HourNames(row) + Names(l) {
      var t, i :| t in row' && 0 <= i < |row'[t]| && row'[t][i] == x;
      if t != s {
        assert row[t][i] == x;
      }
    }
    forall x | x in HourNames(row) + Names(l) ensures x in HourNames(row') {
      if x in HourNames(row) {
        var t, i :| t in row && 0 <= i < |row[t]| && row[t][i] == x;
        assert t != s && row'[t][i] == x;
      } else {
        var i :| 0 <= i < |l| && l[i] == x;
        assert row'[s][i] == x;
      }
    }
  }

  /** Rewriting a slot twice leaves the second value. */
  lemma RewriteSlotTwice(sch: Schedule, h: string, s: string, l: seq<string>, l': seq<string>)
    requires h in sch && s in sch[h]
    ensures var sch1 := sch[h := sch[h][s := l]]; sch1[h := sch1[h][s := l']] == sch[h := sch[h][s := l']]
  {
    assert sch[h][s := l][s := l'] == sch[h][s := l'];
  }

  /** Rewriting an hour twice leaves the second row. */
  lemma RewriteRowTwice(sch: Schedule, h: string, r: Row, r': Row)
    ensures sch[h := r][h := r'] == sch[h := r']
  {
  }

  /** Rewriting a slot to its own value changes nothing. */
  lemma RewriteSlot(sch: Schedule, h: string, s: string)
    requires h in sch && s in sch[h]
    ensures sch[h := sch[h][s := sch[h][s]]] == sch
  {
    assert sch[h][s := sch[h][s]] == sch[h];
  }

  /** The names on one list of an hour are among the hour's busy names. */
  lemma NamesIn(row: Row, s: string, busy: set<string>)
    requires RowNamesIn(row, busy) && s in row
    ensures Names(row[s]) <= busy && busy + Names(row[s]) == busy
  {
    forall x | x in Names(row[s]) ensures x in busy {
      var i :| 0 <= i < |row[s]| && row[s][i] == x;
    }
  }

  /** A prefix has no names beyond those of the whole list. */
  lemma NamesPrefix(l: seq<string>, l': seq<string>)
    requires l <= l'
    ensures Names(l) <= Names(l') && Names(l) + Names(l') == Names(l')
  {
    forall x | x in Names(l) ensures x in Names(l') {
      var i :| 0 <= i < |l| && l[i] == x;
      assert l'[i] == x;
    }
  }

  /** Busy names that already hold a list's names still do after it gains `n`. */
  lemma BusyAfterAppend(busy: set<string>, l: seq<string>, n: string)
    requires Names(l) <= busy
    ensures busy + {n} == busy + Names(l + [n])
  {
    NamesAppend(l, n);
  }

  /** Busy names grown by a list and then by a longer version of it hold the longer list's names. */
  lemma BusyChain(busy: set<string>, busy1: set<string>, busy2: set<string>, l: seq<string>, l': seq<string>)
    requires busy1 == busy + Names(l) && busy2 == busy1 + Names(l') && l <= l'
    ensures busy2 == busy + Names(l')
  {
    NamesPrefix(l, l');
  }

  /** The names of `l + [n]` are those of `l` and `n`. */
  lemma NamesAppend(l: seq<string>, n: string)
    ensures Names(l + [n]) == Names(l) + {n}
  {
  }

  /** An hour not yet reached has only empty lists, and so no names. */
  lemma EmptyHour(sch: Schedule, hours: seq<string>, stations: seq<Station>, k: nat)
    requires Shaped(sch, hours, stations) && k < |hours| && EmptyFrom(sch, hours, stations, k, 0)
    ensures hours[k] in sch && HourNames(sch[hours[k]]) == {} && sch[hours[k] := sch[hours[k]]] == sch
    ensures RowNamesIn(sch[hours[k]], {})
  {
    var h := hours[k];
    forall t | t in sch[h] ensures sch[h][t] == [] {
      var j :| 0 <= j < |stations| && stations[j].name == t;
      assert Slot(sch, h, stations[j].name) == [];
    }
  }

  /** Stations `0 .. n-1` of hour `h` are saturated against `busy` and `pairs`. */
  ghost predicate StationsSaturated(staff: seq<Staff>, stations: seq<Station>, sch: Schedule, h: string, n: nat,
                                    busy: set<string>, pairs: seq<StaffPair>)
  {
    forall j | 0 <= j < n && j < |stations| :: Saturated(staff, stations[j], Slot(sch, h, stations[j].name), busy, pairs)
  }

  /** Hours `0 .. n-1` have every station saturated against the hour's own names and `pairs`. */
  ghost predicate HoursSaturated(staff: seq<Staff>, stations: seq<Station>, hours: seq<string>, sch: Schedule, n: nat,
                                 pairs: seq<StaffPair>)
  {
    forall k | 0 <= k < n && k < |hours| ::
      StationsSaturated(staff, stations, sch, hours[k], |stations|, HourNamesAt(sch, hours[k]), pairs)
  }

  /**
   * Filling station `j` of hour `h` with `l`, saturated, extends the saturated
   * stations by one: the earlier lists are untouched and stay saturated as
   * names become busy and pairs are recorded.
   */
  lemma StationsSaturatedStep(staff: seq<Staff>, stations: seq<Station>, sch: Schedule, h: string, j: nat,
                              l: seq<string>, busy: set<string>, busy': set<string>,
                              pairs: seq<StaffPair>, pairs': seq<StaffPair>)
    requires DistinctStationNames(stations) && j < |stations|
    requires h in sch && stations[j].name in sch[h]
    requires StationsSaturated(staff, stations, sch, h, j, busy, pairs)
    requires busy <= busy' && pairs <= pairs'
    requires Saturated(staff, stations[j], l, busy', pairs')
    ensures StationsSaturated(staff, stations, sch[h := sch[h][stations[j].name := l]], h, j + 1, busy', pairs')
  {
    var sch' := sch[h := sch[h][stations[j].name := l]];
    forall j' | 0 <= j' < j + 1 && j' < |stations|
      ensures Saturated(staff, stations[j'], Slot(sch', h, stations[j'].name), busy', pairs')
    {
      if j' < j {
        assert stations[j'].name != stations[j].name;
        assert Slot(sch', h, stations[j'].name) == Slot(sch, h, stations[j'].name);
        SaturatedGrows(staff, stations[j'], Slot(sch, h, stations[j'].name), busy, busy', pairs, pairs');
      }
    }
  }

  /**
   * Generating hour `k` with all of it saturated extends the saturated hours
   * by one: the earlier hours are untouched and stay saturated as pairs are
   * recorded.
   */
  lemma HoursSaturatedStep(staff: seq<Staff>, stations: seq<Station>, hours: seq<string>, sch: Schedule, k: nat,
                           row: Row, pairs: seq<StaffPair>, pairs': seq<StaffPair>)
    requires DistinctHours(hours) && k < |hours|
    requires HoursSaturated(staff, stations, hours, sch, k, pairs)
    requires pairs <= pairs'
    requires StationsSaturated(staff, stations, sch[hours[k] := row], hours[k], |stations|, HourNames(row), pairs')
    ensures HoursSaturated(staff, stations, hours, sch[hours[k] := row], k + 1, pairs')
  {
    var sch' := sch[hours[k] := row];
    forall k' | 0 <= k' < k + 1 && k' < |hours|
      ensures StationsSaturated(staff, stations, sch', hours[k'], |stations|, HourNamesAt(sch', hours[k']), pairs')
    {
      if k' < k {
        var h := hours[k'];
        assert h != hours[k];
        forall j | 0 <= j < |stations|
          ensures Saturated(staff, stations[j], Slot(sch', h, stations[j].name), HourNamesAt(sch', h), pairs')
        {
          assert Slot(sch', h, stations[j].name) == Slot(sch, h, stations[j].name);
          SaturatedGrows(staff, stations[j], Slot(sch, h, stations[j].name), HourNamesAt(sch, h), HourNamesAt(sch', h), pairs, pairs');
        }
      }
    }
  }
}
