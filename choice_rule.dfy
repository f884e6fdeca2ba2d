/**
 * The choice rule of the generator, stated on a finished list: seat by seat,
 * the list holds the eligible roster member with the fewest hours at the
 * station, ties going to roster order, and it stops only when it is full or
 * nobody eligible is left.
 */
module ChoiceRule {
  import opened Roster
  import opened PairTable
  import opened ScheduleSpec

  /**
   * `m` may take the seat after `prefix` at `station`: qualified, not placed
   * at an earlier station of the hour (`busy`), not already on the list, and
   * not paired in `pairs` with the list's first name.
   */
  ghost predicate Eligible(m: Staff, station: Station, prefix: seq<string>, busy: set<string>, pairs: seq<StaffPair>)
  {
    station.name in m.stations && m.name !in busy && m.name !in prefix &&
    (|prefix| == 0 || FindPair(pairs, m.name, prefix[0]).None?)
  }

  /**
   * Roster member `q` is the one the rule picks for the seat after `prefix`:
   * eligible, with no more hours at the station (counted in `sch` over `hs`)
   * than any eligible member, and with strictly fewer than every eligible
   * member before it in the roster.
   */
  ghost predicate Best(staff: seq<Staff>, station: Station, prefix: seq<string>, q: int,
                       busy: set<string>, sch: Schedule, hs: seq<string>, pairs: seq<StaffPair>)
  {
    0 <= q < |staff| && Eligible(staff[q], station, prefix, busy, pairs) &&
    (forall i {:trigger Eligible(staff[i], station, prefix, busy, pairs)}
       | 0 <= i < |staff| && Eligible(staff[i], station, prefix, busy, pairs) ::
      HoursAt(sch, hs, staff[q].name, station.name) <= HoursAt(sch, hs, staff[i].name, station.name)) &&
    (forall i {:trigger Eligible(staff[i], station, prefix, busy, pairs)}
       | 0 <= i < q && Eligible(staff[i], station, prefix, busy, pairs) ::
      HoursAt(sch, hs, staff[i].name, station.name) > HoursAt(sch, hs, staff[q].name, station.name))
  }

  /** Seat `p` of `l` holds the member the rule picks after the seats before it. */
  ghost predicate ChosenAt(staff: seq<Staff>, station: Station, l: seq<string>, p: int,
                           busy: set<string>, sch: Schedule, hs: seq<string>, pairs: seq<StaffPair>)
  {
    0 <= p < |l| &&
    exists q | 0 <= q < |staff| && staff[q].name == l[p] :: Best(staff, station, l[..p], q, busy, sch, hs, pairs)
  }

  /** Nobody in the roster may take the seat after `prefix`. */
  ghost predicate NoneEligible(staff: seq<Staff>, station: Station, prefix: seq<string>, busy: set<string>, pairs: seq<StaffPair>)
  {
    forall i {:trigger Eligible(staff[i], station, prefix, busy, pairs)} | 0 <= i < |staff| ::
      !Eligible(staff[i], station, prefix, busy, pairs)
  }

  /** Every seat of `l` follows the rule. */
  ghost predicate ChosenUpTo(staff: seq<Staff>, station: Station, l: seq<string>,
                             busy: set<string>, sch: Schedule, hs: seq<string>, pairs: seq<StaffPair>)
  {
    forall p | 0 <= p < |l| :: ChosenAt(staff, station, l, p, busy, sch, hs, pairs)
  }

  /**
   * `l` is the list the rule builds for `station`: no longer than the
   * headcount, every seat chosen by the rule, and short only when nobody
   * eligible is left.
   */
  ghost predicate StationChoices(staff: seq<Staff>, station: Station, l: seq<string>,
                                 busy: set<string>, sch: Schedule, hs: seq<string>, pairs: seq<StaffPair>)
  {
    |l| <= station.requiredStaff &&
    ChosenUpTo(staff, station, l, busy, sch, hs, pairs) &&
    (|l| == station.requiredStaff || NoneEligible(staff, station, l, busy, pairs))
  }

  /** The rule picks at most one member for a seat. */
  lemma BestUnique(staff: seq<Staff>, station: Station, prefix: seq<string>, q1: int, q2: int,
                   busy: set<string>, sch: Schedule, hs: seq<string>, pairs: seq<StaffPair>)
    requires Best(staff, station, prefix, q1, busy, sch, hs, pairs)
    requires Best(staff, station, prefix, q2, busy, sch, hs, pairs)
    ensures q1 == q2
  {
  }

  /** Two lists built by the rule from the same state agree on their common seats. */
  lemma {:induction false} PrefixesAgree(staff: seq<Staff>, station: Station, l1: seq<string>, l2: seq<string>, p: nat,
                                         busy: set<string>, sch: Schedule, hs: seq<string>, pairs: seq<StaffPair>)
    requires ChosenUpTo(staff, station, l1, busy, sch, hs, pairs)
    requires ChosenUpTo(staff, station, l2, busy, sch, hs, pairs)
    requires p <= |l1| && p <= |l2|
    ensures l1[..p] == l2[..p]
  {
    if p > 0 {
      PrefixesAgree(staff, station, l1, l2, p - 1, busy, sch, hs, pairs);
      assert ChosenAt(staff, station, l1, p - 1, busy, sch, hs, pairs);
      assert ChosenAt(staff, station, l2, p - 1, busy, sch, hs, pairs);
      var q1 :| 0 <= q1 < |staff| && staff[q1].name == l1[p - 1] && Best(staff, station, l1[..p - 1], q1, busy, sch, hs, pairs);
      var q2 :| 0 <= q2 < |staff| && staff[q2].name == l2[p - 1] && Best(staff, station, l2[..p - 1], q2, busy, sch, hs, pairs);
      BestUnique(staff, station, l1[..p - 1], q1, q2, busy, sch, hs, pairs);
      assert l1[..p] == l1[..p - 1] + [l1[p - 1]];
      assert l2[..p] == l2[..p - 1] + [l2[p - 1]];
    }
  }

  /**
   * The rule determines the list: two lists that both satisfy it for the same
   * station and the same state are equal.
   */
  lemma StationChoicesUnique(staff: seq<Staff>, station: Station, l1: seq<string>, l2: seq<string>,
                             busy: set<string>, sch: Schedule, hs: seq<string>, pairs: seq<StaffPair>)
    requires StationChoices(staff, station, l1, busy, sch, hs, pairs)
    requires StationChoices(staff, station, l2, busy, sch, hs, pairs)
    ensures l1 == l2
  {
    if |l1| < |l2| {
      PrefixesAgree(staff, station, l1, l2, |l1|, busy, sch, hs, pairs);
      assert l1 == l1[..|l1|];
      SomeoneEligible(staff, station, l2, |l1|, busy, sch, hs, pairs);
    } else if |l2| < |l1| {
      PrefixesAgree(staff, station, l1, l2, |l2|, busy, sch, hs, pairs);
      assert l2 == l2[..|l2|];
      SomeoneEligible(staff, station, l1, |l2|, busy, sch, hs, pairs);
    } else {
      PrefixesAgree(staff, station, l1, l2, |l1|, busy, sch, hs, pairs);
      assert l1 == l1[..|l1|] && l2 == l2[..|l2|];
    }
  }

  /** Below a seat the rule filled, somebody was eligible. */
  lemma SomeoneEligible(staff: seq<Staff>, station: Station, l: seq<string>, n: int,
                        busy: set<string>, sch: Schedule, hs: seq<string>, pairs: seq<StaffPair>)
    requires ChosenUpTo(staff, station, l, busy, sch, hs, pairs)
    requires 0 <= n < |l|
    ensures !NoneEligible(staff, station, l[..n], busy, pairs)
  {
    assert ChosenAt(staff, station, l, n, busy, sch, hs, pairs);
    var q :| 0 <= q < |staff| && staff[q].name == l[n] && Best(staff, station, l[..n], q, busy, sch, hs, pairs);
    assert Eligible(staff[q], station, l[..n], busy, pairs);
  }

  /** Choosing one more seat by the rule extends a list chosen by the rule. */
  lemma ChosenUpToAppend(staff: seq<Staff>, station: Station, l: seq<string>, n: string,
                         busy: set<string>, sch: Schedule, hs: seq<string>, pairs: seq<StaffPair>)
    requires ChosenUpTo(staff, station, l, busy, sch, hs, pairs)
    requires ChosenAt(staff, station, l + [n], |l|, busy, sch, hs, pairs)
    ensures ChosenUpTo(staff, station, l + [n], busy, sch, hs, pairs)
  {
    forall p | 0 <= p < |l|
      ensures ChosenAt(staff, station, l + [n], p, busy, sch, hs, pairs)
    {
      assert (l + [n])[..p] == l[..p];
      assert ChosenAt(staff, station, l, p, busy, sch, hs, pairs);
    }
  }

  /** The table before a station plus its list's entry, once a name joins the list. */
  lemma LeadPairAppend(pairs0: seq<StaffPair>, l: seq<string>, n: string)
    ensures (pairs0 + LeadPair(l)) + NewPair(l, n) == pairs0 + LeadPair(l + [n])
  {
    assert LeadPair(l + [n]) == LeadPair(l) + NewPair(l, n);
  }

  /** The rule depends on the hours worked only through their number per member. */
  lemma ChoicesTransfer(staff: seq<Staff>, station: Station, l: seq<string>, busy: set<string>,
                        sch: Schedule, hs: seq<string>, sch': Schedule, hs': seq<string>, pairs: seq<StaffPair>)
    requires StationChoices(staff, station, l, busy, sch, hs, pairs)
    requires forall x :: HoursAt(sch, hs, x, station.name) == HoursAt(sch', hs', x, station.name)
    ensures StationChoices(staff, station, l, busy, sch', hs', pairs)
  {
    forall p | 0 <= p < |l|
      ensures ChosenAt(staff, station, l, p, busy, sch', hs', pairs)
    {
      assert ChosenAt(staff, station, l, p, busy, sch, hs, pairs);
      var q :| 0 <= q < |staff| && staff[q].name == l[p] && Best(staff, station, l[..p], q, busy, sch, hs, pairs);
      assert Best(staff, station, l[..p], q, busy, sch', hs', pairs);
    }
  }

  /** Hours counted over `hs` depend only on the lists of `hs` at the station. */
  lemma {:induction false} HoursAtFrame(sch: Schedule, sch': Schedule, hs: seq<string>, x: string, t: string)
    requires forall i | 0 <= i < |hs| :: Slot(sch, hs[i], t) == Slot(sch', hs[i], t)
    ensures HoursAt(sch, hs, x, t) == HoursAt(sch', hs, x, t)
  {
    if hs != [] {
      assert Slot(sch, hs[0], t) == Slot(sch', hs[0], t);
      HoursAtFrame(sch, sch', hs[1..], x, t);
    }
  }

  /** Hours after the first `n` whose lists at the station are empty count nothing. */
  lemma {:induction false} HoursAtPrefix(sch: Schedule, hs: seq<string>, n: nat, x: string, t: string)
    requires n <= |hs|
    requires forall i | n <= i < |hs| :: Slot(sch, hs[i], t) == []
    ensures HoursAt(sch, hs, x, t) == HoursAt(sch, hs[..n], x, t)
  {
    if hs != [] {
      if n == 0 {
        assert Slot(sch, hs[0], t) == [];
        HoursAtPrefix(sch, hs[1..], 0, x, t);
        assert hs[1..][..0] == hs[..0];
      } else {
        HoursAtPrefix(sch, hs[1..], n - 1, x, t);
        assert hs[..n][1..] == hs[1..][..n - 1];
      }
    }
  }

  /** Filling an empty list does not change the hours of anybody not on it. */
  lemma {:induction false} HoursAtFill(sch: Schedule, hs: seq<string>, h: string, s: string, l: seq<string>, x: string, t: string)
    requires h in sch && s in sch[h] && sch[h][s] == [] && x !in l
    ensures HoursAt(sch[h := sch[h][s := l]], hs, x, t) == HoursAt(sch, hs, x, t)
  {
    if hs != [] {
      HoursAtFill(sch, hs[1..], h, s, l, x, t);
    }
  }

  /** Every name on stations `0 .. j-1` of hour `h`. */
  ghost function NamesBefore(sch: Schedule, h: string, stations: seq<Station>, j: nat): set<string>
    requires j <= |stations|
  {
    if j == 0 then {} else NamesBefore(sch, h, stations, j - 1) + Names(Slot(sch, h, stations[j - 1].name))
  }

  lemma {:induction false} NamesBeforeFrame(sch: Schedule, sch': Schedule, h: string, stations: seq<Station>, j: nat)
    requires j <= |stations|
    requires forall i | 0 <= i < j :: Slot(sch, h, stations[i].name) == Slot(sch', h, stations[i].name)
    ensures NamesBefore(sch, h, stations, j) == NamesBefore(sch', h, stations, j)
  {
    if j > 0 {
      assert Slot(sch, h, stations[j - 1].name) == Slot(sch', h, stations[j - 1].name);
      NamesBeforeFrame(sch, sch', h, stations, j - 1);
    }
  }

  /**
   * The pair table as it stands when slot (`k`, `j`) is reached: the pairs of
   * every earlier hour, then those of the earlier stations of hour `k`.
   */
  function PairsBefore(sch: Schedule, hours: seq<string>, stations: seq<Station>, k: nat, j: nat): seq<StaffPair>
    requires k < |hours| && j <= |stations|
  {
    TablePairs(sch, hours[..k], stations) + RowPairs(sch, hours[k], stations[..j])
  }

  lemma PairsBeforeFrame(sch: Schedule, sch': Schedule, hours: seq<string>, stations: seq<Station>, k: nat, j: nat)
    requires k < |hours| && j <= |stations|
    requires forall k', j' | 0 <= k' < k && 0 <= j' < |stations| ::
               Slot(sch, hours[k'], stations[j'].name) == Slot(sch', hours[k'], stations[j'].name)
    requires forall j' | 0 <= j' < j :: Slot(sch, hours[k], stations[j'].name) == Slot(sch', hours[k], stations[j'].name)
    ensures PairsBefore(sch, hours, stations, k, j) == PairsBefore(sch', hours, stations, k, j)
  {
    var hs, sts := hours[..k], stations[..j];
    forall k', j' | 0 <= k' < |hs| && 0 <= j' < |stations|
      ensures Slot(sch, hs[k'], stations[j'].name) == Slot(sch', hs[k'], stations[j'].name)
    {
      assert hs[k'] == hours[k'];
    }
    forall j' | 0 <= j' < |sts| ensures Slot(sch, hours[k], sts[j'].name) == Slot(sch', hours[k], sts[j'].name) {
      assert sts[j'] == stations[j'];
    }
    TablePairsFrame(sch, sch', hs, stations);
    RowPairsFrame(sch, sch', hours[k], sts);
  }

  /** While every slot from (`k`, `j`) on is empty, the whole table is the table before that slot. */
  lemma TablePairsPrefix(sch: Schedule, hours: seq<string>, stations: seq<Station>, k: nat, j: nat)
    requires k < |hours| && j <= |stations|
    requires EmptyFrom(sch, hours, stations, k, j)
    ensures TablePairs(sch, hours, stations) == PairsBefore(sch, hours, stations, k, j)
  {
    var h := hours[k];
    assert hours == hours[..k] + hours[k..];
    TablePairsConcat(sch, hours[..k], hours[k..], stations);
    LaterHoursEmpty(sch, hours, stations, k, j);
    RowPairsPrefix(sch, h, stations, j);
  }

  /** From hour `k` on, only hour `k` can contribute pairs when every later hour is empty. */
  lemma LaterHoursEmpty(sch: Schedule, hours: seq<string>, stations: seq<Station>, k: nat, j: nat)
    requires k < |hours| && EmptyFrom(sch, hours, stations, k, j)
    ensures TablePairs(sch, hours[k..], stations) == RowPairs(sch, hours[k], stations)
  {
    var later := hours[k + 1..];
    forall k', j' | 0 <= k' < |later| && 0 <= j' < |stations| ensures Slot(sch, later[k'], stations[j'].name) == [] {
      assert later[k'] == hours[k + 1 + k'];
    }
    TablePairsEmpty(sch, later, stations);
    assert hours[k..][1..] == later;
  }

  /** An hour whose stations from `j` on are empty has only the pairs of its first `j` stations. */
  lemma RowPairsPrefix(sch: Schedule, h: string, stations: seq<Station>, j: nat)
    requires j <= |stations|
    requires forall j' | j <= j' < |stations| :: Slot(sch, h, stations[j'].name) == []
    ensures RowPairs(sch, h, stations) == RowPairs(sch, h, stations[..j])
  {
    assert stations == stations[..j] + stations[j..];
    RowPairsConcat(sch, h, stations[..j], stations[j..]);
    forall j' | 0 <= j' < |stations[j..]| ensures Slot(sch, h, stations[j..][j'].name) == [] {
      assert stations[j..][j'] == stations[j + j'];
    }
    RowPairsEmpty(sch, h, stations[j..]);
  }

  /**
   * Slot (`k`, `j`) of `sch` was filled by the rule: its list is the one the
   * rule builds from the names on the earlier stations of the hour, the hours
   * worked in the earlier hours and the pairs of the earlier slots.
   */
  ghost predicate SlotFair(staff: seq<Staff>, stations: seq<Station>, hours: seq<string>, sch: Schedule, k: nat, j: nat)
    requires k < |hours| && j < |stations|
  {
    StationChoices(staff, stations[j], Slot(sch, hours[k], stations[j].name), NamesBefore(sch, hours[k], stations, j),
                   sch, hours[..k], PairsBefore(sch, hours, stations, k, j))
  }

  /** Whether slot (`k`, `j`) was filled by the rule depends only on that slot and the ones before it. */
  lemma SlotFairFrame(staff: seq<Staff>, stations: seq<Station>, hours: seq<string>, sch: Schedule, sch': Schedule, k: nat, j: nat)
    requires k < |hours| && j < |stations|
    requires forall k', j' | 0 <= k' < k && 0 <= j' < |stations| ::
               Slot(sch, hours[k'], stations[j'].name) == Slot(sch', hours[k'], stations[j'].name)
    requires forall j' | 0 <= j' <= j :: Slot(sch, hours[k], stations[j'].name) == Slot(sch', hours[k], stations[j'].name)
    requires SlotFair(staff, stations, hours, sch, k, j)
    ensures SlotFair(staff, stations, hours, sch', k, j)
  {
    var t := stations[j].name;
    NamesBeforeFrame(sch, sch', hours[k], stations, j);
    PairsBeforeFrame(sch, sch', hours, stations, k, j);
    forall x ensures HoursAt(sch, hours[..k], x, t) == HoursAt(sch', hours[..k], x, t) {
      forall i | 0 <= i < |hours[..k]| ensures Slot(sch, hours[..k][i], t) == Slot(sch', hours[..k][i], t) {
        assert hours[..k][i] == hours[i];
      }
      HoursAtFrame(sch, sch', hours[..k], x, t);
    }
    ChoicesTransfer(staff, stations[j], Slot(sch, hours[k], t), NamesBefore(sch, hours[k], stations, j),
                    sch, hours[..k], sch', hours[..k], PairsBefore(sch, hours, stations, k, j));
  }

  /**
   * A station filled by the rule from the state the generator has when it
   * reaches slot (`k`, `j`) (every later slot empty, `busy` the names placed
   * so far in the hour, `pairs` the table so far, counts over all hours) is a
   * fair slot of the schedule that results.
   */
  lemma FillMakesSlotFair(staff: seq<Staff>, stations: seq<Station>, hours: seq<string>, sch: Schedule,
                          k: nat, j: nat, l: seq<string>, busy: set<string>, pairs: seq<StaffPair>)
    requires DistinctHours(hours) && DistinctStationNames(stations)
    requires k < |hours| && j < |stations|
    requires hours[k] in sch && stations[j].name in sch[hours[k]]
    requires EmptyFrom(sch, hours, stations, k, j)
    requires busy == NamesBefore(sch, hours[k], stations, j)
    requires pairs == TablePairs(sch, hours, stations)
    requires StationChoices(staff, stations[j], l, busy, sch, hours, pairs)
    ensures SlotFair(staff, stations, hours, sch[hours[k] := sch[hours[k]][stations[j].name := l]], k, j)
  {
    var h, t := hours[k], stations[j].name;
    var sch' := sch[h := sch[h][t := l]];
    forall k', j' | 0 <= k' < k && 0 <= j' < |stations|
      ensures Slot(sch, hours[k'], stations[j'].name) == Slot(sch', hours[k'], stations[j'].name)
    {
      assert hours[k'] != h;
    }
    forall j' | 0 <= j' < j ensures Slot(sch, h, stations[j'].name) == Slot(sch', h, stations[j'].name) {
      assert stations[j'].name != t;
    }
    NamesBeforeFrame(sch, sch', h, stations, j);
    TablePairsPrefix(sch, hours, stations, k, j);
    PairsBeforeFrame(sch, sch', hours, stations, k, j);
    forall x ensures HoursAt(sch, hours, x, t) == HoursAt(sch', hours[..k], x, t) {
      HoursAtPrefix(sch, hours, k, x, t);
      forall i | 0 <= i < |hours[..k]| ensures Slot(sch, hours[..k][i], t) == Slot(sch', hours[..k][i], t) {
        assert hours[..k][i] == hours[i] && hours[i] != h;
      }
      HoursAtFrame(sch, sch', hours[..k], x, t);
    }
    assert Slot(sch', h, t) == l;
    ChoicesTransfer(staff, stations[j], l, busy, sch, hours, sch', hours[..k], pairs);
  }

  /** Filling station `j` of hour `h` with `l` adds exactly the names of `l` to those on stations `0 .. j`. */
  lemma NamesBeforeStep(sch: Schedule, h: string, stations: seq<Station>, j: nat, l: seq<string>)
    requires DistinctStationNames(stations) && j < |stations|
    requires h in sch && stations[j].name in sch[h]
    ensures NamesBefore(sch[h := sch[h][stations[j].name := l]], h, stations, j + 1) == NamesBefore(sch, h, stations, j) + Names(l)
  {
    var sch' := sch[h := sch[h][stations[j].name := l]];
    forall i | 0 <= i < j ensures Slot(sch, h, stations[i].name) == Slot(sch', h, stations[i].name) {
      assert stations[i].name != stations[j].name;
    }
    NamesBeforeFrame(sch, sch', h, stations, j);
  }

  /** Stations `0 .. n-1` of hour `k` were filled by the rule. */
  ghost predicate HourFair(staff: seq<Staff>, stations: seq<Station>, hours: seq<string>, sch: Schedule, k: nat, n: nat)
    requires k < |hours|
  {
    forall j | 0 <= j < n && j < |stations| :: SlotFair(staff, stations, hours, sch, k, j)
  }

  /** Every station of hours `0 .. n-1` was filled by the rule. */
  ghost predicate RunFair(staff: seq<Staff>, stations: seq<Station>, hours: seq<string>, sch: Schedule, n: nat)
  {
    forall k | 0 <= k < n && k < |hours| :: HourFair(staff, stations, hours, sch, k, |stations|)
  }

  /**
   * Filling station `j` of hour `k` by the rule extends the stations of the
   * hour filled by the rule by one; the earlier ones are untouched.
   */
  lemma HourFairStep(staff: seq<Staff>, stations: seq<Station>, hours: seq<string>, sch: Schedule,
                     k: nat, j: nat, l: seq<string>, busy: set<string>, pairs: seq<StaffPair>)
    requires DistinctHours(hours) && DistinctStationNames(stations)
    requires k < |hours| && j < |stations|
    requires hours[k] in sch && stations[j].name in sch[hours[k]]
    requires EmptyFrom(sch, hours, stations, k, j)
    requires HourFair(staff, stations, hours, sch, k, j)
    requires busy == NamesBefore(sch, hours[k], stations, j)
    requires pairs == TablePairs(sch, hours, stations)
    requires StationChoices(staff, stations[j], l, busy, sch, hours, pairs)
    ensures HourFair(staff, stations, hours, sch[hours[k] := sch[hours[k]][stations[j].name := l]], k, j + 1)
  {
    var h, t := hours[k], stations[j].name;
    var sch' := sch[h := sch[h][t := l]];
    FillMakesSlotFair(staff, stations, hours, sch, k, j, l, busy, pairs);
    HourFairKeep(staff, stations, hours, sch, k, j, l);
  }

  /** Filling station `j` of hour `k` leaves the earlier stations of the hour filled by the rule. */
  lemma HourFairKeep(staff: seq<Staff>, stations: seq<Station>, hours: seq<string>, sch: Schedule, k: nat, j: nat, l: seq<string>)
    requires DistinctHours(hours) && DistinctStationNames(stations)
    requires k < |hours| && j < |stations|
    requires hours[k] in sch && stations[j].name in sch[hours[k]]
    requires HourFair(staff, stations, hours, sch, k, j)
    ensures HourFair(staff, stations, hours, sch[hours[k] := sch[hours[k]][stations[j].name := l]], k, j)
  {
    var h, t := hours[k], stations[j].name;
    var sch' := sch[h := sch[h][t := l]];
    forall j' | 0 <= j' < j
      ensures SlotFair(staff, stations, hours, sch', k, j')
    {
      forall k'', j'' | 0 <= k'' < k && 0 <= j'' < |stations|
        ensures Slot(sch, hours[k''], stations[j''].name) == Slot(sch', hours[k''], stations[j''].name)
      {
        assert hours[k''] != h;
      }
      forall j'' | 0 <= j'' <= j' ensures Slot(sch, h, stations[j''].name) == Slot(sch', h, stations[j''].name) {
        assert stations[j''].name != t;
      }
      SlotFairFrame(staff, stations, hours, sch, sch', k, j');
    }
  }

  /**
   * Generating hour `k` by the rule extends the hours filled by the rule by
   * one; the earlier hours are untouched.
   */
  lemma RunFairStep(staff: seq<Staff>, stations: seq<Station>, hours: seq<string>, sch: Schedule, k: nat, row: Row)
    requires DistinctHours(hours) && k < |hours|
    requires RunFair(staff, stations, hours, sch, k)
    requires HourFair(staff, stations, hours, sch[hours[k] := row], k, |stations|)
    ensures RunFair(staff, stations, hours, sch[hours[k] := row], k + 1)
  {
    var sch' := sch[hours[k] := row];
    forall k', j | 0 <= k' < k && 0 <= j < |stations|
      ensures SlotFair(staff, stations, hours, sch', k', j)
    {
      assert HourFair(staff, stations, hours, sch, k', |stations|);
      forall k'', j'' | 0 <= k'' < k' && 0 <= j'' < |stations|
        ensures Slot(sch, hours[k''], stations[j''].name) == Slot(sch', hours[k''], stations[j''].name)
      {
        assert hours[k''] != hours[k];
      }
      forall j'' | 0 <= j'' <= j ensures Slot(sch, hours[k'], stations[j''].name) == Slot(sch', hours[k'], stations[j''].name) {
        assert hours[k'] != hours[k];
      }
      SlotFairFrame(staff, stations, hours, sch, sch', k', j);
    }
  }

  /** The entry of a list never pairs somebody off the list with the list's first name. */
  lemma LeadPairNoMatch(pairs: seq<StaffPair>, l: seq<string>, a: string)
    requires |l| > 0 && a !in l
    ensures (exists i | 0 <= i < |pairs + LeadPair(l)| :: Matches((pairs + LeadPair(l))[i], a, l[0]))
            <==> FindPair(pairs, a, l[0]).Some?
  {
    var all := pairs + LeadPair(l);
    forall i | |pairs| <= i < |all| ensures !Matches(all[i], a, l[0]) {
      assert all[i] == StaffPair(l[0], l[1], 1);
    }
    if FindPair(pairs, a, l[0]).Some? {
      var i := FindPair(pairs, a, l[0]).value;
      assert all[i] == pairs[i];
    }
  }
}
