/**
 * The analytics page: the time-range filter over the cached complaint list, the
 * overall status figures, and the counts behind its department, priority and
 * per-day charts. The clock and the date-to-day conversion are parameters.
 */
module Analytics {
  import opened Domain
  import opened Lists
  import opened Text
  import opened Queries

  // ---------------------------------------------------------------- time range

  datatype TimeRange = Last30 | Last90 | AllTime

  /** The number of days a bounded range looks back. */
  function RangeDays(range: TimeRange): nat
    requires !range.AllTime?
  {
    if range.Last30? then 30 else 90
  }

  /** The cutoff `days` days before `now`. */
  function Cutoff(range: TimeRange, now: int): int
    requires !range.AllTime?
  {
    now - RangeDays(range) * MsPerDay
  }

  function CreatedSince(cutoff: int): Complaint -> bool {
    (c: Complaint) => c.createdAt >= cutoff
  }

  /** `filteredComplaints`: all of them, or those created on or after the cutoff, in list order. */
  function Windowed(cs: seq<Complaint>, range: TimeRange, now: int): (r: seq<Complaint>)
    ensures range.AllTime? ==> r == cs
    ensures forall k :: 0 <= k < |r| ==> range.AllTime? || r[k].createdAt >= Cutoff(range, now)
  {
    if range.AllTime? then cs else Filter(cs, CreatedSince(Cutoff(range, now)))
  }

  /** A bounded range keeps exactly the complaints created since its cutoff, each as often as listed. */
  lemma WindowExact(cs: seq<Complaint>, range: TimeRange, now: int, c: Complaint)
    ensures multiset(Windowed(cs, range, now))[c] ==
              if range.AllTime? || c.createdAt >= Cutoff(range, now) then multiset(cs)[c] else 0
  {
    if !range.AllTime? {
      FilterMultiset(cs, CreatedSince(Cutoff(range, now)), c);
    }
  }

  /** The ranges nest: 30 days within 90 days within all time. */
  lemma WindowsNest(cs: seq<Complaint>, now: int, c: Complaint)
    ensures multiset(Windowed(cs, Last30, now))[c] <= multiset(Windowed(cs, Last90, now))[c]
    ensures multiset(Windowed(cs, Last90, now))[c] <= multiset(Windowed(cs, AllTime, now))[c]
  {
    WindowExact(cs, Last30, now, c);
    WindowExact(cs, Last90, now, c);
  }

  // ---------------------------------------------------------------- overall figures

  datatype Stats = Stats(total: nat, open: nat, reopened: nat, closed: int)

  /** `overallStats`: closed is whatever is left after the open and the reopened ones. */
  function OverallStats(cs: seq<Complaint>): Stats {
    var total := |cs|;
    var open := |Filter(cs, WithStatus(Open))|;
    var reopened := |Filter(cs, WithStatus(Reopened))|;
    Stats(total, open, reopened, total - open - reopened)
  }

  /** The "Active (Open/Reopened)" card. */
  function ActiveCount(s: Stats): int {
    s.open + s.reopened
  }

  function NotClosed(c: Complaint): bool {
    c.status != Closed
  }

  /**
   * Each figure counts its own status, so "closed" is never negative and counts exactly
   * the Closed complaints, the three figures add up to the total, and the active card
   * counts the complaints that are not Closed.
   */
  lemma StatsPartition(cs: seq<Complaint>)
    ensures OverallStats(cs).open == Count(cs, WithStatus(Open))
    ensures OverallStats(cs).reopened == Count(cs, WithStatus(Reopened))
    ensures OverallStats(cs).closed == Count(cs, WithStatus(Closed))
    ensures OverallStats(cs).open + OverallStats(cs).reopened + OverallStats(cs).closed == |cs|
    ensures ActiveCount(OverallStats(cs)) == Count(cs, NotClosed)
  {
    FilterCount(cs, WithStatus(Open));
    FilterCount(cs, WithStatus(Reopened));
    CountDisjointUnion(cs, WithStatus(Open), WithStatus(Reopened), NotClosed);
    var any := (c: Complaint) => true;
    CountDisjointUnion(cs, NotClosed, WithStatus(Closed), any);
    CountAll(cs, any);
  }

  // ---------------------------------------------------------------- department and priority charts

  function DepartmentOf(c: Complaint): string {
    c.department
  }

  /** The department chart: one count per entry of the department list, by exact name. */
  function DepartmentCounts(cs: seq<Complaint>): (r: seq<nat>)
    ensures |r| == |Departments|
  {
    CountsFor(cs, DepartmentOf, Departments)
  }

  /**
   * Entry `i` of the department chart counts the complaints filed with department `i`;
   * the entries add up to at most the total, and to the total exactly when every
   * complaint names a listed department.
   */
  lemma DepartmentCountsSum(cs: seq<Complaint>, i: nat)
    requires i < |Departments|
    ensures DepartmentCounts(cs)[i] == Count(cs, HasKey(DepartmentOf, Departments[i]))
    ensures Sum(DepartmentCounts(cs)) <= |cs|
    ensures Sum(DepartmentCounts(cs)) == |cs| <==> forall k :: 0 <= k < |cs| ==> cs[k].department in Departments
  {
    CountsForAt(cs, DepartmentOf, Departments, i);
    DepartmentsDistinct();
    SumOfCounts(cs, DepartmentOf, Departments);
  }

  /** The priority values in the order the enum declares them. */
  const Priorities: seq<Priority> := [Urgent, High, Medium, Low]

  function PriorityOf(c: Complaint): Priority {
    c.priority
  }

  /** The priority chart: one count per priority value. */
  function PriorityCounts(cs: seq<Complaint>): (r: seq<nat>)
    ensures |r| == |Priorities|
  {
    CountsFor(cs, PriorityOf, Priorities)
  }

  /** Entry `i` of the priority chart counts priority `i`, and the entries add up to the total. */
  lemma PriorityCountsSum(cs: seq<Complaint>, i: nat)
    requires i < |Priorities|
    ensures PriorityCounts(cs)[i] == Count(cs, HasKey(PriorityOf, Priorities[i]))
    ensures Sum(PriorityCounts(cs)) == |cs|
  {
    CountsForAt(cs, PriorityOf, Priorities, i);
    SumOfCounts(cs, PriorityOf, Priorities);
    forall k | 0 <= k < |cs| ensures cs[k].priority in Priorities {
      match cs[k].priority
      case Urgent => assert Priorities[0] == Urgent;
      case High => assert Priorities[1] == High;
      case Medium => assert Priorities[2] == Medium;
      case Low => assert Priorities[3] == Low;
    }
  }

  // ---------------------------------------------------------------- per-day chart

  /**
   * The `reduce` accumulator: an object whose keys are day labels, in the order they
   * were first added, with a count each.
   */
  datatype DayTally = DayTally(order: seq<string>, count: map<string, nat>)

  ghost predicate WellFormed(t: DayTally) {
    Distinct(t.order) && forall d :: d in t.order <==> d in t.count
  }

  /** Counting one more complaint on a day: a new label goes last; a known one counts one more. */
  function Bump(t: DayTally, d: string): (r: DayTally)
    requires WellFormed(t)
    ensures WellFormed(r)
  {
    if d in t.count then DayTally(t.order, t.count[d := t.count[d] + 1])
    else DayTally(t.order + [d], t.count[d := 1])
  }

  /** `complaintsByDate`: the tally of `dayKey` over the list, front to back. */
  function TallyDays(cs: seq<Complaint>, dayKey: Complaint -> string): (r: DayTally)
    ensures WellFormed(r)
  {
    if cs == [] then DayTally([], map[])
    else Bump(TallyDays(cs[..|cs| - 1], dayKey), dayKey(cs[|cs| - 1]))
  }

  /** A label is in the tally exactly when some complaint falls on it, and its count is how many do. */
  lemma {:induction false} TallyIsCount(cs: seq<Complaint>, dayKey: Complaint -> string, d: string)
    ensures d in TallyDays(cs, dayKey).count <==> Count(cs, HasKey(dayKey, d)) > 0
    ensures d in TallyDays(cs, dayKey).count ==> TallyDays(cs, dayKey).count[d] == Count(cs, HasKey(dayKey, d))
  {
    if cs != [] {
      var front := cs[..|cs| - 1];
      var last := cs[|cs| - 1];
      assert cs == front + [last];
      TallyIsCount(front, dayKey, d);
      CountSnoc(front, last, HasKey(dayKey, d));
    }
  }

  /** Every label of the list sorted by `<`, the strings being distinct. */
  predicate Increasing(ls: seq<string>) {
    forall i, j :: 0 <= i < j < |ls| ==> Below(ls[i], ls[j])
  }

  /** Puts a new label into an increasing list ahead of the first label above it. */
  function InsertLabel(x: string, s: seq<string>): (r: seq<string>)
    requires Increasing(s) && x !in s
    ensures |r| == |s| + 1
    ensures forall d :: d in r <==> d in s || d == x
    ensures Increasing(r)
  {
    if s == [] then [x]
    else if Below(x, s[0]) then
      assert forall j :: 0 <= j < |s| ==> Below(x, s[j]) by {
        forall j | 0 < j < |s| ensures Below(x, s[j]) {
          BelowTransitive(x, s[0], s[j]);
        }
      }
      [x] + s
    else
      BelowTotal(x, s[0]);
      var rest := InsertLabel(x, s[1..]);
      assert forall j :: 0 <= j < |rest| ==> Below(s[0], rest[j]) by {
        forall j | 0 <= j < |rest| ensures Below(s[0], rest[j]) {
          assert rest[j] in rest;
          if rest[j] != x {
            var i :| 0 <= i < |s[1..]| && s[1..][i] == rest[j];
            assert s[i + 1] == rest[j];
          }
        }
      }
      [s[0]] + rest
  }

  /** The day labels of the tally in ascending order, the keys being distinct. */
  function SortLabels(ls: seq<string>): (r: seq<string>)
    requires Distinct(ls)
    ensures |r| == |ls|
    ensures forall d :: d in r <==> d in ls
    ensures Increasing(r)
  {
    if ls == [] then []
    else
      assert Distinct(ls[1..]) by {
        forall i, j | 0 <= i < j < |ls[1..]| ensures ls[1..][i] != ls[1..][j] {
          assert ls[1..][i] == ls[i + 1] && ls[1..][j] == ls[j + 1];
        }
      }
      assert ls[0] !in ls[1..] by {
        forall j | 0 <= j < |ls[1..]| ensures ls[1..][j] != ls[0] {
          assert ls[1..][j] == ls[j + 1];
        }
      }
      InsertLabel(ls[0], SortLabels(ls[1..]))
  }

  lemma SameLabelsSameEmptiness(a: seq<string>, b: seq<string>)
    requires forall d :: d in a <==> d in b
    ensures a == [] <==> b == []
  {
    if a != [] {
      assert a[0] in a;
    }
    if b != [] {
      assert b[0] in b;
    }
  }

  /** An increasing list is fixed by the labels it holds: it is the only sorted order of them. */
  lemma {:induction false} IncreasingUnique(a: seq<string>, b: seq<string>)
    requires Increasing(a) && Increasing(b)
    requires forall d :: d in a <==> d in b
    ensures a == b
    decreases |a|
  {
    SameLabelsSameEmptiness(a, b);
    if a != [] && b != [] {
      if a[0] != b[0] {
        assert a[0] in a && b[0] in b;
        var i :| 0 <= i < |b| && b[i] == a[0];
        var j :| 0 <= j < |a| && a[j] == b[0];
        assert Below(b[0], a[0]) by {
          if i != 0 {
          }
        }
        assert Below(a[0], b[0]) by {
          if j != 0 {
          }
        }
        BelowTotal(a[0], b[0]);
      } else {
        forall d ensures d in a[1..] <==> d in b[1..] {
          if d in a[1..] {
            var i :| 0 <= i < |a[1..]| && a[1..][i] == d;
            assert Below(a[0], a[i + 1]);
            BelowIrreflexive(d);
            assert d in b;
          }
          if d in b[1..] {
            var i :| 0 <= i < |b[1..]| && b[1..][i] == d;
            assert Below(b[0], b[i + 1]);
            BelowIrreflexive(d);
            assert d in a;
          }
        }
        IncreasingUnique(a[1..], b[1..]);
        assert a == [a[0]] + a[1..] && b == [b[0]] + b[1..];
      }
    }
  }

  /** The count of each label, in the order of the labels. */
  function Lookups(t: DayTally, ls: seq<string>): (r: seq<nat>)
    requires forall k :: 0 <= k < |ls| ==> ls[k] in t.count
    ensures |r| == |ls|
  {
    if ls == [] then [] else [t.count[ls[0]]] + Lookups(t, ls[1..])
  }

  /** The per-day chart: its labels sorted, and the count of each. */
  function DayChart(cs: seq<Complaint>, dayKey: Complaint -> string): (r: (seq<string>, seq<nat>))
    ensures |r.0| == |r.1|
  {
    var tally := TallyDays(cs, dayKey);
    var labels := SortLabels(tally.order);
    (labels, Lookups(tally, labels))
  }

  /** Looking labels up in the tally gives the per-label counts over the list. */
  lemma {:induction false} LookupsAreCounts(cs: seq<Complaint>, dayKey: Complaint -> string, ls: seq<string>)
    requires forall k :: 0 <= k < |ls| ==> ls[k] in TallyDays(cs, dayKey).count
    ensures Lookups(TallyDays(cs, dayKey), ls) == CountsFor(cs, dayKey, ls)
  {
    if ls != [] {
      TallyIsCount(cs, dayKey, ls[0]);
      LookupsAreCounts(cs, dayKey, ls[1..]);
    }
  }

  /**
   * The per-day chart has one label for each day some complaint falls on and no other,
   * in increasing order; each label's count is the number of complaints of that day,
   * and the counts add up to the total.
   */
  lemma DayChartFacts(cs: seq<Complaint>, dayKey: Complaint -> string, d: string)
    ensures Increasing(DayChart(cs, dayKey).0)
    ensures d in DayChart(cs, dayKey).0 <==> Count(cs, HasKey(dayKey, d)) > 0
    ensures DayChart(cs, dayKey).1 == CountsFor(cs, dayKey, DayChart(cs, dayKey).0)
    ensures Sum(DayChart(cs, dayKey).1) == |cs|
  {
    var tally := TallyDays(cs, dayKey);
    var labels := DayChart(cs, dayKey).0;
    TallyIsCount(cs, dayKey, d);
    LookupsAreCounts(cs, dayKey, labels);
    assert Distinct(labels) by {
      forall i, j | 0 <= i < j < |labels| ensures labels[i] != labels[j] {
        BelowIrreflexive(labels[i]);
      }
    }
    forall k | 0 <= k < |cs| ensures dayKey(cs[k]) in labels {
      CountPositive(cs, HasKey(dayKey, dayKey(cs[k])), k);
      TallyIsCount(cs, dayKey, dayKey(cs[k]));
    }
    SumOfCounts(cs, dayKey, labels);
  }
}
