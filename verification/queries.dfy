/**
 * The complaint lists of the department page and the student page: whose complaints
 * are listed, the status filter, the four sort orders with their rank tables, and the
 * tickets the batch AI button works on. The rank tables and sort orders are the same
 * in both versions of each page.
 */
module Queries {
  import opened Wrappers
  import opened Domain
  import opened Lists
  import opened ClientData

  /** `priorityOrderMap`: Urgent 1, High 2, Medium 3, Low 4. */
  function PriorityRank(p: Priority): (n: int)
    ensures 1 <= n <= 4
  {
    match p
    case Urgent => 1
    case High => 2
    case Medium => 3
    case Low => 4
  }

  /** `statusOrderMap`: Reopened 1, Open 2, Closed 3. */
  function StatusRank(s: Status): (n: int)
    ensures 1 <= n <= 3
  {
    match s
    case Reopened => 1
    case Open => 2
    case Closed => 3
  }

  /** Each rank table tells its values apart, so equal ranks mean equal values. */
  lemma RanksSeparate(p: Priority, q: Priority, s: Status, t: Status)
    ensures PriorityRank(p) == PriorityRank(q) <==> p == q
    ensures StatusRank(s) == StatusRank(t) <==> s == t
  {
  }

  // ---------------------------------------------------------------- whose list

  /** The department page's list: the complaints of the signed-in user's department, or none without one. */
  function DepartmentList(viewer: Option<PublicUser>, cs: seq<Complaint>): (r: seq<Complaint>)
    ensures viewer.None? || viewer.value.departmentName.None? || viewer.value.departmentName == Some("") ==> r == []
    ensures forall k :: 0 <= k < |r| ==> Some(r[k].department) == viewer.value.departmentName
  {
    if viewer.Some? && viewer.value.departmentName.Some? && viewer.value.departmentName.value != ""
    then ByDepartment(cs, viewer.value.departmentName.value)
    else []
  }

  /** The student page's list: the signed-in user's own complaints, or none when signed out. */
  function StudentList(viewer: Option<PublicUser>, cs: seq<Complaint>): (r: seq<Complaint>)
    ensures viewer.None? ==> r == []
    ensures forall k :: 0 <= k < |r| ==> r[k].studentId == viewer.value.id
  {
    if viewer.Some? then ByStudent(cs, viewer.value.id) else []
  }

  // ---------------------------------------------------------------- status filter

  /** The status filter: 'All' or one status. */
  datatype StatusChoice = All | Only(status: Status)

  function Passes(f: StatusChoice): Complaint -> bool {
    (c: Complaint) => f.All? || c.status == f.status
  }

  /** The filtered list, in list order. */
  function FilterByStatus(cs: seq<Complaint>, f: StatusChoice): (r: seq<Complaint>)
    ensures forall k :: 0 <= k < |r| ==> f.All? || r[k].status == f.status
  {
    if f.All? then cs else Filter(cs, Passes(f))
  }

  /** 'All' keeps the list as it is; a status keeps exactly the complaints that have it, each as often as listed. */
  lemma StatusFilterExact(cs: seq<Complaint>, f: StatusChoice, c: Complaint)
    ensures f.All? ==> FilterByStatus(cs, f) == cs
    ensures multiset(FilterByStatus(cs, f))[c] == if f.All? || c.status == f.status then multiset(cs)[c] else 0
  {
    FilterMultiset(cs, Passes(f), c);
  }

  // ---------------------------------------------------------------- sort orders

  datatype SortOrder = DateAsc | ByStatus | ByPriority | DateDesc

  /** The value of the sort select that names an order. */
  function SortOrderValue(o: SortOrder): string {
    match o
    case DateAsc => "date-asc"
    case ByStatus => "status"
    case ByPriority => "priority"
    case DateDesc => "date-desc"
  }

  /** The `switch (sortOrder)`: a value names its order; anything else falls back to newest first. */
  function SortOrderOf(value: string): (o: SortOrder)
    ensures o == DateDesc || SortOrderValue(o) == value
  {
    if value == "date-asc" then DateAsc
    else if value == "status" then ByStatus
    else if value == "priority" then ByPriority
    else DateDesc
  }

  /** Each order is selected by its own value. */
  lemma SortOrderRoundTrip(o: SortOrder)
    ensures SortOrderOf(SortOrderValue(o)) == o
  {
  }

  /**
   * The key each comparator subtracts: `a - b` of creation time, status rank or
   * priority rank; the newest-first comparator `b - a` is the negated creation time.
   */
  function OrderKey(o: SortOrder): Complaint -> int {
    match o
    case DateAsc => (c: Complaint) => c.createdAt
    case ByStatus => (c: Complaint) => StatusRank(c.status)
    case ByPriority => (c: Complaint) => PriorityRank(c.priority)
    case DateDesc => (c: Complaint) => -c.createdAt
  }

  /** A sorted copy of the list for the chosen order. */
  function Ordered(cs: seq<Complaint>, o: SortOrder): (r: seq<Complaint>)
    ensures multiset(r) == multiset(cs)
    ensures o == DateAsc ==> forall i, j :: 0 <= i < j < |r| ==> r[i].createdAt <= r[j].createdAt
    ensures o == DateDesc ==> forall i, j :: 0 <= i < j < |r| ==> r[i].createdAt >= r[j].createdAt
    ensures o == ByStatus ==> forall i, j :: 0 <= i < j < |r| ==> StatusRank(r[i].status) <= StatusRank(r[j].status)
    ensures o == ByPriority ==> forall i, j :: 0 <= i < j < |r| ==> PriorityRank(r[i].priority) <= PriorityRank(r[j].priority)
  {
    var r := SortByKey(cs, OrderKey(o));
    assert SortedBy(r, OrderKey(o));
    r
  }

  /** The complaint has status `s`. */
  function WithStatus(s: Status): Complaint -> bool {
    (c: Complaint) => c.status == s
  }

  /** The complaint has priority `p`. */
  function WithPriority(p: Priority): Complaint -> bool {
    (c: Complaint) => c.priority == p
  }

  /**
   * Sorting by status keeps the complaints of each status in list order (so a list
   * already newest first stays newest first within each status), and likewise for priority.
   */
  lemma RankSortsKeepTies(cs: seq<Complaint>, s: Status, p: Priority)
    ensures Filter(Ordered(cs, ByStatus), WithStatus(s)) == Filter(cs, WithStatus(s))
    ensures Filter(Ordered(cs, ByPriority), WithPriority(p)) == Filter(cs, WithPriority(p))
  {
    var statusKey := OrderKey(ByStatus);
    forall c ensures KeyIs(statusKey, StatusRank(s))(c) == WithStatus(s)(c) {
      RanksSeparate(p, p, c.status, s);
    }
    SortStable(cs, statusKey, StatusRank(s));
    FilterCongruent(Ordered(cs, ByStatus), KeyIs(statusKey, StatusRank(s)), WithStatus(s));
    FilterCongruent(cs, KeyIs(statusKey, StatusRank(s)), WithStatus(s));
    var priorityKey := OrderKey(ByPriority);
    forall c ensures KeyIs(priorityKey, PriorityRank(p))(c) == WithPriority(p)(c) {
      RanksSeparate(c.priority, p, s, s);
    }
    SortStable(cs, priorityKey, PriorityRank(p));
    FilterCongruent(Ordered(cs, ByPriority), KeyIs(priorityKey, PriorityRank(p)), WithPriority(p));
    FilterCongruent(cs, KeyIs(priorityKey, PriorityRank(p)), WithPriority(p));
  }

  /**
   * `Ordered` is what any stable sort with the page's comparator returns: a list
   * ordered by the key that keeps the ties of every key in list order is exactly it.
   */
  lemma OrderedIsTheStableSort(cs: seq<Complaint>, o: SortOrder, r: seq<Complaint>)
    requires SortedBy(r, OrderKey(o))
    requires forall k :: Filter(r, KeyIs(OrderKey(o), k)) == Filter(cs, KeyIs(OrderKey(o), k))
    ensures r == Ordered(cs, o)
  {
    StableSortUnique(cs, r, OrderKey(o));
  }

  /** `processedComplaints`: the status filter, then the chosen order. */
  function Processed(cs: seq<Complaint>, f: StatusChoice, order: string): (r: seq<Complaint>)
    ensures multiset(r) == multiset(FilterByStatus(cs, f))
    ensures |r| <= |cs|
  {
    Ordered(FilterByStatus(cs, f), SortOrderOf(order))
  }

  /** The department page lists only its own department's complaints, each one it holds that passes the filter. */
  lemma ProcessedDepartmentList(viewer: Option<PublicUser>, cs: seq<Complaint>, f: StatusChoice, order: string, c: Complaint)
    requires viewer.Some? && viewer.value.departmentName.Some? && viewer.value.departmentName.value != ""
    ensures c in Processed(DepartmentList(viewer, cs), f, order) <==>
              c in cs && c.department == viewer.value.departmentName.value && (f.All? || c.status == f.status)
  {
    var name := viewer.value.departmentName.value;
    var mine := DepartmentList(viewer, cs);
    GettersAreExact(cs, "", name, c);
    StatusFilterExact(mine, f, c);
    assert c in Processed(mine, f, order) <==> multiset(Processed(mine, f, order))[c] > 0;
  }

  // ---------------------------------------------------------------- batch selection

  /** A ticket the batch button drafts a solution for: Open or Reopened, with no solution text. */
  predicate NeedsSolution(c: Complaint) {
    (c.status == Open || c.status == Reopened) && c.solutionText == ""
  }

  /** `ticketsToProcess`: the tickets needing a solution, in list order. */
  function BatchSelection(cs: seq<Complaint>): (r: seq<Complaint>)
    ensures forall k :: 0 <= k < |r| ==> NeedsSolution(r[k])
  {
    Filter(cs, NeedsSolution)
  }

  /** `openTicketsWithoutSolutions`, the number on the button, computed by its own filter. */
  function PendingCount(cs: seq<Complaint>): nat {
    Count(cs, NeedsSolution)
  }

  /**
   * The button's number is the size of the selection the batch works on, and the
   * selection holds every ticket needing a solution (as often as listed) and nothing else.
   */
  lemma SelectionMatchesCount(cs: seq<Complaint>, c: Complaint)
    ensures |BatchSelection(cs)| == PendingCount(cs)
    ensures multiset(BatchSelection(cs))[c] == if NeedsSolution(c) then multiset(cs)[c] else 0
  {
    FilterCount(cs, NeedsSolution);
    FilterMultiset(cs, NeedsSolution, c);
  }

  /** No ticket needing a solution means an empty selection: the batch returns before any request. */
  lemma NothingPendingSelectsNothing(cs: seq<Complaint>)
    requires forall k :: 0 <= k < |cs| ==> !NeedsSolution(cs[k])
    ensures BatchSelection(cs) == []
    ensures PendingCount(cs) == 0
  {
    FilterCount(cs, NeedsSolution);
    if BatchSelection(cs) != [] {
      var c := BatchSelection(cs)[0];
      FilterMultiset(cs, NeedsSolution, c);
    }
  }
}
