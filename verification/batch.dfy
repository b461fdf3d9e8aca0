/**
 * The sequential batch of the root department page: for each selected ticket in
 * turn, request an AI draft from the generate-solution endpoint, send it as the
 * ticket's `solutionText` through the root server's update endpoint, and replace the
 * ticket in the client's list; the first failure ends the batch. The AI model is the
 * parameter `draft`; a failed call is `None`.
 */
module Batch {
  import opened Wrappers
  import opened Domain
  import opened ClientData
  import opened ComplaintServer

  /** What the batch acts on: the server's table and the client's cached list. */
  datatype World = World(store: Store, list: seq<Complaint>)

  /** The solution a ticket is given when its draft succeeds. */
  function Drafted(c: Complaint, draft: (string, string) -> Option<string>): Option<string> {
    draft(c.complaintText, c.department)
  }

  /** The row a ticket gets: the stored row with the draft as its solution text. */
  function WithSolution(row: Complaint, text: string): (r: Complaint)
    ensures r.id == row.id && r.solutionText == text
  {
    row.(solutionText := text)
  }

  /**
   * One ticket: fetch the draft, then `updateComplaint(id, { solutionText })` and
   * replace the returned row in the list; `None` when either request throws.
   */
  function Step(w: World, c: Complaint, draft: (string, string) -> Option<string>): (r: Option<World>)
    ensures r.None? <==> Drafted(c, draft).None? || RowKey(c.id) !in w.store
  {
    match Drafted(c, draft)
    case None => None
    case Some(text) =>
      if RowKey(c.id) !in w.store then None
      else
        var row := WithSolution(w.store[RowKey(c.id)], text);
        Some(World(w.store[RowKey(c.id) := row], ReplaceById(w.list, c.id, row)))
  }

  /**
   * `Step` is the composition of the two endpoints the page calls: the draft endpoint,
   * then the root server's update with the body `{ solutionText }`, whose answer row
   * replaces the ticket in the list.
   */
  lemma StepIsEndpointCalls(w: World, studentIds: set<string>, c: Complaint, draft: (string, string) -> Option<string>)
    ensures Step(w, c, draft) ==
              match GenerateSolution(c.complaintText, c.department, draft)
              case Failure(_) => None
              case Success(text) =>
                match UpdatePlain(w.store, studentIds, c.id, NoChange.(solutionText := Some(text)))
                case Failure(_) => None
                case Success(updated) => Some(World(updated.0, ReplaceById(w.list, c.id, updated.1)))
  {
    if Drafted(c, draft).Some? && RowKey(c.id) in w.store {
      var p := NoChange.(solutionText := Some(Drafted(c, draft).value));
      assert UpdatePlain(w.store, studentIds, c.id, p).value.1 == Merge(w.store[RowKey(c.id)], p);
    }
  }

  /** The batch from the first selected ticket on: the final world and the number of tickets done. */
  function RunFrom(w: World, selection: seq<Complaint>, draft: (string, string) -> Option<string>): (r: (World, nat))
    ensures r.1 <= |selection|
    decreases |selection|
  {
    if selection == [] then (w, 0)
    else
      match Step(w, selection[0], draft)
      case None => (w, 0)
      case Some(next) =>
        var rest := RunFrom(next, selection[1..], draft);
        (rest.0, rest.1 + 1)
  }

  /**
   * The loop of the root page's `handleBatchGenerateSolutions` (an empty selection never reaches it),
   * counting `successCount` and stopping at the first ticket whose draft or update fails.
   */
  method RunBatch(w0: World, selection: seq<Complaint>, draft: (string, string) -> Option<string>)
    returns (w: World, successCount: nat)
    ensures (w, successCount) == RunFrom(w0, selection, draft)
    ensures successCount <= |selection|
  {
    w := w0;
    successCount := 0;
    var stopped := false;
    ghost var total := RunFrom(w0, selection, draft);
    assert selection[0..] == selection;
    while successCount < |selection| && !stopped
      invariant 0 <= successCount <= |selection|
      invariant stopped ==> total == (w, successCount)
      invariant !stopped ==> total == Later(RunFrom(w, selection[successCount..], draft), successCount)
      decreases |selection| - successCount, if stopped then 0 else 1
    {
      var step := Step(w, selection[successCount], draft);
      Advance(w, selection, successCount, draft);
      if step.None? {
        stopped := true;
      } else {
        w := step.value;
        successCount := successCount + 1;
      }
    }
    if !stopped {
      assert selection[successCount..] == [];
    }
  }

  /** A run's result as seen from `done` tickets earlier. */
  function Later(r: (World, nat), done: nat): (World, nat) {
    (r.0, r.1 + done)
  }

  /** A failing first ticket ends the run where it stands. */
  lemma RunFromStops(w: World, rest: seq<Complaint>, draft: (string, string) -> Option<string>)
    requires rest != [] && Step(w, rest[0], draft).None?
    ensures RunFrom(w, rest, draft) == (w, 0)
  {
  }

  /** A succeeding first ticket counts one and hands its world to the rest of the run. */
  lemma RunFromContinues(w: World, rest: seq<Complaint>, draft: (string, string) -> Option<string>, next: World)
    requires rest != [] && Step(w, rest[0], draft) == Some(next)
    ensures RunFrom(w, rest, draft) == Later(RunFrom(next, rest[1..], draft), 1)
  {
  }

  /** The loop's step: ticket `i` either ends the run at `i` tickets or passes its world on to ticket `i + 1`. */
  lemma Advance(w: World, selection: seq<Complaint>, i: nat, draft: (string, string) -> Option<string>)
    requires i < |selection|
    ensures match Step(w, selection[i], draft)
            case None => Later(RunFrom(w, selection[i..], draft), i) == (w, i)
            case Some(next) => Later(RunFrom(w, selection[i..], draft), i) == Later(RunFrom(next, selection[i + 1..], draft), i + 1)
  {
    var rest := selection[i..];
    assert rest[0] == selection[i] && rest[1..] == selection[i + 1..];
    match Step(w, selection[i], draft)
    case None => RunFromStops(w, rest, draft);
    case Some(next) => RunFromContinues(w, rest, draft, next);
  }

  /** No two selected tickets' ids are the same key (ticket ids are the table's primary key). */
  predicate DistinctKeys(selection: seq<Complaint>) {
    forall i, j :: 0 <= i < j < |selection| ==> RowKey(selection[i].id) != RowKey(selection[j].id)
  }

  /** Tickets done are tickets whose draft and update succeeded; the first ticket not done failed. */
  lemma {:induction false} RunFromProgress(w: World, selection: seq<Complaint>, draft: (string, string) -> Option<string>)
    ensures var (_, n) := RunFrom(w, selection, draft);
            && (forall k :: 0 <= k < n ==> Drafted(selection[k], draft).Some? && RowKey(selection[k].id) in w.store)
            && (n < |selection| ==> Drafted(selection[n], draft).None? || RowKey(selection[n].id) !in w.store)
    decreases |selection|
  {
    if selection != [] {
      match Step(w, selection[0], draft)
      case None =>
      case Some(next) =>
        RunFromProgress(next, selection[1..], draft);
        var n := RunFrom(next, selection[1..], draft).1;
        assert next.store.Keys == w.store.Keys;
        forall k | 1 <= k < n + 1 ensures Drafted(selection[k], draft).Some? && RowKey(selection[k].id) in w.store {
          assert selection[1..][k - 1] == selection[k];
        }
        if n + 1 < |selection| {
          assert selection[1..][n] == selection[n + 1];
        }
    }
  }

  /** The table keeps its keys, and every row whose key no completed ticket's id has is untouched. */
  lemma {:induction false} RunFromLeavesOthers(w: World, selection: seq<Complaint>, draft: (string, string) -> Option<string>)
    ensures var (w', n) := RunFrom(w, selection, draft);
            && w'.store.Keys == w.store.Keys
            && forall key :: key in w.store && (forall k :: 0 <= k < n ==> RowKey(selection[k].id) != key) ==>
                 w'.store[key] == w.store[key]
    decreases |selection|
  {
    if selection != [] {
      match Step(w, selection[0], draft)
      case None =>
      case Some(next) =>
        RunFromLeavesOthers(next, selection[1..], draft);
        var n := RunFrom(next, selection[1..], draft).1;
        forall key | key in w.store && (forall k :: 0 <= k < n + 1 ==> RowKey(selection[k].id) != key)
          ensures forall k :: 0 <= k < n ==> RowKey(selection[1..][k].id) != key
        {
          forall k | 0 <= k < n ensures RowKey(selection[1..][k].id) != key {
            assert selection[1..][k] == selection[k + 1];
          }
        }
    }
  }

  /** Dropping the first ticket keeps the keys distinct, and none of the others has its key. */
  lemma DistinctTail(selection: seq<Complaint>)
    requires selection != [] && DistinctKeys(selection)
    ensures DistinctKeys(selection[1..])
    ensures forall k :: 0 <= k < |selection| - 1 ==> RowKey(selection[1..][k].id) != RowKey(selection[0].id)
  {
    var rest := selection[1..];
    forall i, j | 0 <= i < j < |rest| ensures RowKey(rest[i].id) != RowKey(rest[j].id) {
      assert rest[i] == selection[i + 1] && rest[j] == selection[j + 1];
    }
    forall k | 0 <= k < |rest| ensures RowKey(rest[k].id) != RowKey(selection[0].id) {
      assert rest[k] == selection[k + 1];
    }
  }

  /** With distinct keys, each completed ticket's row ends up with its own draft as solution and nothing else changed. */
  lemma {:induction false} RunFromWritesDrafts(w: World, selection: seq<Complaint>, draft: (string, string) -> Option<string>)
    requires DistinctKeys(selection)
    ensures var (w', n) := RunFrom(w, selection, draft);
            && w'.store.Keys == w.store.Keys
            && forall k :: 0 <= k < n ==>
              RowKey(selection[k].id) in w.store && Drafted(selection[k], draft).Some? &&
              w'.store[RowKey(selection[k].id)]
                == w.store[RowKey(selection[k].id)].(solutionText := Drafted(selection[k], draft).value)
    decreases |selection|
  {
    if selection != [] {
      match Step(w, selection[0], draft)
      case None =>
      case Some(next) =>
        var rest := selection[1..];
        DistinctTail(selection);
        RunFromWritesDrafts(next, rest, draft);
        RunFromLeavesOthers(next, rest, draft);
        RunFromProgress(w, selection, draft);
        var n := RunFrom(next, rest, draft).1;
        forall k | 1 <= k < n + 1
          ensures RunFrom(w, selection, draft).0.store[RowKey(selection[k].id)]
                  == w.store[RowKey(selection[k].id)].(solutionText := Drafted(selection[k], draft).value)
        {
          assert rest[k - 1] == selection[k];
          assert RowKey(selection[k].id) != RowKey(selection[0].id);
        }
    }
  }

  /** Every selected ticket's id is spelt as the list spells it, as for tickets picked from the list. */
  predicate SelectionSpeltAsListed(list: seq<Complaint>, selection: seq<Complaint>) {
    forall k :: 0 <= k < |selection| ==> SpeltAsListed(list, selection[k].id)
  }

  /** A succeeding step on a mirrored list keeps the list's length and every entry's id. */
  lemma StepKeepsListIds(w: World, c: Complaint, draft: (string, string) -> Option<string>)
    requires Mirrors(w.list, w.store) && Step(w, c, draft).Some?
    ensures var next := Step(w, c, draft).value;
            |next.list| == |w.list| && forall k :: 0 <= k < |w.list| ==> next.list[k].id == w.list[k].id
  {
    var next := Step(w, c, draft).value;
    forall k | 0 <= k < |w.list| ensures next.list[k].id == w.list[k].id {
      if w.list[k].id == c.id {
        assert w.store[RowKey(c.id)] == w.list[k];
      }
    }
  }

  /**
   * A batch over tickets spelt as the list spells them keeps the client's list faithful
   * to the server's table.
   */
  lemma {:induction false} RunFromKeepsMirror(w: World, selection: seq<Complaint>, draft: (string, string) -> Option<string>)
    requires Mirrors(w.list, w.store) && SelectionSpeltAsListed(w.list, selection)
    ensures Mirrors(RunFrom(w, selection, draft).0.list, RunFrom(w, selection, draft).0.store)
    decreases |selection|
  {
    if selection != [] {
      match Step(w, selection[0], draft)
      case None =>
      case Some(next) =>
        var c := selection[0];
        assert SpeltAsListed(w.list, c.id);
        forall k | 0 <= k < |next.list|
          ensures RowKey(next.list[k].id) in next.store && next.store[RowKey(next.list[k].id)] == next.list[k]
        {
          if w.list[k].id != c.id {
            assert next.list[k] == w.list[k];
            assert !SameKey(w.list[k].id, c.id);
          } else {
            assert w.store[RowKey(c.id)] == w.list[k];
          }
        }
        StepKeepsListIds(w, c, draft);
        forall k | 0 <= k < |selection| - 1 ensures SpeltAsListed(next.list, selection[1..][k].id) {
          assert selection[1..][k] == selection[k + 1];
          assert SpeltAsListed(w.list, selection[k + 1].id);
        }
        RunFromKeepsMirror(next, selection[1..], draft);
    }
  }
}
