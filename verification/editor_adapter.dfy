/**
 The editor side of applying a plan: reject a batch with any out-of-bounds
 edit, and otherwise turn the edits into one change list ordered by
 descending start offset. The dispatch itself is a call into the editor and
 is represented by the change list it would receive.
 */
module EditorAdapter {
  import opened Types
  import Sorting

  /** One change of a transaction: replace [from, to) with `insert`. */
  datatype Change = Change(from: int, to: int, insert: string)

  /** What `applyEdits` reports, and the changes it dispatches, if any. */
  datatype ApplyOutcome = ApplyOutcome(success: bool, dispatched: Option<seq<Change>>)

  /** An edit the document of length `docLength` can take. */
  predicate InBounds(e: NormalizationEdit, docLength: int) {
    0 <= e.from <= e.to <= docLength
  }

  /** `validateEdits`: the edits in order, stopping at the first out-of-bounds one. */
  function ValidateEdits(docLength: int, edits: seq<NormalizationEdit>): (ok: bool)
    ensures ok <==> forall i :: 0 <= i < |edits| ==> InBounds(edits[i], docLength)
  {
    if edits == [] then true
    else if edits[0].from < 0 || edits[0].to > docLength || edits[0].from > edits[0].to then false
    else
      var ok := ValidateEdits(docLength, edits[1..]);
      assert forall i :: 1 <= i < |edits| ==> edits[i] == edits[1..][i - 1];
      ok
  }

  /** The change a transaction carries for an edit: its range and text, nothing else. */
  function ToChange(e: NormalizationEdit): (c: Change)
    ensures c.from == e.from && c.to == e.to && c.insert == e.insert
  {
    Change(e.from, e.to, e.insert)
  }

  /** Sort key under which an ascending sort orders changes by descending `from`. */
  function ChangeDescending(c: Change): int {
    -c.from
  }

  /**
   `buildTransaction`'s change list: a copy of the edits stably sorted by
   descending `from`, each mapped to its change.
   */
  function BuildTransaction(edits: seq<NormalizationEdit>): (changes: seq<Change>)
    ensures |changes| == |edits|
    ensures multiset(changes) == multiset(Sorting.Map(ToChange, edits))
    ensures forall i, j :: 0 <= i < j < |changes| ==> changes[i].from >= changes[j].from
  {
    var sorted := Sorting.SortBy(edits, DescendingFrom);
    Sorting.MapSortCommute(ToChange, edits, DescendingFrom, ChangeDescending);
    Sorting.Map(ToChange, sorted)
  }

  /** Edits already ordered by descending `from` are dispatched in their own order. */
  lemma {:induction false} TransactionKeepsDescendingOrder(edits: seq<NormalizationEdit>)
    requires forall i, j :: 0 <= i < j < |edits| ==> edits[i].from >= edits[j].from
    ensures BuildTransaction(edits) == Sorting.Map(ToChange, edits)
  {
    Sorting.SortSortedIsIdentity(edits, DescendingFrom);
  }

  /**
   `applyEdits` on a document of length `docLength`: an empty batch succeeds
   at once; a batch with an out-of-bounds edit fails without dispatching;
   otherwise the transaction is dispatched.
   */
  function ApplyEdits(docLength: int, edits: seq<NormalizationEdit>): (r: ApplyOutcome)
    ensures r.success <==> forall i :: 0 <= i < |edits| ==> InBounds(edits[i], docLength)
    ensures r.dispatched.Some? <==> r.success && edits != []
    ensures r.dispatched.Some? ==> r.dispatched.value == BuildTransaction(edits)
  {
    if |edits| == 0 then ApplyOutcome(true, None)
    else if !ValidateEdits(docLength, edits) then ApplyOutcome(false, None)
    else ApplyOutcome(true, Some(BuildTransaction(edits)))
  }

  /** An empty batch succeeds whatever the document, without dispatching. */
  lemma EmptyBatchAccepted(docLength: int)
    ensures ApplyEdits(docLength, []) == ApplyOutcome(true, None)
  {
  }

  /** One out-of-bounds edit rejects the whole batch and nothing is dispatched. */
  lemma OneBadEditRejectsBatch(docLength: int, edits: seq<NormalizationEdit>, k: nat)
    requires k < |edits| && !InBounds(edits[k], docLength)
    ensures ApplyEdits(docLength, edits) == ApplyOutcome(false, None)
  {
  }
}
