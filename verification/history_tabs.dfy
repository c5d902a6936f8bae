/** The "Pendientes" and "Procesadas" tabs of the history screen, which
    split the date-filtered guides by status. */
module HistoryTabs {
  import opened Wrappers
  import opened Seqs
  import opened GuideModel

  predicate IsPending(g: RemissionGuide) {
    g.status == Some(PENDING_REVIEW)
  }

  predicate IsProcessed(g: RemissionGuide) {
    g.status != Some(PENDING_REVIEW)
  }

  /** The "Pendientes" tab: exactly the listed guides awaiting review. */
  function PendingGuides(guides: seq<RemissionGuide>): (r: seq<RemissionGuide>)
    ensures forall i :: 0 <= i < |r| ==> r[i] in guides && r[i].status == Some(PENDING_REVIEW)
    ensures forall i :: 0 <= i < |guides| && guides[i].status == Some(PENDING_REVIEW) ==> guides[i] in r
  {
    Filter(guides, IsPending)
  }

  /** The "Procesadas" tab: exactly the listed guides with any other status,
      a missing one included. */
  function ProcessedGuides(guides: seq<RemissionGuide>): (r: seq<RemissionGuide>)
    ensures forall i :: 0 <= i < |r| ==> r[i] in guides && r[i].status != Some(PENDING_REVIEW)
    ensures forall i :: 0 <= i < |guides| && guides[i].status != Some(PENDING_REVIEW) ==> guides[i] in r
  {
    Filter(guides, IsProcessed)
  }

  /** The two tabs partition the list: every guide appears in exactly one of
      them, as often as it appears in the list, and in list order. */
  lemma TabsPartitionGuides(guides: seq<RemissionGuide>)
    ensures multiset(PendingGuides(guides)) + multiset(ProcessedGuides(guides)) == multiset(guides)
    ensures |PendingGuides(guides)| + |ProcessedGuides(guides)| == |guides|
    ensures forall g :: g in PendingGuides(guides) ==> g !in ProcessedGuides(guides)
    ensures IsSubsequence(PendingGuides(guides), guides) && IsSubsequence(ProcessedGuides(guides), guides)
  {
    FilterPartition(guides, IsPending, IsProcessed);
    FilterIsSubsequence(guides, IsPending);
    FilterIsSubsequence(guides, IsProcessed);
    forall g | g in PendingGuides(guides) ensures g !in ProcessedGuides(guides) {
      var r := PendingGuides(guides);
      var i :| 0 <= i < |r| && r[i] == g;
    }
  }
}
