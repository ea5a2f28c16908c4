/**
 The scheduler: `pick_request` selects one job of the buffer and unlinks it.

 The policy is the process-wide integer `scheduling_algo`: 0 is FIFO, 1 is
 shortest-file-first with aging, 2 is random; any other value selects
 nothing. The clock reading `time(NULL)` is the parameter `now` and the
 pseudo-random number `rand()` is the parameter `draw` (a non-negative
 number, so C's `%` and Dafny's `%` agree on it).
 */
module Scheduler {
  import opened Jobs

  const FifoAlgo: int := 0
  const SffAlgo: int := 1
  const RandomAlgo: int := 2

  /** A job that has waited this long overrides any candidate under SFF. */
  const AgingThreshold: int := 10

  predicate Aged(job: Job, now: int)
  {
    now - job.arrival >= AgingThreshold
  }

  /** The SFF replacement test applied to each visited node `cur`. */
  predicate Overrides(cur: Job, selected: Job, now: int)
  {
    Aged(cur, now) || cur.fileSize < selected.fileSize
  }

  /** The SFF scan from position `i` on, with current candidate `sel`:
      each visited node that passes `Overrides` becomes the candidate. */
  function SffScan(s: seq<Job>, now: int, sel: nat, i: nat): (r: nat)
    requires sel < |s| && i <= |s|
    ensures r < |s|
    ensures r == sel || i <= r
    decreases |s| - i
  {
    if i == |s| then sel
    else SffScan(s, now, if Overrides(s[i], s[sel], now) then i else sel, i + 1)
  }

  /** The SFF pick: the scan starts at the head with the head as candidate
      (the C loop also visits the head, which never changes the outcome). */
  function SffIndex(s: seq<Job>, now: int): (r: nat)
    requires |s| > 0
    ensures r < |s|
  {
    SffScan(s, now, 0, 0)
  }

  /** The position of the last aged job, if any. */
  function LastAged(s: seq<Job>, now: int): (r: Option<nat>)
    ensures r.Some? ==> r.value < |s| && Aged(s[r.value], now)
    ensures r.Some? ==> forall j :: r.value < j < |s| ==> !Aged(s[j], now)
    ensures r.None? ==> forall j :: 0 <= j < |s| ==> !Aged(s[j], now)
  {
    if |s| == 0 then None
    else if Aged(s[|s| - 1], now) then Some(|s| - 1)
    else LastAged(s[..|s| - 1], now)
  }

  /** Where the SFF pick is effectively decided from: the last aged job,
      or the head when no job is aged. */
  function ScanStart(s: seq<Job>, now: int): nat
  {
    match LastAged(s, now)
    case None => 0
    case Some(k) => k
  }

  /** Reference definition: `k` is the earliest position, among positions
      `lo` and later, holding a smallest file. */
  ghost predicate IsEarliestSmallest(s: seq<Job>, lo: int, k: int)
  {
    && 0 <= lo <= k < |s|
    && (forall j :: lo <= j < |s| ==> s[k].fileSize <= s[j].fileSize)
    && (forall j :: lo <= j < k ==> s[k].fileSize < s[j].fileSize)
  }

  /** The reference definition picks at most one position. */
  lemma EarliestSmallestIsUnique(s: seq<Job>, lo: int, a: int, b: int)
    requires IsEarliestSmallest(s, lo, a) && IsEarliestSmallest(s, lo, b)
    ensures a == b
  {
    assert s[a].fileSize <= s[b].fileSize;
    assert s[b].fileSize <= s[a].fileSize;
  }

  /** Reaching an aged job makes it the candidate whatever came before, so
      the scan's outcome is that of a scan restarted just after it. */
  lemma {:induction false} SffScanPassesAged(s: seq<Job>, now: int, sel: nat, i: nat, k: nat)
    requires sel < |s| && i <= k < |s| && Aged(s[k], now)
    ensures SffScan(s, now, sel, i) == SffScan(s, now, k, k + 1)
    decreases k - i
  {
    var sel' := if Overrides(s[i], s[sel], now) then i else sel;
    if i < k {
      SffScanPassesAged(s, now, sel', i + 1, k);
    }
  }

  /** Over a stretch without aged jobs the scan is a strict-improvement
      minimum search, so it ends on the earliest smallest file. */
  lemma {:induction false} SffScanFindsSmallest(s: seq<Job>, now: int, lo: nat, sel: nat, i: nat)
    requires lo <= sel < |s| && lo <= i <= |s|
    requires forall j :: lo <= j < i ==> s[sel].fileSize <= s[j].fileSize
    requires forall j :: lo <= j < sel ==> s[sel].fileSize < s[j].fileSize
    requires forall j :: i <= j < |s| ==> !Aged(s[j], now)
    ensures IsEarliestSmallest(s, lo, SffScan(s, now, sel, i))
    decreases |s| - i
  {
    if i < |s| {
      var sel' := if Overrides(s[i], s[sel], now) then i else sel;
      SffScanFindsSmallest(s, now, lo, sel', i + 1);
    }
  }

  /** Exact characterisation of SFF with aging: the pick is the earliest
      smallest file at or after the last aged job (at or after the head
      when no job is aged). */
  lemma SffPicksEarliestSmallestFromLastAged(s: seq<Job>, now: int)
    requires |s| > 0
    ensures IsEarliestSmallest(s, ScanStart(s, now), SffIndex(s, now))
  {
    match LastAged(s, now)
    case None =>
      SffScanFindsSmallest(s, now, 0, 0, 0);
    case Some(k) =>
      SffScanPassesAged(s, now, 0, 0, k);
      SffScanFindsSmallest(s, now, k, k, k + 1);
  }

  /** With no aged job, SFF picks the earliest job among those with the
      smallest file size. */
  lemma SffWithoutAgingPicksEarliestSmallest(s: seq<Job>, now: int)
    requires |s| > 0
    requires forall j :: 0 <= j < |s| ==> !Aged(s[j], now)
    ensures IsEarliestSmallest(s, 0, SffIndex(s, now))
  {
    SffPicksEarliestSmallestFromLastAged(s, now);
  }

  /** No aged job is passed over in favour of an earlier job: the pick is
      at or after every aged job. */
  lemma SffPicksAtOrAfterEveryAged(s: seq<Job>, now: int, k: nat)
    requires k < |s| && Aged(s[k], now)
    ensures k <= SffIndex(s, now)
  {
    SffPicksEarliestSmallestFromLastAged(s, now);
  }

  /** An aged job at the tail is always the one picked. */
  lemma SffPicksAgedTail(s: seq<Job>, now: int)
    requires |s| > 0 && Aged(s[|s| - 1], now)
    ensures SffIndex(s, now) == |s| - 1
  {
    SffPicksAtOrAfterEveryAged(s, now, |s| - 1);
  }

  /** Two fresh jobs of sizes 1000 and 1: the second, smaller one is picked. */
  lemma SffSmallerLaterJobWins(now: int, a: Job, b: Job)
    requires a.arrival == now && b.arrival == now
    requires a.fileSize == 1000 && b.fileSize == 1
    ensures SffIndex([a, b], now) == 1
  {
    var s := [a, b];
    assert forall j :: 0 <= j < |s| ==> s[j].arrival == now;
    SffWithoutAgingPicksEarliestSmallest(s, now);
    assert s[0].fileSize > s[1].fileSize;
  }

  /** An aged head of size 1000 followed by a fresh job of size 500: the
      strictly smaller fresh job overrides the aged candidate. */
  lemma SffFreshSmallerJobOverridesAgedHead(now: int, a: Job, b: Job)
    requires a.arrival == now - 11 && b.arrival == now
    requires a.fileSize == 1000 && b.fileSize == 500
    ensures SffIndex([a, b], now) == 1
  {
    var s := [a, b];
    assert s[..1] == [a];
    assert LastAged(s, now) == Some(0);
    SffPicksEarliestSmallestFromLastAged(s, now);
    assert s[0].fileSize > s[1].fileSize;
  }

  /** The position `pick_request` unlinks, or None when it returns NULL:
      an empty list under FIFO, or an unknown policy code. SFF and random
      dereference the head and divide by the length, so they need a
      non-empty list. */
  function SelectIndex(algo: int, s: seq<Job>, now: int, draw: nat): (r: Option<nat>)
    requires (algo == SffAlgo || algo == RandomAlgo) ==> |s| > 0
    ensures r.Some? ==> r.value < |s|
    ensures r.None? <==> |s| == 0 || !(FifoAlgo <= algo <= RandomAlgo)
  {
    if algo == FifoAlgo then
      if |s| == 0 then None else Some(0)
    else if algo == SffAlgo then
      Some(SffIndex(s, now))
    else if algo == RandomAlgo then
      Some(draw % |s|)
    else
      None
  }

  /** The returned node (NULL as None) and the list left behind. */
  datatype Pick = Pick(job: Option<Job>, rest: seq<Job>)

  /** `pick_request`: select one job and unlink it; a NULL result leaves
      the list as it was. */
  function PickRequest(algo: int, s: seq<Job>, now: int, draw: nat): (r: Pick)
    requires (algo == SffAlgo || algo == RandomAlgo) ==> |s| > 0
    ensures r.job.None? <==> |s| == 0 || !(FifoAlgo <= algo <= RandomAlgo)
    ensures r.job.None? ==> r.rest == s
    ensures r.job.Some? ==>
      var i := SelectIndex(algo, s, now, draw).value;
      r.job.value == s[i] && IsDeletion(s, r.rest, i)
    ensures r.job.Some? ==> multiset(r.rest) + multiset{r.job.value} == multiset(s)
  {
    match SelectIndex(algo, s, now, draw)
    case None => Pick(None, s)
    case Some(i) => Pick(Some(s[i]), RemoveAt(s, i))
  }

  /** FIFO returns the head and leaves the tail in order; on an empty list
      it returns nothing and the list stays empty. */
  lemma FifoTakesHead(s: seq<Job>, now: int, draw: nat)
    ensures |s| > 0 ==> PickRequest(FifoAlgo, s, now, draw) == Pick(Some(s[0]), s[1..])
    ensures |s| == 0 ==> PickRequest(FifoAlgo, s, now, draw) == Pick(None, [])
  {
  }

  /** Random removes exactly the job at position `draw mod |s|`. */
  lemma RandomRemovesDrawnPosition(s: seq<Job>, now: int, draw: nat)
    requires |s| > 0
    ensures var r := PickRequest(RandomAlgo, s, now, draw);
      && r.job == Some(s[draw % |s|])
      && IsDeletion(s, r.rest, draw % |s|)
  {
  }

  /** SFF removes the earliest smallest job at or after the last aged job,
      keeping the others in order. */
  lemma SffRemovesCharacterisedJob(s: seq<Job>, now: int, draw: nat)
    requires |s| > 0
    ensures var r := PickRequest(SffAlgo, s, now, draw);
      exists k :: IsEarliestSmallest(s, ScanStart(s, now), k) && r.job == Some(s[k]) && IsDeletion(s, r.rest, k)
  {
    SffPicksEarliestSmallestFromLastAged(s, now);
    var k := SffIndex(s, now);
    assert IsEarliestSmallest(s, ScanStart(s, now), k);
  }

  /** Dequeue under FIFO until the list is empty; the jobs in the order served. */
  function DrainFifo(s: seq<Job>): seq<Job>
    decreases |s|
  {
    var p := PickRequest(FifoAlgo, s, 0, 0);
    match p.job
    case None => []
    case Some(j) => [j] + DrainFifo(p.rest)
  }

  /** FIFO serves jobs in exactly the order they stand in the list, which
      is the order they were enqueued at the tail. */
  lemma {:induction false} FifoServesInListOrder(s: seq<Job>)
    ensures DrainFifo(s) == s
    decreases |s|
  {
    FifoTakesHead(s, 0, 0);
    if |s| > 0 {
      FifoServesInListOrder(s[1..]);
    }
  }
}
