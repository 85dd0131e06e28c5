/**
 * Choosing the thread to report (src/crash_screen.c): the walk of
 * crash_screen_get_faulted_thread over the active thread queue, and the
 * re-wait loop of crash_screen_thread_entry. The queue is given as the thread
 * records in tlnext order; the libultra queue ends in a record of priority -1.
 */
module FaultWatch {
  import opened Wrappers

  /** The fields of an OSThread the walk reads. */
  datatype ThreadInfo = ThreadInfo(priority: int, flags: bv16)

  /** The queue's end marker. */
  predicate IsSentinel(t: ThreadInfo) {
    t.priority == -1
  }

  /** A user thread (priority 1 .. 0x7E) stopped by a break or a fault (flag bit 0 or 1). */
  predicate IsFaultCandidate(t: ThreadInfo) {
    t.priority > 0 && t.priority < 0x7F && t.flags & 3 != 0
  }

  /** The queue is terminated: some record is the sentinel. */
  predicate HasSentinel(threads: seq<ThreadInfo>) {
    exists k :: 0 <= k < |threads| && IsSentinel(threads[k])
  }

  /** Record k is the one the walk returns: a candidate, with no sentinel and no candidate before it. */
  predicate FirstCandidate(threads: seq<ThreadInfo>, k: int) {
    0 <= k < |threads| && IsFaultCandidate(threads[k]) &&
    forall j :: 0 <= j < k ==> !IsSentinel(threads[j]) && !IsFaultCandidate(threads[j])
  }

  /** No record the walk reaches (none before the first sentinel) is a candidate. */
  predicate NoFault(threads: seq<ThreadInfo>) {
    forall k :: 0 <= k < |threads| && (forall j :: 0 <= j < k ==> !IsSentinel(threads[j])) ==> !IsFaultCandidate(threads[k])
  }

  /** The candidate the walk returns is unique, and it exists exactly when the queue is not NoFault. */
  lemma FirstCandidateUnique(threads: seq<ThreadInfo>, a: int, b: int)
    requires FirstCandidate(threads, a) && FirstCandidate(threads, b)
    ensures a == b && !NoFault(threads)
  {
  }

  /**
   * crash_screen_get_faulted_thread: walks the queue up to the sentinel and
   * returns the first candidate, or None (NULL) when the sentinel comes first.
   */
  method GetFaultedThread(threads: seq<ThreadInfo>) returns (r: Option<int>)
    requires HasSentinel(threads)
    ensures r.Some? ==> FirstCandidate(threads, r.value)
    ensures r.None? <==> NoFault(threads)
  {
    var k := 0;
    while threads[k].priority != -1
      invariant 0 <= k < |threads|
      invariant exists s :: k <= s < |threads| && IsSentinel(threads[s])
      invariant forall j :: 0 <= j < k ==> !IsSentinel(threads[j]) && !IsFaultCandidate(threads[j])
      decreases |threads| - k
    {
      if threads[k].priority > 0 && threads[k].priority < 0x7F && threads[k].flags & 3 != 0 {
        assert FirstCandidate(threads, k);
        assert !NoFault(threads);
        return Some(k);
      }
      k := k + 1;
    }
    return None;
  }

  /**
   * The loop of crash_screen_thread_entry: after each break or fault message
   * (one queue snapshot per message) it looks for a faulted thread and waits
   * again while there is none. Some((e, k)): message e is the first whose queue
   * has a candidate, and k is that candidate. None: the messages run out (the
   * source waits forever).
   */
  method WatchForFault(events: seq<seq<ThreadInfo>>) returns (r: Option<(int, int)>)
    requires forall e :: 0 <= e < |events| ==> HasSentinel(events[e])
    ensures r.Some? ==> 0 <= r.value.0 < |events| && FirstCandidate(events[r.value.0], r.value.1)
    ensures r.Some? ==> forall e :: 0 <= e < r.value.0 ==> NoFault(events[e])
    ensures r.None? <==> forall e :: 0 <= e < |events| ==> NoFault(events[e])
  {
    var e := 0;
    while e < |events|
      invariant 0 <= e <= |events|
      invariant forall d :: 0 <= d < e ==> NoFault(events[d])
    {
      var faulted := GetFaultedThread(events[e]);
      if faulted.Some? {
        return Some((e, faulted.value));
      }
      e := e + 1;
    }
    return None;
  }
}
