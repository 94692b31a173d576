/**
 * SendMessageToLatestThread of prow_thread_summary.go: find today's thread in
 * the channel history and post the report into it. The history, the date and
 * the reply to the post are inputs.
 */
module ProwThreadSummary {
  import opened Wrappers
  import opened Notify

  /** The JSON message posted (SlackMessage): channel, text, and the thread it answers. */
  datatype ThreadPost = ThreadPost(channel: string, text: string, threadTs: string)

  /** Entry `i` is the first whose thread timestamp starts with `today`. */
  ghost predicate FirstForToday(threads: seq<string>, today: string, i: nat) {
    i < |threads| && today <= threads[i] && forall k :: 0 <= k < i ==> !(today <= threads[k])
  }

  /**
   * The scan over the history: the thread timestamp of the first message whose
   * timestamp has `today` as a prefix, or "" when there is none. Nothing after
   * the first hit is looked at.
   */
  method LatestThreadForToday(threads: seq<string>, today: string) returns (latest: string)
    ensures forall i: nat :: FirstForToday(threads, today, i) ==> latest == threads[i]
    ensures (forall k :: 0 <= k < |threads| ==> !(today <= threads[k])) ==> latest == ""
  {
    latest := "";
    var n := 0;
    while n < |threads|
      invariant n <= |threads|
      invariant forall k :: 0 <= k < n ==> !(today <= threads[k])
      invariant latest == ""
    {
      if today <= threads[n] {
        latest := threads[n];
        assert FirstForToday(threads, today, n);
        break;
      }
      n := n + 1;
    }
  }

  /**
   * Fetching the history may fail; a thread is only posted to when the scan
   * found a non-empty timestamp; otherwise nothing is posted and the result is
   * "no thread found for today". A post succeeds as its reply allows.
   */
  method SendMessageToLatestThread(channel: string, message: string, history: Result<seq<string>, string>,
                                   today: string, reply: Reply)
    returns (posted: Option<ThreadPost>, outcome: Outcome<DeliveryError>)
    ensures history.Failure? ==> posted == None && outcome == Fail(HistoryUnavailable(history.error))
    ensures history.Success? ==> forall i: nat :: FirstForToday(history.value, today, i) && history.value[i] != "" ==>
              posted == Some(ThreadPost(channel, message, history.value[i])) && outcome == CheckJsonReply(reply)
    ensures history.Success? ==> forall i: nat :: FirstForToday(history.value, today, i) && history.value[i] == "" ==>
              posted == None && outcome == Fail(NoThreadForToday)
    ensures history.Success? && (forall k :: 0 <= k < |history.value| ==> !(today <= history.value[k])) ==>
              posted == None && outcome == Fail(NoThreadForToday)
    ensures posted.Some? ==> posted.value.channel == channel && posted.value.text == message && today <= posted.value.threadTs
    ensures posted.None? ==> outcome.Fail?
  {
    if history.Failure? {
      return None, Fail(HistoryUnavailable(history.error));
    }
    var latest := LatestThreadForToday(history.value, today);
    if latest != "" {
      ThreadFound(history.value, today, latest);
      posted := Some(ThreadPost(channel, message, latest));
      outcome := CheckJsonReply(reply);
    } else {
      posted := None;
      outcome := Fail(NoThreadForToday);
    }
  }

  /** What the scan returns, when not empty, is the timestamp of the first entry for today. */
  lemma ThreadFound(threads: seq<string>, today: string, latest: string)
    requires latest != ""
    requires forall i: nat :: FirstForToday(threads, today, i) ==> latest == threads[i]
    requires (forall k :: 0 <= k < |threads| ==> !(today <= threads[k])) ==> latest == ""
    ensures today <= latest
  {
    var k :| 0 <= k < |threads| && today <= threads[k];
    FirstHitExists(threads, today, k);
  }

  /** Some entry for today implies a first one. */
  lemma {:induction false} FirstHitExists(threads: seq<string>, today: string, k: nat)
    requires k < |threads| && today <= threads[k]
    ensures exists i: nat :: FirstForToday(threads, today, i)
    decreases k
  {
    if forall j :: 0 <= j < k ==> !(today <= threads[j]) {
      assert FirstForToday(threads, today, k);
    } else {
      var j :| 0 <= j < k && today <= threads[j];
      FirstHitExists(threads, today, j);
    }
  }
}
