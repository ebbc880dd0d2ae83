/** The producer's poll loop, monitor_file (app_a/app_a.py:87-101): one
    iteration of its `while True` body, over the previous snapshot it keeps. */
module Monitoring {
  import opened AccessPoints
  import opened Differ
  import opened Messages
  import opened Notifier

  class Monitor {
    /** `previous_data`: the snapshot the next poll is compared with. */
    var previous: Snapshot

    ghost predicate Valid()
      reads this
    {
      previous.Valid()
    }

    /** The first load is a baseline: it is stored, never diffed (line 90). */
    constructor (initial: Snapshot)
      requires initial.Valid()
      ensures Valid() && previous == initial
    {
      previous := initial;
    }

    /** One poll: compare `current` (the freshly loaded snapshot) with the
        previous one; when the dicts differ, diff them, publish the changes if
        there are any, and store `current` whatever the publishing did. */
    method Poll(current: Snapshot, outcome: nat -> Attempt) returns (changes: seq<Change>, sent: seq<string>, notified: bool)
      requires Valid() && current.Valid()
      modifies this
      ensures Valid()
      ensures previous.aps == current.aps
      ensures old(previous).aps == current.aps ==> previous == old(previous) && changes == [] && !notified
      ensures old(previous).aps != current.aps ==> previous == current && changes == Diff(old(previous), current)
      ensures notified <==> old(previous).aps != current.aps && changes != []
      ensures notified ==> sent == SentLog(RenderAll(changes), outcome, AttemptCount(outcome, 0))
      ensures !notified ==> sent == []
    {
      changes, sent, notified := [], [], false;
      if current.aps != previous.aps {
        changes := CompareAccessPoints(previous, current);
        if changes != [] {
          var attempts, delivered, connected, closed;
          sent, attempts, delivered, connected, closed := NotifyAppB(RenderAll(changes), outcome);
          notified := true;
        }
        previous := current;
      }
    }
  }

  /** Whether a poll notifies depends only on keys, snr and channel: the dict
      comparison before the diff never suppresses a change, and snapshots that
      differ only in other fields publish nothing. */
  lemma PollNotifiesIff(prev: Snapshot, curr: Snapshot)
    requires prev.Valid() && curr.Valid()
    ensures (prev.aps != curr.aps && Diff(prev, curr) != []) <==> !SameTrackedFields(prev.aps, curr.aps)
  {
    DiffEmptyIff(prev, curr);
  }

  /** Two polls in a row with the same snapshot: the second publishes nothing. */
  method PollTwice(m: Monitor, current: Snapshot, outcome: nat -> Attempt) returns (second: seq<Change>)
    requires m.Valid() && current.Valid()
    modifies m
    ensures second == []
  {
    var first, sent, notified := m.Poll(current, outcome);
    second, sent, notified := m.Poll(current, outcome);
  }
}
