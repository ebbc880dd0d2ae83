/** The snapshot differ, compare_access_points (app_a/app_a.py:34-54). */
module Differ {
  import opened AccessPoints

  /** The two fields whose changes are reported. */
  datatype Field = Snr | Channel

  /** One change record; Render in module Messages gives its message text. */
  datatype Change =
    | Removed(ssid: string)
    | Changed(ssid: string, field: Field, before: int, after: int)
    | Added(ssid: string, snr: int, channel: int)

  function FieldValue(ap: AccessPoint, f: Field): int {
    match f
    case Snr => ap.snr
    case Channel => ap.channel
  }

  // ---------------------------------------------------------------------------
  // Specification: each pass is a loop over a dict's keys that appends, for
  // every key, the entries that key produces.
  // ---------------------------------------------------------------------------

  /** The entries one `for` loop appends, key by key, in the order of `keys`. */
  function Pass(keys: seq<string>, entries: string -> seq<Change>): seq<Change> {
    if keys == [] then []
    else Pass(keys[..|keys| - 1], entries) + entries(keys[|keys| - 1])
  }

  /** `[Changed(...)]` when field `f` differs for a key in both dicts, else nothing. */
  function FieldChange(ssid: string, f: Field, prev: map<string, AccessPoint>, curr: map<string, AccessPoint>): seq<Change>
    requires ssid in prev && ssid in curr
  {
    var before, after := FieldValue(prev[ssid], f), FieldValue(curr[ssid], f);
    if before != after then [Changed(ssid, f, before, after)] else []
  }

  /** What the first loop (lines 39-47) appends for a key of the previous dict. */
  function RemovalOrChanges(ssid: string, prev: map<string, AccessPoint>, curr: map<string, AccessPoint>): seq<Change> {
    if ssid !in prev then []
    else if ssid !in curr then [Removed(ssid)]
    else FieldChange(ssid, Snr, prev, curr) + FieldChange(ssid, Channel, prev, curr)
  }

  /** What the second loop (lines 50-52) appends for a key of the current dict. */
  function Addition(ssid: string, prev: map<string, AccessPoint>, curr: map<string, AccessPoint>): seq<Change> {
    if ssid in curr && ssid !in prev then [Added(ssid, curr[ssid].snr, curr[ssid].channel)] else []
  }

  function FirstPassEntries(prev: map<string, AccessPoint>, curr: map<string, AccessPoint>): string -> seq<Change> {
    k => RemovalOrChanges(k, prev, curr)
  }

  function SecondPassEntries(prev: map<string, AccessPoint>, curr: map<string, AccessPoint>): string -> seq<Change> {
    k => Addition(k, prev, curr)
  }

  /** compare_access_points(prev, curr) as a value. */
  function Diff(prev: Snapshot, curr: Snapshot): seq<Change> {
    Pass(prev.order, FirstPassEntries(prev.aps, curr.aps)) + Pass(curr.order, SecondPassEntries(prev.aps, curr.aps))
  }

  // ---------------------------------------------------------------------------
  // The differ as the source writes it: two loops appending to one list.
  // ---------------------------------------------------------------------------

  lemma PassExtend(keys: seq<string>, i: nat, entries: string -> seq<Change>)
    requires i < |keys|
    ensures Pass(keys[..i + 1], entries) == Pass(keys[..i], entries) + entries(keys[i])
  {
    assert keys[..i + 1][..i] == keys[..i];
  }

  lemma PassExtendAfter(changes: seq<Change>, keys: seq<string>, i: nat, entries: string -> seq<Change>)
    requires i < |keys|
    ensures changes + Pass(keys[..i + 1], entries) == changes + Pass(keys[..i], entries) + entries(keys[i])
  {
    PassExtend(keys, i, entries);
  }

  method CompareAccessPoints(prev: Snapshot, curr: Snapshot) returns (changes: seq<Change>)
    requires prev.Valid() && curr.Valid()
    ensures changes == Diff(prev, curr)
  {
    changes := DetectChangesAndRemovals(prev, curr);
    changes := DetectAdditions(prev, curr, changes);
  }

  /** The first loop (lines 39-47), over the previous dict. */
  method DetectChangesAndRemovals(prev: Snapshot, curr: Snapshot) returns (changes: seq<Change>)
    requires prev.Valid()
    ensures changes == Pass(prev.order, FirstPassEntries(prev.aps, curr.aps))
  {
    var first := FirstPassEntries(prev.aps, curr.aps);
    changes := [];
    for i := 0 to |prev.order|
      invariant changes == Pass(prev.order[..i], first)
    {
      ghost var before := changes;
      var ssid := prev.order[i];
      assert ssid in prev.order;
      var oldAp := prev.aps[ssid];
      if ssid !in curr.aps {
        changes := changes + [Removed(ssid)];
      } else {
        var newAp := curr.aps[ssid];
        if oldAp.snr != newAp.snr {
          changes := changes + [Changed(ssid, Snr, oldAp.snr, newAp.snr)];
        }
        ghost var middle := changes;
        assert middle == before + FieldChange(ssid, Snr, prev.aps, curr.aps);
        if oldAp.channel != newAp.channel {
          changes := changes + [Changed(ssid, Channel, oldAp.channel, newAp.channel)];
        }
        assert changes == middle + FieldChange(ssid, Channel, prev.aps, curr.aps);
      }
      assert first(ssid) == RemovalOrChanges(ssid, prev.aps, curr.aps);
      assert changes == before + first(ssid);
      PassExtend(prev.order, i, first);
    }
    assert prev.order[..|prev.order|] == prev.order;
  }

  /** The second loop (lines 50-52), over the current dict, appending to `changes`. */
  method DetectAdditions(prev: Snapshot, curr: Snapshot, changes: seq<Change>) returns (result: seq<Change>)
    requires curr.Valid()
    ensures result == changes + Pass(curr.order, SecondPassEntries(prev.aps, curr.aps))
  {
    var second := SecondPassEntries(prev.aps, curr.aps);
    result := changes;
    for i := 0 to |curr.order|
      invariant result == changes + Pass(curr.order[..i], second)
    {
      ghost var before := result;
      var ssid := curr.order[i];
      var newAp := curr.aps[ssid];
      if ssid !in prev.aps {
        result := result + [Added(ssid, newAp.snr, newAp.channel)];
      }
      assert result == before + second(ssid);
      PassExtendAfter(changes, curr.order, i, second);
    }
    assert curr.order[..|curr.order|] == curr.order;
  }

  // ---------------------------------------------------------------------------
  // Facts about one pass, for any per-key entries that only speak of their key.
  // ---------------------------------------------------------------------------

  ghost predicate Distinct<T>(s: seq<T>) {
    forall i, j :: 0 <= i < j < |s| ==> s[i] != s[j]
  }

  /** Every entry produced for key k is about k. */
  ghost predicate AboutItsKey(entries: string -> seq<Change>) {
    forall k, c :: c in entries(k) ==> c.ssid == k
  }

  /** The entries of d about ssid k, in order. */
  function About(d: seq<Change>, k: string): (r: seq<Change>)
    ensures forall c :: c in r <==> c in d && c.ssid == k
  {
    if d == [] then []
    else About(d[..|d| - 1], k) + (if d[|d| - 1].ssid == k then [d[|d| - 1]] else [])
  }

  lemma {:induction false} AboutConcat(a: seq<Change>, b: seq<Change>, k: string)
    ensures About(a + b, k) == About(a, k) + About(b, k)
  {
    if b != [] {
      var pre := b[..|b| - 1];
      AboutConcat(a, pre, k);
      assert (a + b)[..|a + b| - 1] == a + pre;
    } else {
      assert a + b == a;
    }
  }

  lemma {:induction false} PassMembers(keys: seq<string>, entries: string -> seq<Change>, c: Change)
    requires AboutItsKey(entries)
    ensures c in Pass(keys, entries) <==> c.ssid in keys && c in entries(c.ssid)
  {
    if keys != [] {
      var pre := keys[..|keys| - 1];
      PassMembers(pre, entries, c);
      assert keys == pre + [keys[|keys| - 1]];
    }
  }

  lemma {:induction false} PassAbout(keys: seq<string>, entries: string -> seq<Change>, k: string)
    requires Distinct(keys) && AboutItsKey(entries)
    ensures About(Pass(keys, entries), k) == if k in keys then entries(k) else []
  {
    if keys != [] {
      var pre, last := keys[..|keys| - 1], keys[|keys| - 1];
      assert keys == pre + [last];
      PassAbout(pre, entries, k);
      AboutConcat(Pass(pre, entries), entries(last), k);
      assert About(entries(last), k) == if last == k then entries(k) else [] by {
        if last == k {
          AboutAll(entries(last), k);
        } else {
          AboutNone(entries(last), k);
        }
      }
    }
  }

  lemma {:induction false} AboutAll(d: seq<Change>, k: string)
    requires forall c :: c in d ==> c.ssid == k
    ensures About(d, k) == d
  {
    if d != [] {
      var pre, last := d[..|d| - 1], d[|d| - 1];
      assert d == pre + [last];
      assert forall c :: c in pre ==> c in d;
      AboutAll(pre, k);
      assert last in d;
    }
  }

  lemma {:induction false} AboutNone(d: seq<Change>, k: string)
    requires forall c :: c in d ==> c.ssid != k
    ensures About(d, k) == []
  {
    if d != [] {
      AboutNone(d[..|d| - 1], k);
      assert d[|d| - 1] in d;
    }
  }

  lemma {:induction false} PassDistinct(keys: seq<string>, entries: string -> seq<Change>)
    requires Distinct(keys) && AboutItsKey(entries)
    requires forall k :: Distinct(entries(k))
    ensures Distinct(Pass(keys, entries))
  {
    if keys != [] {
      var pre, last := keys[..|keys| - 1], keys[|keys| - 1];
      PassDistinct(pre, entries);
      var a, b := Pass(pre, entries), entries(last);
      forall c | c in a ensures c !in b {
        PassMembers(pre, entries, c);
      }
      DistinctConcat(a, b);
    }
  }

  lemma DistinctConcat<T>(a: seq<T>, b: seq<T>)
    requires Distinct(a) && Distinct(b)
    requires forall x :: x in a ==> x !in b
    ensures Distinct(a + b)
  {
    forall i, j | 0 <= i < j < |a + b| ensures (a + b)[i] != (a + b)[j] {
      if j >= |a| && i < |a| {
        assert (a + b)[i] in a && (a + b)[j] in b;
      }
    }
  }

  /** An entry about an earlier key never comes after an entry about a later key. */
  ghost predicate FollowsKeys(d: seq<Change>, keys: seq<string>) {
    forall i, j, a, b ::
      (0 <= i < j < |d| && 0 <= a < |keys| && 0 <= b < |keys| &&
       d[i].ssid == keys[a] && d[j].ssid == keys[b]) ==> a <= b
  }

  /** A pass follows the order of its keys. */
  lemma {:induction false} PassFollowsKeys(keys: seq<string>, entries: string -> seq<Change>)
    requires Distinct(keys) && AboutItsKey(entries)
    ensures FollowsKeys(Pass(keys, entries), keys)
  {
    if keys != [] {
      var n := |keys| - 1;
      var pre, last := keys[..n], keys[n];
      PassFollowsKeys(pre, entries);
      var d, front := Pass(keys, entries), Pass(pre, entries);
      assert d == front + entries(last);
      assert last !in pre;
      forall i, j, a, b | 0 <= i < j < |d| && 0 <= a < |keys| && 0 <= b < |keys| && d[i].ssid == keys[a] && d[j].ssid == keys[b]
        ensures a <= b
      {
        if j < |front| {
          assert d[i] == front[i] && d[j] == front[j];
          assert a < n && b < n by {
            PassMembers(pre, entries, front[i]);
            PassMembers(pre, entries, front[j]);
          }
          assert front[i].ssid == pre[a] && front[j].ssid == pre[b];
        } else {
          assert d[j] in entries(last);
          assert b == n;
        }
      }
    }
  }

  lemma {:induction false} DistinctOccursOnce<T>(s: seq<T>, x: T)
    requires Distinct(s)
    ensures multiset(s)[x] == if x in s then 1 else 0
  {
    if s != [] {
      var pre := s[..|s| - 1];
      DistinctOccursOnce(pre, x);
      assert s == pre + [s[|s| - 1]];
    }
  }

  /** The number of keys that satisfy P. */
  function Count(keys: seq<string>, P: string -> bool): nat {
    if keys == [] then 0
    else Count(keys[..|keys| - 1], P) + (if P(keys[|keys| - 1]) then 1 else 0)
  }

  lemma CountStep(pre: seq<string>, last: string, P: string -> bool)
    ensures (set k | k in pre + [last] && P(k)) == (set k | k in pre && P(k)) + (if P(last) then {last} else {})
  {
    var before, after := set k | k in pre && P(k), set k | k in pre + [last] && P(k);
    forall k ensures k in after <==> k in before || (P(last) && k == last) {
      assert k in pre + [last] <==> k in pre || k == last;
    }
  }

  lemma {:induction false} CountIsSetSize(keys: seq<string>, P: string -> bool)
    requires Distinct(keys)
    ensures Count(keys, P) == |set k | k in keys && P(k)|
  {
    if keys != [] {
      var pre, last := keys[..|keys| - 1], keys[|keys| - 1];
      CountIsSetSize(pre, P);
      assert keys == pre + [last];
      CountStep(pre, last, P);
      assert last !in set k | k in pre && P(k);
    }
  }

  // ---------------------------------------------------------------------------
  // What the differ's output means.
  // ---------------------------------------------------------------------------

  /** Removed(ssid) is due: the ssid vanished. */
  ghost predicate IsRemoval(prev: map<string, AccessPoint>, curr: map<string, AccessPoint>, c: Change) {
    c.Removed? && c.ssid in prev && c.ssid !in curr
  }

  /** Changed(ssid, field, old, new) is due: the field differs, and old and new are its values. */
  ghost predicate IsModification(prev: map<string, AccessPoint>, curr: map<string, AccessPoint>, c: Change) {
    && c.Changed? && c.ssid in prev && c.ssid in curr
    && c.before == FieldValue(prev[c.ssid], c.field)
    && c.after == FieldValue(curr[c.ssid], c.field)
    && c.before != c.after
  }

  /** Added(ssid, snr, channel) is due: the ssid is new, with these values. */
  ghost predicate IsAddition(prev: map<string, AccessPoint>, curr: map<string, AccessPoint>, c: Change) {
    && c.Added? && c.ssid !in prev && c.ssid in curr
    && c.snr == curr[c.ssid].snr && c.channel == curr[c.ssid].channel
  }

  ghost predicate IsDue(prev: map<string, AccessPoint>, curr: map<string, AccessPoint>, c: Change) {
    IsRemoval(prev, curr, c) || IsModification(prev, curr, c) || IsAddition(prev, curr, c)
  }

  lemma EntriesAboutTheirKey(prev: map<string, AccessPoint>, curr: map<string, AccessPoint>)
    ensures AboutItsKey(FirstPassEntries(prev, curr)) && AboutItsKey(SecondPassEntries(prev, curr))
    ensures forall k, c :: c in RemovalOrChanges(k, prev, curr) <==> c.ssid == k && (IsRemoval(prev, curr, c) || IsModification(prev, curr, c))
    ensures forall k, c :: c in Addition(k, prev, curr) <==> c.ssid == k && IsAddition(prev, curr, c)
  {
  }

  /** The first pass emits exactly the due removals and modifications of the
      keys it visits, each once. */
  lemma FirstPassMembers(keys: seq<string>, prev: map<string, AccessPoint>, curr: map<string, AccessPoint>, c: Change)
    ensures c in Pass(keys, FirstPassEntries(prev, curr)) <==> c.ssid in keys && (IsRemoval(prev, curr, c) || IsModification(prev, curr, c))
  {
    EntriesAboutTheirKey(prev, curr);
    PassMembers(keys, FirstPassEntries(prev, curr), c);
  }

  lemma SecondPassMembers(keys: seq<string>, prev: map<string, AccessPoint>, curr: map<string, AccessPoint>, c: Change)
    ensures c in Pass(keys, SecondPassEntries(prev, curr)) <==> c.ssid in keys && IsAddition(prev, curr, c)
  {
    EntriesAboutTheirKey(prev, curr);
    PassMembers(keys, SecondPassEntries(prev, curr), c);
  }

  /** Every record the differ emits is due, and every due record is emitted. */
  lemma DiffMembers(prev: Snapshot, curr: Snapshot)
    requires prev.Valid() && curr.Valid()
    ensures forall c :: c in Diff(prev, curr) <==> IsDue(prev.aps, curr.aps, c)
  {
    forall c ensures c in Diff(prev, curr) <==> IsDue(prev.aps, curr.aps, c) {
      FirstPassMembers(prev.order, prev.aps, curr.aps, c);
      SecondPassMembers(curr.order, prev.aps, curr.aps, c);
    }
  }

  /** No record is emitted twice: every due record occurs exactly once, any other not at all. */
  lemma DiffOccurrences(prev: Snapshot, curr: Snapshot)
    requires prev.Valid() && curr.Valid()
    ensures forall c :: multiset(Diff(prev, curr))[c] == if IsDue(prev.aps, curr.aps, c) then 1 else 0
  {
    var first, second := FirstPassEntries(prev.aps, curr.aps), SecondPassEntries(prev.aps, curr.aps);
    EntriesAboutTheirKey(prev.aps, curr.aps);
    PassDistinct(prev.order, first);
    PassDistinct(curr.order, second);
    forall c | c in Pass(prev.order, first) ensures c !in Pass(curr.order, second) {
      FirstPassMembers(prev.order, prev.aps, curr.aps, c);
      SecondPassMembers(curr.order, prev.aps, curr.aps, c);
    }
    DistinctConcat(Pass(prev.order, first), Pass(curr.order, second));
    DiffMembers(prev, curr);
    forall c ensures multiset(Diff(prev, curr))[c] == if IsDue(prev.aps, curr.aps, c) then 1 else 0 {
      DistinctOccursOnce(Diff(prev, curr), c);
    }
  }

  /** The records about one ssid, in the order they are emitted: one removal,
      or the SNR change before the channel change, or one addition. */
  lemma DiffAbout(prev: Snapshot, curr: Snapshot, ssid: string)
    requires prev.Valid() && curr.Valid()
    ensures About(Diff(prev, curr), ssid) ==
      if ssid in prev.aps && ssid !in curr.aps then [Removed(ssid)]
      else if ssid in prev.aps then FieldChange(ssid, Snr, prev.aps, curr.aps) + FieldChange(ssid, Channel, prev.aps, curr.aps)
      else if ssid in curr.aps then [Added(ssid, curr.aps[ssid].snr, curr.aps[ssid].channel)]
      else []
  {
    var first, second := FirstPassEntries(prev.aps, curr.aps), SecondPassEntries(prev.aps, curr.aps);
    EntriesAboutTheirKey(prev.aps, curr.aps);
    AboutConcat(Pass(prev.order, first), Pass(curr.order, second), ssid);
    PassAbout(prev.order, first, ssid);
    PassAbout(curr.order, second, ssid);
  }

  /** The first pass's records are exactly the ones that are not additions. */
  lemma DiffSplit(prev: Snapshot, curr: Snapshot)
    requires prev.Valid() && curr.Valid()
    ensures var f := Pass(prev.order, FirstPassEntries(prev.aps, curr.aps));
      forall i :: 0 <= i < |Diff(prev, curr)| ==> (Diff(prev, curr)[i].Added? <==> i >= |f|)
  {
    var f, s := Pass(prev.order, FirstPassEntries(prev.aps, curr.aps)), Pass(curr.order, SecondPassEntries(prev.aps, curr.aps));
    var d := Diff(prev, curr);
    forall i | 0 <= i < |d| ensures d[i].Added? <==> i >= |f| {
      if i < |f| {
        assert d[i] == f[i] && f[i] in f;
        FirstPassMembers(prev.order, prev.aps, curr.aps, f[i]);
      } else {
        assert d[i] == s[i - |f|] && s[i - |f|] in s;
        SecondPassMembers(curr.order, prev.aps, curr.aps, s[i - |f|]);
      }
    }
  }

  /** All removals and modifications come before all additions. */
  lemma DiffAdditionsLast(prev: Snapshot, curr: Snapshot)
    requires prev.Valid() && curr.Valid()
    ensures forall i, j :: 0 <= i < j < |Diff(prev, curr)| && Diff(prev, curr)[i].Added? ==> Diff(prev, curr)[j].Added?
  {
    DiffSplit(prev, curr);
  }

  /** The removals and modifications follow the previous snapshot's key order. */
  lemma DiffFirstPassOrder(prev: Snapshot, curr: Snapshot)
    requires prev.Valid() && curr.Valid()
    ensures var d := Diff(prev, curr);
      forall i, j, a, b ::
        (0 <= i < j < |d| && !d[j].Added? && 0 <= a < |prev.order| && 0 <= b < |prev.order| &&
         d[i].ssid == prev.order[a] && d[j].ssid == prev.order[b]) ==> a <= b
  {
    var first := FirstPassEntries(prev.aps, curr.aps);
    var f, d := Pass(prev.order, first), Diff(prev, curr);
    assert AboutItsKey(first) by { EntriesAboutTheirKey(prev.aps, curr.aps); }
    assert FollowsKeys(f, prev.order) by { PassFollowsKeys(prev.order, first); }
    forall i, j, a, b |
      0 <= i < j < |d| && !d[j].Added? && 0 <= a < |prev.order| && 0 <= b < |prev.order| &&
      d[i].ssid == prev.order[a] && d[j].ssid == prev.order[b]
      ensures a <= b
    {
      assert j < |f| by { DiffSplit(prev, curr); }
      assert d[i] == f[i] && d[j] == f[j];
    }
  }

  /** The additions follow the current snapshot's key order. */
  lemma DiffSecondPassOrder(prev: Snapshot, curr: Snapshot)
    requires prev.Valid() && curr.Valid()
    ensures var d := Diff(prev, curr);
      forall i, j, a, b ::
        (0 <= i < j < |d| && d[i].Added? && 0 <= a < |curr.order| && 0 <= b < |curr.order| &&
         d[i].ssid == curr.order[a] && d[j].ssid == curr.order[b]) ==> a <= b
  {
    var second := SecondPassEntries(prev.aps, curr.aps);
    var f, s := Pass(prev.order, FirstPassEntries(prev.aps, curr.aps)), Pass(curr.order, second);
    var d := Diff(prev, curr);
    assert AboutItsKey(second) by { EntriesAboutTheirKey(prev.aps, curr.aps); }
    assert FollowsKeys(s, curr.order) by { PassFollowsKeys(curr.order, second); }
    assert d == f + s;
    forall i, j, a, b |
      0 <= i < j < |d| && d[i].Added? && 0 <= a < |curr.order| && 0 <= b < |curr.order| &&
      d[i].ssid == curr.order[a] && d[j].ssid == curr.order[b]
      ensures a <= b
    {
      assert i >= |f| by { DiffSplit(prev, curr); }
      SuffixFollowsKeys(f, s, curr.order, i, j, a, b);
    }
  }

  lemma SuffixFollowsKeys(f: seq<Change>, s: seq<Change>, keys: seq<string>, i: int, j: int, a: int, b: int)
    requires FollowsKeys(s, keys)
    requires |f| <= i < j < |f + s| && 0 <= a < |keys| && 0 <= b < |keys|
    requires (f + s)[i].ssid == keys[a] && (f + s)[j].ssid == keys[b]
    ensures a <= b
  {
    assert (f + s)[i] == s[i - |f|] && (f + s)[j] == s[j - |f|];
  }

  // ---------------------------------------------------------------------------
  // How long the output is, and when it is empty.
  // ---------------------------------------------------------------------------

  function Absent(m: map<string, AccessPoint>): string -> bool {
    k => k !in m
  }

  function Differs(prev: map<string, AccessPoint>, curr: map<string, AccessPoint>, f: Field): string -> bool {
    k => k in prev && k in curr && FieldValue(prev[k], f) != FieldValue(curr[k], f)
  }

  /** The shared keys whose field f differs. */
  ghost function ChangedKeys(prev: map<string, AccessPoint>, curr: map<string, AccessPoint>, f: Field): set<string> {
    set k | k in prev && k in curr && FieldValue(prev[k], f) != FieldValue(curr[k], f)
  }

  lemma {:induction false} FirstPassLength(keys: seq<string>, prev: map<string, AccessPoint>, curr: map<string, AccessPoint>)
    requires forall k :: k in keys ==> k in prev
    ensures |Pass(keys, FirstPassEntries(prev, curr))| ==
      Count(keys, Absent(curr)) + Count(keys, Differs(prev, curr, Snr)) + Count(keys, Differs(prev, curr, Channel))
  {
    if keys != [] {
      FirstPassLength(keys[..|keys| - 1], prev, curr);
    }
  }

  lemma {:induction false} SecondPassLength(keys: seq<string>, prev: map<string, AccessPoint>, curr: map<string, AccessPoint>)
    requires forall k :: k in keys ==> k in curr
    ensures |Pass(keys, SecondPassEntries(prev, curr))| == Count(keys, Absent(prev))
  {
    if keys != [] {
      SecondPassLength(keys[..|keys| - 1], prev, curr);
    }
  }

  /** Counting the keys of a snapshot that satisfy P, in iteration order. */
  lemma CountKeys(s: Snapshot, P: string -> bool)
    requires s.Valid()
    ensures Count(s.order, P) == |set k | k in s.aps && P(k)|
  {
    CountIsSetSize(s.order, P);
    assert (set k | k in s.order && P(k)) == set k | k in s.aps && P(k);
  }

  lemma VanishedKeys(prev: map<string, AccessPoint>, curr: map<string, AccessPoint>)
    ensures (set k | k in prev && Absent(curr)(k)) == prev.Keys - curr.Keys
  {
    var vanished := set k | k in prev && Absent(curr)(k);
    forall k ensures k in vanished <==> k in prev.Keys - curr.Keys {
      assert Absent(curr)(k) <==> k !in curr;
    }
  }

  lemma CountVanished(prev: Snapshot, curr: map<string, AccessPoint>)
    requires prev.Valid()
    ensures Count(prev.order, Absent(curr)) == |prev.aps.Keys - curr.Keys|
  {
    CountKeys(prev, Absent(curr));
    VanishedKeys(prev.aps, curr);
  }

  lemma CountDiffering(prev: Snapshot, curr: map<string, AccessPoint>, f: Field)
    requires prev.Valid()
    ensures Count(prev.order, Differs(prev.aps, curr, f)) == |ChangedKeys(prev.aps, curr, f)|
  {
    CountKeys(prev, Differs(prev.aps, curr, f));
    assert (set k | k in prev.aps && Differs(prev.aps, curr, f)(k)) == ChangedKeys(prev.aps, curr, f);
  }

  /** |output| = |old \ new| + |new \ old| + the number of differing snr and channel fields. */
  lemma DiffLength(prev: Snapshot, curr: Snapshot)
    requires prev.Valid() && curr.Valid()
    ensures |Diff(prev, curr)| ==
      |prev.aps.Keys - curr.aps.Keys| + |curr.aps.Keys - prev.aps.Keys|
      + |ChangedKeys(prev.aps, curr.aps, Snr)| + |ChangedKeys(prev.aps, curr.aps, Channel)|
  {
    FirstPassLength(prev.order, prev.aps, curr.aps);
    SecondPassLength(curr.order, prev.aps, curr.aps);
    CountVanished(prev, curr.aps);
    CountVanished(curr, prev.aps);
    CountDiffering(prev, curr.aps, Snr);
    CountDiffering(prev, curr.aps, Channel);
  }

  /** The snapshots agree on their keys and on every key's snr and channel. */
  ghost predicate SameTrackedFields(prev: map<string, AccessPoint>, curr: map<string, AccessPoint>) {
    && prev.Keys == curr.Keys
    && forall k :: k in prev && k in curr ==> prev[k].snr == curr[k].snr && prev[k].channel == curr[k].channel
  }

  /** A due record for snapshots that disagree on keys, snr or channel. */
  lemma SomeChangeIsDue(prev: map<string, AccessPoint>, curr: map<string, AccessPoint>) returns (due: Change)
    requires !SameTrackedFields(prev, curr)
    ensures IsDue(prev, curr, due)
  {
    if exists k :: k in prev && k !in curr {
      var k :| k in prev && k !in curr;
      due := Removed(k);
    } else if exists k :: k in curr && k !in prev {
      var k :| k in curr && k !in prev;
      due := Added(k, curr[k].snr, curr[k].channel);
    } else {
      var k :| k in prev && k in curr && (prev[k].snr != curr[k].snr || prev[k].channel != curr[k].channel);
      if prev[k].snr != curr[k].snr {
        due := Changed(k, Snr, prev[k].snr, curr[k].snr);
      } else {
        due := Changed(k, Channel, prev[k].channel, curr[k].channel);
      }
    }
  }

  /** A due record rules out agreement on keys, snr and channel. */
  lemma DueMeansDifferent(prev: map<string, AccessPoint>, curr: map<string, AccessPoint>, c: Change)
    requires IsDue(prev, curr, c)
    ensures !SameTrackedFields(prev, curr)
  {
    if IsModification(prev, curr, c) {
      assert c.field == Snr || c.field == Channel;
    }
  }

  /** The differ reports nothing exactly when no key came or went and no snr
      or channel changed; fields other than those two are never reported. */
  lemma DiffEmptyIff(prev: Snapshot, curr: Snapshot)
    requires prev.Valid() && curr.Valid()
    ensures Diff(prev, curr) == [] <==> SameTrackedFields(prev.aps, curr.aps)
  {
    DiffMembers(prev, curr);
    if !SameTrackedFields(prev.aps, curr.aps) {
      var due := SomeChangeIsDue(prev.aps, curr.aps);
      assert due in Diff(prev, curr);
    }
    if Diff(prev, curr) != [] {
      DueMeansDifferent(prev.aps, curr.aps, Diff(prev, curr)[0]);
    }
  }

  /** Diffing a snapshot against itself yields nothing. */
  lemma DiffSelf(s: Snapshot)
    requires s.Valid()
    ensures Diff(s, s) == []
  {
    DiffEmptyIff(s, s);
  }
}
