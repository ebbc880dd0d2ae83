/** Access-point records and the snapshot the producer builds from them
    (app_a/app_a.py, load_access_points). */
module AccessPoints {

  /** One element of the "access_points" list of the monitored JSON file.
      `others` holds every field besides ssid, snr and channel, with its value
      abstracted as text; snapshots are compared on those fields too. */
  datatype AccessPoint = AccessPoint(ssid: string, snr: int, channel: int, others: map<string, string>)

  /** A Python dict keyed by ssid. `order` is its insertion order, which is the
      order in which `items()` iterates; `aps` is its contents. Two dicts are
      equal (`==`, `!=`) when their `aps` are equal, whatever their order. */
  datatype Snapshot = Snapshot(order: seq<string>, aps: map<string, AccessPoint>) {

    /** The representation invariant of a dict: each key once, in order. */
    ghost predicate Valid() {
      && (forall i, j :: 0 <= i < j < |order| ==> order[i] != order[j])
      && (forall k :: k in order <==> k in aps)
    }
  }

  /** The dict `{}`, returned when the file is missing or not valid JSON. */
  const Empty: Snapshot := Snapshot([], map[])

  /** `d[ap.ssid] = ap`: a new key goes to the end, an existing key keeps its place. */
  function Insert(s: Snapshot, ap: AccessPoint): (r: Snapshot)
    requires s.Valid()
    ensures r.Valid()
  {
    if ap.ssid in s.aps then Snapshot(s.order, s.aps[ap.ssid := ap])
    else Snapshot(s.order + [ap.ssid], s.aps[ap.ssid := ap])
  }

  /** The comprehension `{ap['ssid']: ap for ap in access_points}`. */
  function BuildSnapshot(list: seq<AccessPoint>): (s: Snapshot)
    ensures s.Valid()
    ensures forall ap :: ap in list ==> ap.ssid in s.aps
    ensures forall k :: k in s.aps ==> s.aps[k] in list && s.aps[k].ssid == k
  {
    if list == [] then Empty
    else Insert(BuildSnapshot(list[..|list| - 1]), list[|list| - 1])
  }

  /** For an ssid listed more than once, the snapshot keeps its last record. */
  lemma {:induction false} BuildSnapshotLastWins(list: seq<AccessPoint>, i: nat)
    requires i < |list|
    requires forall j :: i < j < |list| ==> list[j].ssid != list[i].ssid
    ensures list[i].ssid in BuildSnapshot(list).aps
    ensures BuildSnapshot(list).aps[list[i].ssid] == list[i]
  {
    if i < |list| - 1 {
      var prefix := list[..|list| - 1];
      BuildSnapshotLastWins(prefix, i);
    }
  }

  /** The ssids of a list, in list order. */
  function Ssids(list: seq<AccessPoint>): (r: seq<string>)
    ensures |r| == |list|
    ensures forall i :: 0 <= i < |list| ==> r[i] == list[i].ssid
  {
    if list == [] then [] else Ssids(list[..|list| - 1]) + [list[|list| - 1].ssid]
  }

  /** When no ssid repeats, the snapshot iterates in list order and holds every record. */
  lemma {:induction false} BuildSnapshotKeepsListOrder(list: seq<AccessPoint>)
    requires forall i, j :: 0 <= i < j < |list| ==> list[i].ssid != list[j].ssid
    ensures BuildSnapshot(list).order == Ssids(list)
    ensures forall i :: 0 <= i < |list| ==> BuildSnapshot(list).aps[list[i].ssid] == list[i]
  {
    if list != [] {
      var prefix := list[..|list| - 1];
      BuildSnapshotKeepsListOrder(prefix);
      assert list[|list| - 1] !in prefix;
      forall i | 0 <= i < |list|
        ensures BuildSnapshot(list).aps[list[i].ssid] == list[i]
      {
        BuildSnapshotLastWins(list, i);
      }
    }
  }
}
