# Wireless access-point monitor: the producer's change detector, in Dafny

The producer (`app_a`) of the wireless access-point monitor polls a JSON file
listing access points (`ssid`, `snr`, `channel`, …), turns the list into a
dict keyed by ssid, compares it with the dict from the previous poll, and
publishes one human-readable message per change to a fanout exchange, making
up to five attempts. This project models that producer:

- `access_points.dfy` (module `AccessPoints`): the access-point record and the
  snapshot. A snapshot is a Python dict, modelled as its iteration order
  (`order`, the insertion order) plus its contents (`aps`). Dict equality
  compares `aps` only. `BuildSnapshot` is the comprehension that builds the
  dict from the list.
- `differ.dfy` (module `Differ`): `compare_access_points`. `Diff` is the
  specification: one pass over the previous dict's keys, then one over the
  current dict's keys. `CompareAccessPoints` runs the two loops as the source
  writes them (`DetectChangesAndRemovals`, `DetectAdditions`) and is proved
  equal to `Diff`. The lemmas state what the output means:
  which records appear, how often, in which order, how many, and when none do.
- `messages.dfy` (module `Messages`): the exact message texts, with the
  typographic apostrophe U+2019 and the labels `SNR` and `channel`. Python's
  `str` of an int is modelled too. `Decode` reads a message back and is proved
  to invert `Render`.
- `notifier.dfy` (module `Notifier`): the retry loop of `notify_app_b`. The
  broker is not modelled. How each attempt ends is an input: it completes, its
  connect fails, or it fails after some number of publishes.
- `monitor.dfy` (module `Monitoring`): a `Monitor` class holding the previous
  snapshot. `Poll` is one iteration of the `while True` body of
  `monitor_file`.

Points of the code's behaviour that the model keeps:

- The connection is closed only on the success path (app_a/app_a.py:79). An
  attempt that fails after connecting is not closed by the code: `close()` is
  never reached, or it is the call that raised. In the
  model, `closed` is 1 only when an attempt completes, and `NotifyAppB` states
  that the connections opened minus the one closed are exactly the attempts
  that connected and then failed.
- The previous snapshot is reassigned only when the dicts differ
  (app_a/app_a.py:96-101). Equal dicts have the same contents, so the stored
  contents always equal the current ones after a poll. Only the stored
  iteration order can stay the older one.
- A failed attempt restarts the whole burst from the first change, so changes
  that were already published are published again.
- The modification messages use the typographic apostrophe U+2019 after the
  ssid (app_a/app_a.py:45, 47), and the label `SNR` for the snr field
  (app_a/app_a.py:45, 52).

## Model

| member | source | states |
|---|---|---|
| AccessPoints.BuildSnapshot | app_a/app_a.py:29 | the result is a well-formed dict; every listed ssid is a key; every key maps to a listed record that carries that ssid |
| AccessPoints.BuildSnapshotLastWins | app_a/app_a.py:29 | when an ssid is listed more than once, the dict keeps its last record |
| AccessPoints.BuildSnapshotKeepsListOrder | app_a/app_a.py:29 | when no ssid repeats, the dict iterates in list order and maps each ssid to its record |
| Differ.CompareAccessPoints | app_a/app_a.py:34-54 | the two appending loops produce exactly `Diff(prev, curr)` |
| Differ.DetectChangesAndRemovals | app_a/app_a.py:39-47 | the first loop appends, key by key in the previous dict's order, a removal for an ssid the current dict lacks, otherwise an SNR change and then a channel change where those values differ |
| Differ.DetectAdditions | app_a/app_a.py:50-52 | the second loop appends after the records already collected, in the current dict's order, one addition for each ssid the previous dict lacks |
| Differ.DiffMembers | app_a/app_a.py:34-54 | a record is in the output iff it is due: a removal of a vanished ssid, a change of a differing snr or channel carrying the old and new values, or an addition of a new ssid carrying its snr and channel |
| Differ.DiffOccurrences | app_a/app_a.py:39-52 | every due record occurs exactly once and nothing else occurs |
| Differ.DiffAbout | app_a/app_a.py:39-52 | the records about one ssid, in order, are one removal, or the SNR change (if any) followed by the channel change (if any), or one addition |
| Differ.DiffAdditionsLast | app_a/app_a.py:38-53 | every removal and modification comes before every addition |
| Differ.DiffFirstPassOrder | app_a/app_a.py:39-47 | removals and modifications follow the previous dict's key order |
| Differ.DiffSecondPassOrder | app_a/app_a.py:50-52 | additions follow the current dict's key order |
| Differ.DiffLength | app_a/app_a.py:34-54 | output length = \|old keys \\ new keys\| + \|new keys \\ old keys\| + number of shared keys whose snr differs + number whose channel differs |
| Differ.DiffEmptyIff | app_a/app_a.py:34-54 | the output is empty iff both dicts have the same keys and every key has the same snr and channel |
| Differ.DiffSelf | app_a/app_a.py:34-54 | diffing a snapshot against itself yields no records |
| Messages.IntToString | app_a/app_a.py:45-52 | Python's `str` of an int: non-empty, no spaces, a leading minus sign exactly for a negative number, decimal digits after it without a leading zero (unless the number is 0), ending in a digit |
| Messages.Render | app_a/app_a.py:41-52 | each message starts with its ssid, and only the removal message does not end with a number |
| Messages.IntToStringRoundTrip | app_a/app_a.py:45-52 | the decimal text of every int in a message reads back as that int |
| Messages.DecodeRender | app_a/app_a.py:41-52 | given its ssid, every message decodes back to the change it was rendered from |
| Messages.RenderInjective | app_a/app_a.py:41-52 | two different changes never produce the same message, even when their ssids differ |
| Notifier.AttemptCount | app_a/app_a.py:58-80 | between 1 and 5 attempts are made, ending at the first that completes or at the fifth |
| Notifier.NotifyAppB | app_a/app_a.py:56-85 | makes `AttemptCount` attempts and stops at the first that completes; it publishes each attempt's burst from the first change; it takes the final error branch iff none of the 5 attempts completes; it closes a connection only when an attempt completes, so the connections opened minus the one closed are exactly the attempts that connected and then failed |
| Notifier.PublishBurst | app_a/app_a.py:73-76 | an attempt that connected publishes a prefix of the changes in order: all of them when it completes, the first k when it fails after k publishes |
| Notifier.AttemptCountIsFirstCompletion | app_a/app_a.py:58-80 | if attempt n is the first to complete, exactly n + 1 attempts are made |
| Notifier.SentLogFromChanges | app_a/app_a.py:73-76 | every published message is one of the changes |
| Notifier.RetryResendsFromStart | app_a/app_a.py:58-83 | a burst that fails after k publishes, followed by one that completes, publishes the first k changes, then all the changes |
| Monitoring.Monitor.constructor | app_a/app_a.py:90 | the first load becomes the stored snapshot without a diff |
| Monitoring.Monitor.Poll | app_a/app_a.py:94-101 | after a poll the stored contents equal the current ones; equal dicts leave everything unchanged and publish nothing; otherwise the current snapshot is stored, the changes are `Diff(previous, current)`, and they are published iff non-empty |
| Monitoring.PollNotifiesIff | app_a/app_a.py:96-98 | a poll publishes iff a key came or went or an snr or channel changed; differences in other fields publish nothing |
| Monitoring.PollTwice | app_a/app_a.py:94-101 | polling the same snapshot twice in a row makes the second poll report nothing |

## Left out

- Reading the file: the existence check, `open`, `json.load`, the fallback to
  `{}` on a missing or malformed file, and the default empty list when the
  `access_points` field is missing. These are I/O, so the loaded list and
  the loaded snapshot are inputs. `AccessPoints.Empty` is the `{}` the fallback
  returns.
- A record that lacks `ssid`, `snr` or `channel` raises `KeyError` in the
  source. The model's records always carry all three.
- `snr` and `channel` are integers compared exactly. Float values in the JSON
  are not modelled. Other fields keep their values as text, because they only
  matter for dict equality.
- All pika calls, `time.sleep` and logging. What each connect or publish
  attempt does is the `outcome` input of `NotifyAppB` and `Poll`.
- The `while True` loop itself and the five-second poll interval. `Poll` is
  one iteration of it.
- The consumer (`app_b/app_b.py`, `app_b/config.py`) is not part of this
  model. It holds only broker plumbing and configuration.
- BuildSnapshot: when an ssid repeats, the key keeps the position of its first
  occurrence. The function models this, but no lemma states it in general.
  `BuildSnapshotKeepsListOrder` covers the case without repeats.
