/** The text of each change message (app_a/app_a.py:41, 45, 47, 52). */
module Messages {
  import opened Differ

  /** The typographic apostrophe U+2019 the messages use after an ssid. */
  const Apostrophe: char := '\U{2019}'

  predicate IsDigit(c: char) {
    '0' <= c <= '9'
  }

  predicate AllDigits(s: string) {
    forall i :: 0 <= i < |s| ==> IsDigit(s[i])
  }

  /** Decimal digits of n, most significant first, as Python's str(n). */
  function NatToString(n: nat): (s: string)
    ensures |s| >= 1 && AllDigits(s)
    ensures s[0] == '0' ==> n == 0
  {
    var d := ['0' + (n % 10) as char];
    if n < 10 then d else NatToString(n / 10) + d
  }

  predicate NoSpace(s: string) {
    forall j :: 0 <= j < |s| ==> s[j] != ' '
  }

  /** Python's str(i) for an int: a minus sign before the digits of a negative number. */
  function IntToString(i: int): (s: string)
    ensures |s| >= 1 && NoSpace(s)
    ensures s[0] == '-' <==> i < 0
    ensures AllDigits(if i < 0 then s[1..] else s) && IsDigit(s[|s| - 1])
    ensures var t := if i < 0 then s[1..] else s; |t| > 1 ==> t[0] != '0'
  {
    if i < 0 then "-" + NatToString(-i) else NatToString(i)
  }

  function ParseNat(s: string): nat
    requires AllDigits(s)
  {
    if s == [] then 0
    else 10 * ParseNat(s[..|s| - 1]) + (s[|s| - 1] - '0') as nat
  }

  /** Reads back a decimal integer written by IntToString. */
  function ParseInt(s: string): int
    requires |s| >= 1
    requires AllDigits(if s[0] == '-' then s[1..] else s)
  {
    if s[0] == '-' then -(ParseNat(s[1..]) as int) else ParseNat(s)
  }

  lemma {:induction false} ParseNatToString(n: nat)
    ensures ParseNat(NatToString(n)) == n
  {
    var s := NatToString(n);
    if n >= 10 {
      ParseNatToString(n / 10);
      assert s[..|s| - 1] == NatToString(n / 10);
    }
  }

  /** The numbers in a message can be read back exactly. */
  lemma IntToStringRoundTrip(i: int)
    ensures var s := IntToString(i);
      AllDigits(if s[0] == '-' then s[1..] else s) && ParseInt(s) == i
  {
    var s := IntToString(i);
    if i < 0 {
      assert s[1..] == NatToString(-i) by {
        assert s == "-" + NatToString(-i);
      }
      ParseNatToString(-i);
    } else {
      assert s == NatToString(i);
      ParseNatToString(i);
    }
  }

  /** The label of a field in a message: "SNR" for snr, "channel" for channel. */
  function FieldLabel(f: Field): string {
    match f
    case Snr => "SNR"
    case Channel => "channel"
  }

  const RemovedText: string := " is removed from the list"
  const AddedText: string := " is added to the list with SNR "

  function ChangedText(f: Field): string {
    [Apostrophe] + "s " + FieldLabel(f) + " has changed from "
  }

  /** The message published for a change: it starts with the ssid, and only
      the removal message does not end with a number. */
  function Render(c: Change): (m: string)
    ensures c.ssid <= m && |c.ssid| < |m|
    ensures c.Removed? <==> !IsDigit(m[|m| - 1])
  {
    match c
    case Removed(ssid) =>
      ssid + RemovedText
    case Changed(ssid, f, before, after) =>
      ssid + (ChangedText(f) + (IntToString(before) + " to " + IntToString(after)))
    case Added(ssid, snr, channel) =>
      ssid + (AddedText + (IntToString(snr) + " and channel " + IntToString(channel)))
  }

  /** The messages published for a list of changes, in the same order. */
  function RenderAll(changes: seq<Change>): (r: seq<string>)
    ensures |r| == |changes|
    ensures forall i :: 0 <= i < |changes| ==> r[i] == Render(changes[i])
  {
    seq(|changes|, i requires 0 <= i < |changes| => Render(changes[i]))
  }

  // ---------------------------------------------------------------------------
  // Reading a message back, given its ssid: the inverse of Render.
  // ---------------------------------------------------------------------------

  datatype Option<T> = None | Some(value: T)

  /** s without the prefix p, if s starts with p. */
  function StripPrefix(p: string, s: string): Option<string> {
    if |p| <= |s| && s[..|p|] == p then Some(s[|p|..]) else None
  }

  lemma StripPrefixOf(p: string, q: string)
    ensures StripPrefix(p, p + q) == Some(q)
  {
    assert (p + q)[..|p|] == p && (p + q)[|p|..] == q;
  }

  /** The longest prefix of s without a space. */
  function UpToSpace(s: string): string {
    if s == [] || s[0] == ' ' then [] else [s[0]] + UpToSpace(s[1..])
  }

  lemma {:induction false} UpToSpaceOf(x: string, rest: string)
    requires NoSpace(x)
    requires |rest| >= 1 && rest[0] == ' '
    ensures UpToSpace(x + rest) == x
  {
    if x == [] {
      assert x + rest == rest;
    } else {
      assert (x + rest)[1..] == x[1..] + rest;
      UpToSpaceOf(x[1..], rest);
      assert x == [x[0]] + x[1..];
    }
  }

  predicate IsIntText(s: string) {
    |s| >= 1 && AllDigits(if s[0] == '-' then s[1..] else s)
  }

  /** Reads "<int><sep><int>", where sep starts with a space. */
  function DecodePair(s: string, sep: string): Option<(int, int)> {
    var x := UpToSpace(s);
    if |x| <= |s| && IsIntText(x) then
      match StripPrefix(sep, s[|x|..])
      case Some(y) => if IsIntText(y) then Some((ParseInt(x), ParseInt(y))) else None
      case None => None
    else None
  }

  lemma DecodePairOf(a: int, sep: string, b: int)
    requires |sep| >= 1 && sep[0] == ' '
    ensures DecodePair(IntToString(a) + sep + IntToString(b), sep) == Some((a, b))
  {
    var x, y := IntToString(a), IntToString(b);
    var s := x + sep + y;
    assert s == x + (sep + y);
    UpToSpaceOf(x, sep + y);
    assert s[|x|..] == sep + y;
    StripPrefixOf(sep, y);
    IntToStringRoundTrip(a);
    IntToStringRoundTrip(b);
  }

  /** The change a message describes, given the ssid it is about. */
  function Decode(ssid: string, msg: string): Option<Change> {
    match StripPrefix(ssid, msg)
    case None => None
    case Some(t) => DecodeTail(ssid, t)
  }

  /** Reads what follows the ssid in a message. */
  function DecodeTail(ssid: string, t: string): Option<Change> {
    if t == RemovedText then Some(Removed(ssid))
    else
      var snr, channel, added := StripPrefix(ChangedText(Snr), t), StripPrefix(ChangedText(Channel), t), StripPrefix(AddedText, t);
      if snr.Some? then
        match DecodePair(snr.value, " to ")
        case Some((a, b)) => Some(Changed(ssid, Snr, a, b))
        case None => None
      else if channel.Some? then
        match DecodePair(channel.value, " to ")
        case Some((a, b)) => Some(Changed(ssid, Channel, a, b))
        case None => None
      else if added.Some? then
        match DecodePair(added.value, " and channel ")
        case Some((snr, channel)) => Some(Added(ssid, snr, channel))
        case None => None
      else None
  }

  lemma DecodeOf(k: string, t: string)
    ensures Decode(k, k + t) == DecodeTail(k, t)
  {
    StripPrefixOf(k, t);
  }

  lemma DecodeRemoved(k: string)
    ensures Decode(k, Render(Removed(k))) == Some(Removed(k))
  {
    DecodeOf(k, RemovedText);
  }

  lemma DecodeSnrChange(k: string, a: int, b: int)
    ensures DecodeTail(k, ChangedText(Snr) + (IntToString(a) + " to " + IntToString(b))) == Some(Changed(k, Snr, a, b))
  {
    var values := IntToString(a) + " to " + IntToString(b);
    var t := ChangedText(Snr) + values;
    assert t[0] == Apostrophe != RemovedText[0];
    StripPrefixOf(ChangedText(Snr), values);
    DecodePairOf(a, " to ", b);
  }

  lemma DecodeChannelChange(k: string, a: int, b: int)
    ensures DecodeTail(k, ChangedText(Channel) + (IntToString(a) + " to " + IntToString(b))) == Some(Changed(k, Channel, a, b))
  {
    var values := IntToString(a) + " to " + IntToString(b);
    var t := ChangedText(Channel) + values;
    assert t[0] == Apostrophe != RemovedText[0];
    assert t[3] != ChangedText(Snr)[3];
    assert StripPrefix(ChangedText(Snr), t) == None;
    StripPrefixOf(ChangedText(Channel), values);
    DecodePairOf(a, " to ", b);
  }

  lemma DecodeChanged(k: string, f: Field, a: int, b: int)
    ensures Decode(k, Render(Changed(k, f, a, b))) == Some(Changed(k, f, a, b))
  {
    DecodeOf(k, ChangedText(f) + (IntToString(a) + " to " + IntToString(b)));
    if f == Snr {
      DecodeSnrChange(k, a, b);
    } else {
      DecodeChannelChange(k, a, b);
    }
  }

  lemma DecodeAddedTail(k: string, snr: int, channel: int)
    ensures DecodeTail(k, AddedText + (IntToString(snr) + " and channel " + IntToString(channel))) == Some(Added(k, snr, channel))
  {
    var values := IntToString(snr) + " and channel " + IntToString(channel);
    var t := AddedText + values;
    assert t[4] != RemovedText[4];
    assert t[0] != ChangedText(Snr)[0] && t[0] != ChangedText(Channel)[0];
    assert StripPrefix(ChangedText(Snr), t) == None;
    assert StripPrefix(ChangedText(Channel), t) == None;
    StripPrefixOf(AddedText, values);
    DecodePairOf(snr, " and channel ", channel);
  }

  lemma DecodeAdded(k: string, snr: int, channel: int)
    ensures Decode(k, Render(Added(k, snr, channel))) == Some(Added(k, snr, channel))
  {
    DecodeOf(k, AddedText + (IntToString(snr) + " and channel " + IntToString(channel)));
    DecodeAddedTail(k, snr, channel);
  }

  /** Every message reads back as the change it was rendered from. */
  lemma DecodeRender(c: Change)
    ensures Decode(c.ssid, Render(c)) == Some(c)
  {
    match c
    case Removed(k) => DecodeRemoved(k);
    case Changed(k, f, a, b) => DecodeChanged(k, f, a, b);
    case Added(k, snr, channel) => DecodeAdded(k, snr, channel);
  }

  // ---------------------------------------------------------------------------
  // No two changes share a message, whatever their ssids: read from the end,
  // a message gives back its last number, then the text before it.
  // ---------------------------------------------------------------------------

  lemma CancelSuffix(x: string, y: string, t: string)
    requires x + t == y + t
    ensures x == y
  {
    assert x == (x + t)[..|x|];
    assert y == (y + t)[..|y|];
  }

  /** The text after the last space of a message is determined by the message. */
  lemma PeelLastWord(x: string, t: string, x': string, t': string)
    requires NoSpace(t) && NoSpace(t')
    requires x + " " + t == x' + " " + t'
    ensures x == x' && t == t'
  {
    var m := x + " " + t;
    assert m[|x|] == ' ' && m[|x'|] == ' ';
    assert forall j :: |x| < j < |m| ==> m[j] == t[j - |x| - 1];
    assert forall j :: |x'| < j < |m| ==> m[j] == t'[j - |x'| - 1];
    assert x == m[..|x|] && x' == m[..|x'|];
    assert t == m[|x| + 1..] && t' == m[|x'| + 1..];
  }

  /** "<apostrophe>s <label>": what follows the ssid up to " has changed from". */
  function Possessive(f: Field): string {
    [Apostrophe] + "s " + FieldLabel(f)
  }

  /** A message that ends with a number, up to the space before that number. */
  function Head(c: Change): string
    requires !c.Removed?
  {
    match c
    case Changed(k, f, before, _) => (((k + Possessive(f)) + " has changed from") + " " + IntToString(before)) + " to"
    case Added(k, snr, _) => ((k + " is added to the list with SNR") + " " + IntToString(snr)) + " and channel"
  }

  function LastNumber(c: Change): int
    requires !c.Removed?
  {
    match c
    case Changed(_, _, _, after) => after
    case Added(_, _, channel) => channel
  }

  lemma ChangedShape(k: string, p: string, a: string, b: string)
    ensures k + (p + " has changed from " + (a + " to " + b)) == ((((k + p) + " has changed from") + " " + a) + " to") + " " + b
  {
    assert " has changed from " == " has changed from" + " ";
    assert " to " == " to" + " ";
  }

  lemma AddedShape(k: string, a: string, b: string)
    ensures k + (" is added to the list with SNR " + (a + " and channel " + b)) == ((k + " is added to the list with SNR") + " " + a) + " and channel" + " " + b
  {
    assert " is added to the list with SNR " == " is added to the list with SNR" + " ";
    assert " and channel " == " and channel" + " ";
  }

  lemma RenderEndsWithNumber(c: Change)
    requires !c.Removed?
    ensures Render(c) == Head(c) + " " + IntToString(LastNumber(c))
  {
    match c
    case Changed(k, f, a, b) =>
      assert ChangedText(f) == Possessive(f) + " has changed from ";
      ChangedShape(k, Possessive(f), IntToString(a), IntToString(b));
    case Added(k, x, y) =>
      AddedShape(k, IntToString(x), IntToString(y));
  }

  lemma ChangedHeads(k: string, f: Field, a: int, k': string, f': Field, a': int)
    requires Head(Changed(k, f, a, 0)) == Head(Changed(k', f', a', 0))
    ensures k == k' && f == f' && a == a'
  {
    var x, x' := k + Possessive(f), k' + Possessive(f');
    CancelSuffix((x + " has changed from") + " " + IntToString(a), (x' + " has changed from") + " " + IntToString(a'), " to");
    PeelLastWord(x + " has changed from", IntToString(a), x' + " has changed from", IntToString(a'));
    IntToStringRoundTrip(a);
    IntToStringRoundTrip(a');
    CancelSuffix(x, x', " has changed from");
    assert f == f' by {
      assert x[|x| - 1] == Possessive(f)[|Possessive(f)| - 1];
      assert x'[|x'| - 1] == Possessive(f')[|Possessive(f')| - 1];
    }
    CancelSuffix(k, k', Possessive(f));
  }

  lemma AddedHeads(k: string, x: int, k': string, x': int)
    requires Head(Added(k, x, 0)) == Head(Added(k', x', 0))
    ensures k == k' && x == x'
  {
    var stem := " is added to the list with SNR";
    CancelSuffix((k + stem) + " " + IntToString(x), (k' + stem) + " " + IntToString(x'), " and channel");
    PeelLastWord(k + stem, IntToString(x), k' + stem, IntToString(x'));
    IntToStringRoundTrip(x);
    IntToStringRoundTrip(x');
    CancelSuffix(k, k', stem);
  }

  /** Two different changes never produce the same message, even about
      different ssids. */
  lemma RenderInjective(c: Change, c': Change)
    requires Render(c) == Render(c')
    ensures c == c'
  {
    if c.Removed? || c'.Removed? {
      assert c.Removed? && c'.Removed?;
      CancelSuffix(c.ssid, c'.ssid, RemovedText);
    } else {
      RenderEndsWithNumber(c);
      RenderEndsWithNumber(c');
      PeelLastWord(Head(c), IntToString(LastNumber(c)), Head(c'), IntToString(LastNumber(c')));
      IntToStringRoundTrip(LastNumber(c));
      IntToStringRoundTrip(LastNumber(c'));
      var h, h' := Head(c), Head(c');
      assert h[|h| - 1] == (if c.Changed? then 'o' else 'l');
      assert h'[|h'| - 1] == (if c'.Changed? then 'o' else 'l');
      if c.Changed? && c'.Changed? {
        ChangedHeads(c.ssid, c.field, c.before, c'.ssid, c'.field, c'.before);
      } else if c.Added? && c'.Added? {
        AddedHeads(c.ssid, c.snr, c'.ssid, c'.snr);
      }
    }
  }
}
