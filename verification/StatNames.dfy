/**
 Xray names its per-user counters `user>>>TAG>>>traffic>>>uplink` and its presence
 statistic `user>>>TAG>>>online`. The control plane takes the tag back out of such a
 name with JavaScript's `split('>>>')`, which cuts at the leftmost separator, goes on
 behind it and never looks back. This module models the printers and the parsers and
 says exactly for which tags they are inverse to each other.
 */
module StatNames {

  import opened Basics

  datatype Direction = Uplink | Downlink

  const SEP := ">>>"
  const USER := "user"
  const TRAFFIC := "traffic"
  const ONLINE := "online"

  predicate SepAt(s: string, i: nat) {
    i + 3 <= |s| && s[i] == '>' && s[i + 1] == '>' && s[i + 2] == '>'
  }

  ghost predicate HasSep(s: string) {
    exists i: nat :: SepAt(s, i)
  }

  /** The first separator at or after `from`, or the length of the string. */
  function IndexOfSep(s: string, from: nat): (k: nat)
    requires from <= |s|
    ensures from <= k <= |s|
    ensures k < |s| ==> SepAt(s, k)
    ensures forall i: nat :: from <= i < k ==> !SepAt(s, i)
    decreases |s| - from
  {
    if from == |s| || SepAt(s, from) then from else IndexOfSep(s, from + 1)
  }

  function Split(s: string): (parts: seq<string>)
    ensures |parts| >= 1
    decreases |s|
  {
    var k := IndexOfSep(s, 0);
    if k == |s| then [s] else [s[..k]] + Split(s[k + 3..])
  }

  function Join(parts: seq<string>): string
    requires |parts| >= 1
  {
    if |parts| == 1 then parts[0] else parts[0] + SEP + Join(parts[1..])
  }

  function OnlineName(tag: string): string {
    USER + SEP + (tag + SEP + ONLINE)
  }

  function DirectionName(dir: Direction): string {
    if dir.Uplink? then "uplink" else "downlink"
  }

  function TrafficName(tag: string, dir: Direction): string {
    USER + SEP + (tag + SEP + (TRAFFIC + SEP + DirectionName(dir)))
  }

  /** The names as Xray spells them. */
  lemma NamesInFull(tag: string)
    ensures OnlineName(tag) == "user>>>" + tag + ">>>online"
    ensures TrafficName(tag, Uplink) == "user>>>" + tag + ">>>traffic>>>uplink"
    ensures TrafficName(tag, Downlink) == "user>>>" + tag + ">>>traffic>>>downlink"
  {
    assert USER + SEP == "user>>>" && SEP + ONLINE == ">>>online";
    assert TRAFFIC + SEP == "traffic>>>";
    assert SEP + (TRAFFIC + SEP + "uplink") == ">>>traffic>>>uplink";
    assert SEP + (TRAFFIC + SEP + "downlink") == ">>>traffic>>>downlink";
  }

  function ParseOnlineName(value: string): Option<string> {
    var parts := Split(value);
    if |parts| != 3 || parts[0] != USER || parts[2] != ONLINE then None else Some(parts[1])
  }

  function ParseTrafficName(value: string): Option<(string, Direction)> {
    var parts := Split(value);
    if |parts| != 4 || parts[0] != USER || parts[2] != TRAFFIC then None
    else if parts[3] == "uplink" then Some((parts[1], Uplink))
    else if parts[3] == "downlink" then Some((parts[1], Downlink))
    else None
  }

  /** The tags whose names survive a round trip. */
  ghost predicate Parsable(tag: string) {
    !HasSep(tag) && !(|tag| > 0 && tag[|tag| - 1] == '>')
  }

  // ----- splitting -----

  lemma {:induction false} JoinSplit(s: string)
    ensures Join(Split(s)) == s
    decreases |s|
  {
    var k := IndexOfSep(s, 0);
    if k < |s| {
      JoinSplit(s[k + 3..]);
      assert Split(s)[1..] == Split(s[k + 3..]);
      assert s == s[..k] + SEP + s[k + 3..];
    }
  }

  lemma {:induction false} PartsHaveNoSep(s: string)
    ensures forall p :: p in Split(s) ==> !HasSep(p)
    decreases |s|
  {
    var k := IndexOfSep(s, 0);
    assert !HasSep(s[..k]) by {
      if i: nat :| SepAt(s[..k], i) {
        assert SepAt(s, i);
      }
    }
    if k < |s| {
      PartsHaveNoSep(s[k + 3..]);
    } else {
      assert s[..k] == s;
    }
  }

  /** The leftmost cut falls right behind `a` when `a` neither holds a separator nor can
      start one together with what follows. */
  lemma SplitLeftmost(a: string, rest: string)
    requires Parsable(a)
    ensures Split(a + SEP + rest) == [a] + Split(rest)
  {
    var s := a + SEP + rest;
    assert SepAt(s, |a|);
    forall i: nat | i < |a| ensures !SepAt(s, i) {
      if i + 3 <= |a| {
        assert !SepAt(a, i);
      }
    }
    assert IndexOfSep(s, 0) == |a|;
    assert s[..|a|] == a;
    assert s[|a| + 3..] == rest;
  }

  lemma SplitAtom(a: string)
    requires !HasSep(a)
    ensures Split(a) == [a]
  {
    var k := IndexOfSep(a, 0);
    assert k == |a| || SepAt(a, k);
  }

  /** A tag that ends in '>' loses that character to the separator that follows. */
  lemma SplitSteals(a: string, rest: string)
    requires |a| > 0 && a[|a| - 1] == '>'
    ensures Split(a + SEP + rest)[0] != a
  {
    var s := a + SEP + rest;
    assert SepAt(s, |a| - 1);
  }

  lemma JoinTail(parts: seq<string>)
    requires |parts| >= 2
    ensures Join(parts) == parts[0] + SEP + Join(parts[1..])
  {
  }

  lemma Join3(a: string, b: string, c: string)
    ensures Join([a, b, c]) == a + SEP + (b + SEP + c)
  {
    JoinTail([a, b, c]);
    assert [a, b, c][1..] == [b, c];
    JoinTail([b, c]);
    assert [b, c][1..] == [c];
  }

  lemma Join4(a: string, b: string, c: string, d: string)
    ensures Join([a, b, c, d]) == a + SEP + (b + SEP + (c + SEP + d))
  {
    JoinTail([a, b, c, d]);
    assert [a, b, c, d][1..] == [b, c, d];
    Join3(b, c, d);
  }

  lemma Split3(a: string, b: string, c: string)
    requires Parsable(a) && Parsable(b) && !HasSep(c)
    ensures Split(a + SEP + (b + SEP + c)) == [a, b, c]
  {
    SplitLeftmost(a, b + SEP + c);
    SplitLeftmost(b, c);
    SplitAtom(c);
  }

  lemma Split4(a: string, b: string, c: string, d: string)
    requires Parsable(a) && Parsable(b) && Parsable(c) && !HasSep(d)
    ensures Split(a + SEP + (b + SEP + (c + SEP + d))) == [a, b, c, d]
  {
    SplitLeftmost(a, b + SEP + (c + SEP + d));
    Split3(b, c, d);
  }

  /** The fixed words of a statistic name hold no '>' at all. */
  lemma PlainWords()
    ensures Parsable(USER) && Parsable(TRAFFIC)
    ensures !HasSep(ONLINE) && !HasSep("uplink") && !HasSep("downlink")
  {
    NoMarker(USER);
    NoMarker(TRAFFIC);
    NoMarker(ONLINE);
    NoMarker("uplink");
    NoMarker("downlink");
  }

  lemma NoMarker(word: string)
    requires '>' !in word
    ensures Parsable(word)
  {
    forall i: nat | i < |word| ensures !SepAt(word, i) {
      assert word[i] in word;
    }
  }

  // ----- what the parsers accept -----

  lemma AcceptedOnlineName(value: string)
    requires ParseOnlineName(value).Some?
    ensures value == OnlineName(ParseOnlineName(value).value)
    ensures Parsable(ParseOnlineName(value).value)
  {
    var parts := Split(value);
    var tag := parts[1];
    JoinSplit(value);
    PartsHaveNoSep(value);
    assert parts == [USER, tag, ONLINE];
    Join3(USER, tag, ONLINE);
    PlainWords();
    SplitLeftmost(USER, tag + SEP + ONLINE);
    if |tag| > 0 && tag[|tag| - 1] == '>' {
      SplitSteals(tag, ONLINE);
    }
  }

  lemma AcceptedTrafficName(value: string)
    requires ParseTrafficName(value).Some?
    ensures value == TrafficName(ParseTrafficName(value).value.0, ParseTrafficName(value).value.1)
    ensures Parsable(ParseTrafficName(value).value.0)
  {
    var parts := Split(value);
    var tag := parts[1];
    JoinSplit(value);
    PartsHaveNoSep(value);
    assert parts == [USER, tag, TRAFFIC, parts[3]];
    Join4(USER, tag, TRAFFIC, parts[3]);
    PlainWords();
    SplitLeftmost(USER, tag + SEP + (TRAFFIC + SEP + parts[3]));
    if |tag| > 0 && tag[|tag| - 1] == '>' {
      SplitSteals(tag, TRAFFIC + SEP + parts[3]);
    }
  }

  // ----- round trips -----

  /** Reading back a printed presence name gives the tag for exactly the parsable tags, and nothing otherwise. */
  lemma OnlineRoundTrip(tag: string)
    ensures ParseOnlineName(OnlineName(tag)) == if Parsable(tag) then Some(tag) else None
  {
    PlainWords();
    if Parsable(tag) {
      Split3(USER, tag, ONLINE);
    } else if ParseOnlineName(OnlineName(tag)).Some? {
      var other := ParseOnlineName(OnlineName(tag)).value;
      AcceptedOnlineName(OnlineName(tag));
      Regroup(tag, SEP, ONLINE);
      Regroup(other, SEP, ONLINE);
      Unframe(tag, other, SEP + ONLINE);
    }
  }

  /** The same for the traffic counters. */
  lemma TrafficRoundTrip(tag: string, dir: Direction)
    ensures ParseTrafficName(TrafficName(tag, dir)) == if Parsable(tag) then Some((tag, dir)) else None
  {
    PlainWords();
    if Parsable(tag) {
      Split4(USER, tag, TRAFFIC, DirectionName(dir));
    } else if ParseTrafficName(TrafficName(tag, dir)).Some? {
      AcceptedTrafficName(TrafficName(tag, dir));
      var p := ParseTrafficName(TrafficName(tag, dir)).value;
      TrafficNameInjective(p.0, p.1, tag, dir);
    }
  }

  lemma Regroup(a: string, b: string, c: string)
    ensures a + b + c == a + (b + c)
  {
  }

  lemma Unframe(a: string, b: string, post: string)
    requires USER + SEP + (a + post) == USER + SEP + (b + post)
    ensures a == b
  {
    var s, t := USER + SEP + (a + post), USER + SEP + (b + post);
    assert |a| == |b|;
    assert s[7..7 + |a|] == a;
    assert t[7..7 + |b|] == b;
  }

  /** Two counters share a name only when they count the same direction of the same tag. */
  lemma TrafficNameInjective(a: string, d: Direction, b: string, e: Direction)
    requires TrafficName(a, d) == TrafficName(b, e)
    ensures a == b && d == e
  {
    SixthFromEnd(a, d);
    SixthFromEnd(b, e);
    var post := SEP + (TRAFFIC + SEP + DirectionName(d));
    Regroup(a, SEP, TRAFFIC + SEP + DirectionName(d));
    Regroup(b, SEP, TRAFFIC + SEP + DirectionName(d));
    Unframe(a, b, post);
  }

  lemma SixthFromEnd(tag: string, dir: Direction)
    ensures |TrafficName(tag, dir)| >= 6
    ensures TrafficName(tag, dir)[|TrafficName(tag, dir)| - 6] == if dir.Uplink? then 'u' else 'w'
  {
    var w := DirectionName(dir);
    var name := TrafficName(tag, dir);
    assert name[|name| - |w|..] == w;
    assert w[|w| - 6] == if dir.Uplink? then 'u' else 'w';
  }

  /** No statistic is taken for traffic and presence at once. */
  lemma NamesDisjoint(value: string)
    ensures ParseOnlineName(value).None? || ParseTrafficName(value).None?
  {
  }
}
