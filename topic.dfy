/** The MQTT 3.1.1 topic rules of rumqttc's `mqttbytes::topic`: wildcard
    detection, topic name validation, topic filter validation and matching a topic
    (or another filter) against a filter. */
module Topic {
  import opened Segments

  const NUL: Byte := 0x00
  const HASH: Byte := 0x23    // '#', the multi-level wildcard
  const DOLLAR: Byte := 0x24  // '$', the first character of system topics
  const PLUS: Byte := 0x2B    // '+', the single-level wildcard

  /** Largest encoded length of an MQTT UTF-8 string (section 1.5.3 of MQTT 3.1.1). */
  const MAX_TOPIC_LEN: nat := 65535

  /** Why `ValidTopic` rejected a topic name. */
  datatype InvalidTopicError = EmptyTopic | ContainsNull | ContainsWildCards | TooLong

  /** Rust's `Result<(), InvalidTopicError>`. */
  datatype TopicCheck = Ok | Err(error: InvalidTopicError)

  predicate IsWildcard(b: Byte) {
    b == PLUS || b == HASH
  }

  /** Whether `s` holds a '+' or a '#' anywhere. */
  function HasWildcards(s: Bytes): (r: bool)
    ensures r <==> exists i :: 0 <= i < |s| && IsWildcard(s[i])
  {
    PLUS in s || HASH in s
  }

  /** Validates a topic name to publish to. The checks run in a fixed order, and the
      first one that fails names the error: wildcards, then empty, then NUL, then a
      length over 65535 bytes. */
  function ValidTopic(topic: Bytes): (r: TopicCheck)
    ensures r == Ok <==>
              0 < |topic| <= MAX_TOPIC_LEN && !HasWildcards(topic) && NUL !in topic
    ensures r == Err(ContainsWildCards) <==> HasWildcards(topic)
    ensures r == Err(EmptyTopic) <==> topic == []
    ensures r == Err(ContainsNull) <==> !HasWildcards(topic) && NUL in topic
    ensures r == Err(TooLong) <==>
              !HasWildcards(topic) && NUL !in topic && |topic| > MAX_TOPIC_LEN
  {
    if PLUS in topic then Err(ContainsWildCards)
    else if HASH in topic then Err(ContainsWildCards)
    else if topic == [] then Err(EmptyTopic)
    else if NUL in topic then Err(ContainsNull)
    else if |topic| > MAX_TOPIC_LEN then Err(TooLong)
    else Ok
  }

  /** Validates a topic filter to subscribe to. A level before the last may not hold
      '#', and may hold '+' only if it is one byte long; the last level may hold '#'
      or '+' only if it is one byte long. No reason is given for a rejection. */
  function ValidFilter(filter: Bytes): (r: bool)
    ensures r ==> filter != []
  {
    if filter == [] then false
    else
      var levels := Split(filter);
      var last := levels[|levels| - 1];
      (forall i :: 0 <= i < |levels| - 1 ==>
         HASH !in levels[i] && !(|levels[i]| > 1 && PLUS in levels[i]))
      && !(|last| != 1 && (HASH in last || PLUS in last))
  }

  /** The filter rules as sections 4.7.1.2 and 4.7.1.3 of MQTT 3.1.1 phrase them: a
      level is '+', or a literal without wildcards, or, as the last level only, '#'. */
  predicate LevelWellFormed(level: Bytes, isLast: bool) {
    level == [PLUS] || (isLast && level == [HASH]) || !HasWildcards(level)
  }

  predicate WellFormedFilter(filter: Bytes) {
    filter != [] &&
    var levels := Split(filter);
    forall i :: 0 <= i < |levels| ==> LevelWellFormed(levels[i], i == |levels| - 1)
  }

  predicate StartsWithDollar(s: Bytes) {
    |s| > 0 && s[0] == DOLLAR
  }

  /** Rust's `topic[..1]` panics unless the first character is one byte long. */
  predicate FirstCharIsAscii(s: Bytes) {
    |s| == 0 || s[0] < 0x80
  }

  /** The level walk of `matches`: `ts` are the levels of the topic (or of a filter
      being tested for subsumption), `fs` the levels of the filter. */
  function MatchLevels(ts: seq<Bytes>, fs: seq<Bytes>): (r: bool)
    ensures r ==> FirstHash(fs) <= |ts|
    ensures r && FirstHash(fs) == |fs| ==> |ts| == |fs|
    decreases |fs|
  {
    if fs == [] then ts == []
    else if fs[0] == [HASH] then true
    else if ts == [] then false
    else if ts[0] == [HASH] then false
    else if fs[0] == [PLUS] then MatchLevels(ts[1..], fs[1..])
    else if fs[0] != ts[0] then false
    else MatchLevels(ts[1..], fs[1..])
  }

  /** Position of the first '#' level of `fs`, or |fs| when it has none. */
  function FirstHash(fs: seq<Bytes>): (k: nat)
    ensures k <= |fs|
    ensures k < |fs| ==> fs[k] == [HASH]
    ensures forall i :: 0 <= i < k ==> fs[i] != [HASH]
  {
    if fs == [] || fs[0] == [HASH] then 0 else 1 + FirstHash(fs[1..])
  }

  /** One filter level covers one topic level: '+' covers any level and a literal
      covers itself, but neither covers a '#' level of a filter being subsumed. */
  predicate LevelCovered(t: Bytes, f: Bytes) {
    t != [HASH] && (f == [PLUS] || f == t)
  }

  /** Coverage stated without the walk: every filter level before the first '#' covers
      the topic level at the same position, and, when the filter has no '#', the
      topic has exactly as many levels as the filter. */
  predicate Covers(ts: seq<Bytes>, fs: seq<Bytes>) {
    var k := FirstHash(fs);
    k <= |ts| &&
    (forall i :: 0 <= i < k ==> LevelCovered(ts[i], fs[i])) &&
    (k == |fs| ==> |ts| == |fs|)
  }

  /** The level walk decides exactly coverage. */
  lemma {:induction false} MatchLevelsCovers(ts: seq<Bytes>, fs: seq<Bytes>)
    ensures MatchLevels(ts, fs) <==> Covers(ts, fs)
    decreases |fs|
  {
    if fs != [] && fs[0] != [HASH] && ts != [] && LevelCovered(ts[0], fs[0]) {
      MatchLevelsCovers(ts[1..], fs[1..]);
      var k := FirstHash(fs);
      assert FirstHash(fs[1..]) == k - 1;
      if Covers(ts[1..], fs[1..]) {
        forall i | 0 <= i < k ensures LevelCovered(ts[i], fs[i]) {
          if i > 0 {
            assert ts[1..][i - 1] == ts[i] && fs[1..][i - 1] == fs[i];
          }
        }
      }
      if Covers(ts, fs) {
        forall i | 0 <= i < k - 1 ensures LevelCovered(ts[1..][i], fs[1..][i]) {
          assert ts[1..][i] == ts[i + 1] && fs[1..][i] == fs[i + 1];
        }
      }
    }
  }

  /** Whether `topic` is covered by `filter`. A topic whose first character is '$'
      is never covered, not even by itself. Neither argument is validated. */
  function Matches(topic: Bytes, filter: Bytes): (r: bool)
    ensures StartsWithDollar(topic) ==> !r
    ensures !StartsWithDollar(topic) ==> (r <==> Covers(Split(topic), Split(filter)))
  {
    if StartsWithDollar(topic) then false
    else
      MatchLevelsCovers(Split(topic), Split(filter));
      MatchLevels(Split(topic), Split(filter))
  }

  /** `matches` as the source runs it: two level iterators advanced in lockstep,
      with early exits, and one more poll of the topic iterator at the end. */
  method MatchesIter(topic: Bytes, filter: Bytes) returns (r: bool)
    requires FirstCharIsAscii(topic)
    ensures r == Matches(topic, filter)
  {
    if topic != [] && DOLLAR in topic[..1] {
      return false;
    }
    var topics := new SegmentIter(topic);
    var filters := new SegmentIter(filter);
    while true
      invariant topics.Valid() && filters.Valid()
      invariant MatchLevels(topics.Remaining(), filters.Remaining()) == Matches(topic, filter)
      decreases |filters.Remaining()|
    {
      var f := filters.Next();
      if f.None? {
        break;
      }
      if f.value == [HASH] {
        return true;
      }
      var top := topics.Next();
      match top {
        case Some(t) =>
          if t == [HASH] {
            return false;
          } else if f.value == [PLUS] {
            continue;
          } else if f.value != t {
            return false;
          }
        case None =>
          return false;
      }
    }
    var extra := topics.Next();
    r := extra.None?;
  }
}
