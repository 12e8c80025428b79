# MQTT topic rules of rumqttc, modelled in Dafny

This project models `rumqttc/src/mqttbytes/topic.rs`, the topic rules engine of the
rumqttc MQTT client. It has four stateless operations on topic text:

- `has_wildcards`: does a string hold a `+` or a `#`?
- `valid_topic`: is a string a legal topic name to publish to? If not, it names one
  reason, checked in a fixed order: wildcards, then empty, then NUL, then more than
  65535 bytes.
- `valid_filter`: is a string a legal subscription filter? It splits the filter on
  `/` and answers yes or no from where `+` and `#` may appear.
- `matches`: is a topic covered by a filter? It walks the `/`-levels of both in
  lockstep. It is also used to ask whether one filter subsumes another. A topic whose
  first character is `$` is never matched.

These follow the topic rules of MQTT 3.1.1:

- section 4.7.1 covers the wildcards (4.7.1.2 multi-level `#`, 4.7.1.3 single-level `+`);
- section 4.7.2 covers topics that begin with `$`;
- section 4.7.3 covers non-empty names, no U+0000, and at most 65535 bytes (the UTF-8 string rule of section 1.5.3).

Text is modelled as bytes (`Segments.Bytes`, a `seq` of integers 0..255). Rust's
`len()` counts bytes. Every character the rules inspect (`/`, `+`, `#`, `$`, NUL)
is ASCII. An ASCII byte never occurs inside a multibyte UTF-8 sequence. So byte-level
splitting and searching gives the same answers as the source.

Files:

- `segments.dfy` (module `Segments`) models Rust's `str::split('/')` in two ways.
  `Split` is a pure function. `SegmentIter` is a class: a cursor whose `Next` method
  hands out one level at a time, like the iterator `matches` advances. The file
  also proves `Split` and `Join` are inverses.
- `topic.dfy` (module `Topic`) holds the four operations and the error enum. It
  defines `MatchLevels`, the recursive walk over the two level lists; `Matches`,
  the specification of `matches` (the `$` test, then `MatchLevels` on the two
  splits); and `MatchesIter`, the loop over two `SegmentIter` objects that the
  source runs.
  `MatchesIter` is proved equal to `Matches`. It also holds two reference
  definitions: `WellFormedFilter` states the filter rules as the standard words them,
  and `Covers` states matching without a walk.
- `topic_properties.dfy` (module `TopicProperties`) proves the properties the rules
  promise.
- `topic_examples.dfy` (module `TopicExamples`) restates the unit tests of
  `topic.rs` as lemmas.

Where the code and the standard differ, the model follows the code:

- `matches` rejects every subject whose first byte is `$`, even a literal match of
  itself. Section 4.7.2 only stops wildcards at the first level from matching such
  topics.
- `valid_filter` checks neither NUL nor length. Section 4.7.3 applies both rules to
  filters too.

## Model

| member | source | states |
|---|---|---|
| `Topic.HasWildcards` | rumqttc/src/mqttbytes/topic.rs:9-12 | true exactly when some byte of the string is `+` or `#` |
| `Topic.ValidTopic` | rumqttc/src/mqttbytes/topic.rs:14-37 | `Ok` exactly for a non-empty, wildcard-free, NUL-free name of at most 65535 bytes; `ContainsWildCards` exactly when a `+` or `#` is present, whatever else is wrong; `EmptyTopic` exactly for the empty name; `ContainsNull` exactly when a NUL is present and no wildcard; `TooLong` exactly when the name has more than 65535 bytes and neither a wildcard nor a NUL |
| `Topic.ValidFilter` | rumqttc/src/mqttbytes/topic.rs:42-73 | the empty filter is rejected; the full acceptance rule is stated by `TopicProperties.ValidFilterIff` |
| `TopicProperties.LevelRulesAgree` | rumqttc/src/mqttbytes/topic.rs:53-68 | the code's test on a non-last level holds exactly when the level is `+` or has no wildcard; its test on the last level holds exactly when the level is `+`, `#` or has no wildcard |
| `TopicProperties.ValidFilterIff` | rumqttc/src/mqttbytes/topic.rs:42-73 | a filter is accepted exactly when it is non-empty and every level is `+`, a wildcard-free literal, or `#` as the last level (the level rules of MQTT 3.1.1 section 4.7.1) |
| `TopicProperties.ValidFilterHashOnlyAtEnd` | rumqttc/src/mqttbytes/topic.rs:49-69 | in an accepted filter a `#` can only be the final byte |
| `TopicProperties.ValidTopicIsValidFilter` | rumqttc/src/mqttbytes/topic.rs:14-73 | every accepted topic name is also an accepted filter, and all its levels are wildcard-free |
| `Segments.FirstSlash` | rumqttc/src/mqttbytes/topic.rs:47 | the index of the first `/`, or the length when there is none: no `/` before it |
| `Segments.Split` | rumqttc/src/mqttbytes/topic.rs:47 | `split('/')` yields at least one level, and no level holds `/` |
| `Segments.JoinSplit` | rumqttc/src/mqttbytes/topic.rs:47 | joining the levels with `/` gives back the text |
| `Segments.SplitJoin` | rumqttc/src/mqttbytes/topic.rs:47 | splitting the join of `/`-free levels gives back the levels |
| `Segments.SplitAppend` | rumqttc/src/mqttbytes/topic.rs:47 | the levels of `a/b` are the levels of `a` followed by those of `b` |
| `Segments.SplitAt` | rumqttc/src/mqttbytes/topic.rs:85-86 | the levels from a position on are the bytes up to the next `/` (or the end), followed by the levels after that `/` |
| `Segments.InLevelInText` | rumqttc/src/mqttbytes/topic.rs:47-53 | every byte of a level is a byte of the text |
| `Segments.SegmentIter.constructor` | rumqttc/src/mqttbytes/topic.rs:85-86 | a new iterator has all the levels of its text still to come |
| `Segments.SegmentIter.Next` | rumqttc/src/mqttbytes/topic.rs:88-108 | each call hands out the next level and drops it from those still to come; once none remain it returns `None` and stays exhausted |
| `Topic.FirstHash` | rumqttc/src/mqttbytes/topic.rs:88-92 | the position of the first `#` level, with no `#` level before it |
| `Topic.MatchLevels` | rumqttc/src/mqttbytes/topic.rs:88-112 | the level walk of `matches`, step by step: a success needs at least as many subject levels as filter levels before the first `#`, and exactly as many when the filter has no `#`; its full meaning is given by `Topic.MatchLevelsCovers` |
| `Topic.MatchLevelsCovers` | rumqttc/src/mqttbytes/topic.rs:88-112 | the level walk succeeds exactly when every filter level before the first `#` covers the subject level at the same position (`+` covers any level, a literal covers only itself, neither covers a `#` subject level), the subject has at least that many levels, and, when the filter has no `#`, exactly as many |
| `Topic.Matches` | rumqttc/src/mqttbytes/topic.rs:80-113 | a subject starting with `$` is never matched; otherwise the result is the coverage relation above on the two level lists |
| `Topic.MatchesIter` | rumqttc/src/mqttbytes/topic.rs:80-113 | two level iterators advanced in lockstep with the source's early exits and its final poll compute exactly `Matches` |
| `TopicProperties.MatchesItself` | rumqttc/src/mqttbytes/topic.rs:182-184 | a subject not starting with `$` matches itself |
| `TopicProperties.HashMatchesAll` | rumqttc/src/mqttbytes/topic.rs:90-92 | the filter `#` matches every subject not starting with `$` |
| `TopicProperties.MatchLevelsUnderHash` | rumqttc/src/mqttbytes/topic.rs:88-92 | levels `p` then `#` match `p` followed by any further levels, including none |
| `TopicProperties.MultiLevelSuffix` | rumqttc/src/mqttbytes/topic.rs:202-216 | a filter `p/#` matches `p` itself and `p/x` for any `x` |
| `TopicProperties.SplitOneLevel` | rumqttc/src/mqttbytes/topic.rs:47 | a text is a single level exactly when it has no `/` |
| `TopicProperties.SinglePlusMatchesOneLevel` | rumqttc/src/mqttbytes/topic.rs:97-103 | the filter `+` matches exactly the one-level subjects that do not start with `$` and are not `#` |
| `TopicProperties.PlusReplacesLevel` | rumqttc/src/mqttbytes/topic.rs:100 | replacing any filter level before the first `#` by `+` keeps every match |
| `TopicProperties.LevelCountMismatch` | rumqttc/src/mqttbytes/topic.rs:103-110 | a filter with more levels before its first `#` than the subject has fails, and a filter without `#` fails a subject with more levels |
| `TopicProperties.LiteralFilterMatchesOnlyItself` | rumqttc/src/mqttbytes/topic.rs:101-112 | a wildcard-free filter matches a subject not starting with `$` exactly when the two texts are equal |
| `TopicProperties.HashLevelNeedsHash` | rumqttc/src/mqttbytes/topic.rs:99 | a `#` level of the subject is only covered by a `#` of the filter at the same or an earlier level |
| `TopicProperties.MatchLevelsTransitive` | rumqttc/src/mqttbytes/topic.rs:88-112 | the level walk is transitive |
| `TopicProperties.MatchesTransitive` | rumqttc/src/mqttbytes/topic.rs:75-80 | subsumption is sound: if a topic matches filter `n` and `n` is matched by filter `w`, the topic matches `w` |
| `TopicExamples.WildcardsAreDetected` | rumqttc/src/mqttbytes/topic.rs:117-122 | `a/b/c` has no wildcards; `a/+/c` and `a/b/#` have wildcards |
| `TopicExamples.TopicsAreValidated` | rumqttc/src/mqttbytes/topic.rs:124-154 | the source's name tests give the expected results, including the 65535 and 65536 byte boundary |
| `TopicExamples.FiltersAreValidated` | rumqttc/src/mqttbytes/topic.rs:161-171 | `""` is rejected; `correct/filter/#` and `cor/+/rect/+` are accepted |
| `TopicExamples.HashBeforeLastLevelIsRejected` | rumqttc/src/mqttbytes/topic.rs:158-159 | `wrong/#/filter` and `wrong/wr#ng/filter` are rejected |
| `TopicExamples.WildcardInsideLastLevelIsRejected` | rumqttc/src/mqttbytes/topic.rs:160-164 | `wrong/filter#` and `wron/+g` are rejected |
| `TopicExamples.PlusInsideLevelIsRejected` | rumqttc/src/mqttbytes/topic.rs:162-163 | `wr/o+/ng` and `wr/+o+/ng` are rejected |
| `TopicExamples.DollarTopicsAreExcluded` | rumqttc/src/mqttbytes/topic.rs:173-178 | `sy$tem/metrics` matches `sy$tem/+`; `$system/metrics` matches neither `$system/+`, `+/+` nor itself |
| `TopicExamples.MatchesPath` | rumqttc/src/mqttbytes/topic.rs:80-113 | for texts built from levels, with a first byte other than `$`, `Matches` is the level walk |
| `TopicExamples.TopicsMatchFilters` | rumqttc/src/mqttbytes/topic.rs:182-216 | `a/b/c` matches itself, `#` and `a/b/c/#`; `a/b/c/d` and `a/b/c/d/e/f` match `a/b/c/#` |
| `TopicExamples.PlusMatchesOneLevel` | rumqttc/src/mqttbytes/topic.rs:218-227 | `a/+/c` matches `a/b/c`; `a/+/c/+/e` matches `a/b/c/d/e`; `a/b/+` does not match `a/b` |
| `TopicExamples.TopicsMissFilters` | rumqttc/src/mqttbytes/topic.rs:186-208 | `a/b/c` matches none of `d/b/c`, `a/b/e` or `a/b/c/d`; `a/b/c/d` does not match `a/b/c` |
| `TopicExamples.FiltersSubsumeFilters` | rumqttc/src/mqttbytes/topic.rs:229-241 | `a/b/+` is covered by `a/b/#` and by `#`, but `a/b/#` is not covered by `a/b/+`; `a/+/c/d` is covered by `a/+/+/d`, but not the other way round |

## Left out

- `rumqttc/tests/topic_validation.rs` is not part of this model. It is an async integration test that starts a broker and a network client. Its point is I/O and concurrency, not the topic rules.
- `#[derive(Debug)]` on `InvalidTopicError` only adds formatting. The enum is a plain datatype.
- UTF-8 well-formedness of the input is not modelled. Rust's `&str` guarantees it, and every byte the rules test is ASCII.
- Topic.MatchesIter: `topic[..1]` panics when the first character of the topic is multibyte. The method excludes that case with `requires FirstCharIsAscii(topic)` and does not model the panic. The specification function `Matches` is defined for every byte string. It tests only whether the first byte is `$`.
- Topic.Matches: defined for every byte string, it tests only whether the first byte is `$`. The source's `topic[..1]` panics when the topic's first character is multibyte, so on those inputs the lemmas about `Matches` (for example `MatchesItself`, which gives a match of `é` against itself) state a result the source never returns.
- No subscription table, routing or broker dispatch that calls `matches` is modelled. None of it is in `topic.rs`.
- Idempotence of validation follows from every operation being a pure function. It is not stated as a separate lemma.
