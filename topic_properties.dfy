/** What the topic rules promise, proved about the functions of module Topic. */
module TopicProperties {
  import opened Segments
  import opened Topic

  // ---------------------------------------------------------------------------
  // Topic filters

  /** The per-level tests of `ValidFilter` are the level rules of the standard. */
  lemma LevelRulesAgree(level: Bytes)
    ensures (HASH !in level && !(|level| > 1 && PLUS in level)) <==> LevelWellFormed(level, false)
    ensures !(|level| != 1 && (HASH in level || PLUS in level)) <==> LevelWellFormed(level, true)
  {
    if |level| == 1 {
      assert level == [level[0]];
    }
  }

  /** `ValidFilter` accepts exactly the filters whose every level is '+', a literal
      without wildcards or, as the last level, '#'. */
  lemma ValidFilterIff(filter: Bytes)
    ensures ValidFilter(filter) <==> WellFormedFilter(filter)
  {
    if filter != [] {
      var levels := Split(filter);
      var n := |levels|;
      forall i | 0 <= i < n
        ensures (i < n - 1 ==>
                   ((HASH !in levels[i] && !(|levels[i]| > 1 && PLUS in levels[i])) <==>
                    LevelWellFormed(levels[i], false)))
        ensures (i == n - 1 ==>
                   (!(|levels[i]| != 1 && (HASH in levels[i] || PLUS in levels[i])) <==>
                    LevelWellFormed(levels[i], true)))
      {
        LevelRulesAgree(levels[i]);
      }
    }
  }

  /** Every valid topic name is also a valid filter, and all its levels are literal. */
  lemma ValidTopicIsValidFilter(topic: Bytes)
    requires ValidTopic(topic) == Ok
    ensures ValidFilter(topic)
    ensures forall i :: 0 <= i < |Split(topic)| ==> !HasWildcards(Split(topic)[i])
  {
    var levels := Split(topic);
    forall i | 0 <= i < |levels| ensures !HasWildcards(levels[i]) {
      if PLUS in levels[i] {
        InLevelInText(topic, i, PLUS);
      }
      if HASH in levels[i] {
        InLevelInText(topic, i, HASH);
      }
    }
    ValidFilterIff(topic);
  }

  /** Levels whose only '#' is a whole last level join to a text whose only '#' is
      its last byte. */
  lemma {:induction false} JoinHashOnlyAtEnd(levels: seq<Bytes>)
    requires |levels| >= 1
    requires forall i :: 0 <= i < |levels| - 1 ==> HASH !in levels[i]
    requires HASH !in levels[|levels| - 1] || levels[|levels| - 1] == [HASH]
    ensures forall j :: 0 <= j < |Join(levels)| - 1 ==> Join(levels)[j] != HASH
    decreases |levels|
  {
    if |levels| > 1 {
      var head, rest := levels[0], levels[1..];
      JoinHashOnlyAtEnd(rest);
      var s := Join(levels);
      assert s == head + [SLASH] + Join(rest);
      forall j | 0 <= j < |s| - 1 ensures s[j] != HASH {
        if j < |head| {
          assert s[j] == head[j];
        } else if j > |head| {
          assert s[j] == Join(rest)[j - |head| - 1];
        }
      }
    }
  }

  /** In a valid filter '#' can only be the very last byte. */
  lemma ValidFilterHashOnlyAtEnd(filter: Bytes)
    requires ValidFilter(filter)
    ensures forall j :: 0 <= j < |filter| - 1 ==> filter[j] != HASH
  {
    JoinSplit(filter);
    JoinHashOnlyAtEnd(Split(filter));
  }

  // ---------------------------------------------------------------------------
  // Matching

  lemma {:induction false} MatchLevelsReflexive(ls: seq<Bytes>)
    ensures MatchLevels(ls, ls)
    decreases |ls|
  {
    if ls != [] && ls[0] != [HASH] {
      MatchLevelsReflexive(ls[1..]);
    }
  }

  /** A topic not starting with '$' matches itself read as a filter. */
  lemma MatchesItself(topic: Bytes)
    requires !StartsWithDollar(topic)
    ensures Matches(topic, topic)
  {
    MatchLevelsReflexive(Split(topic));
    MatchLevelsCovers(Split(topic), Split(topic));
  }

  /** The filter "#" matches every topic not starting with '$'. */
  lemma HashMatchesAll(topic: Bytes)
    requires !StartsWithDollar(topic)
    ensures Matches(topic, [HASH])
  {
    SplitNoSlash([HASH]);
    assert FirstHash(Split([HASH])) == 0;
  }

  lemma {:induction false} MatchLevelsUnderHash(ps: seq<Bytes>, xs: seq<Bytes>)
    ensures MatchLevels(ps + xs, ps + [[HASH]])
    decreases |ps|
  {
    if ps != [] && ps[0] != [HASH] {
      MatchLevelsUnderHash(ps[1..], xs);
      assert (ps + xs)[1..] == ps[1..] + xs;
      assert (ps + [[HASH]])[1..] == ps[1..] + [[HASH]];
    }
  }

  /** A filter `p/#` matches `p` itself and `p` followed by any further levels. */
  lemma MultiLevelSuffix(prefix: Bytes, more: Bytes)
    requires !StartsWithDollar(prefix)
    ensures Matches(prefix, prefix + [SLASH, HASH])
    ensures Matches(prefix + [SLASH] + more, prefix + [SLASH, HASH])
  {
    var filter := prefix + [SLASH, HASH];
    assert filter == prefix + [SLASH] + [HASH];
    SplitAppend(prefix, [HASH]);
    SplitNoSlash([HASH]);
    SplitAppend(prefix, more);
    var ps := Split(prefix);
    MatchLevelsUnderHash(ps, []);
    assert ps + [] == ps;
    MatchLevelsUnderHash(ps, Split(more));
    MatchLevelsCovers(ps, Split(filter));
    var topic := prefix + [SLASH] + more;
    assert !StartsWithDollar(topic) by {
      if prefix == [] {
        assert topic[0] == SLASH;
      } else {
        assert topic[0] == prefix[0];
      }
    }
    MatchLevelsCovers(Split(topic), Split(filter));
  }

  /** A text splits into a single level exactly when it has no '/'. */
  lemma SplitOneLevel(s: Bytes)
    ensures |Split(s)| == 1 <==> SLASH !in s
  {
    if SLASH in s {
      assert FirstSlash(s) < |s|;
    } else {
      SplitNoSlash(s);
    }
  }

  /** The filter "+" matches exactly the one-level topics (other than a lone '#'
      being tested for subsumption) that do not start with '$'. */
  lemma SinglePlusMatchesOneLevel(topic: Bytes)
    ensures Matches(topic, [PLUS]) <==>
              !StartsWithDollar(topic) && SLASH !in topic && topic != [HASH]
  {
    SplitNoSlash([PLUS]);
    SplitOneLevel(topic);
    if SLASH !in topic {
      SplitNoSlash(topic);
    }
    assert FirstHash([[PLUS]]) == 1;
  }

  /** The first '#' level is the only position that is a '#' level (or the end) with
      no '#' level before it. */
  lemma FirstHashUnique(fs: seq<Bytes>, k: nat)
    requires k <= |fs|
    requires k < |fs| ==> fs[k] == [HASH]
    requires forall i :: 0 <= i < k ==> fs[i] != [HASH]
    ensures FirstHash(fs) == k
  {
  }

  /** '+' stands for exactly one level: putting '+' in place of any filter level
      before the first '#' keeps every match. */
  lemma PlusReplacesLevel(ts: seq<Bytes>, fs: seq<Bytes>, i: nat)
    requires MatchLevels(ts, fs)
    requires i < FirstHash(fs)
    ensures MatchLevels(ts, fs[i := [PLUS]])
  {
    var fs' := fs[i := [PLUS]];
    MatchLevelsCovers(ts, fs);
    MatchLevelsCovers(ts, fs');
    FirstHashUnique(fs', FirstHash(fs));
  }

  /** Level counts decide a match before contents do: a filter with more levels
      before its first '#' than the topic has fails, and a filter without '#' fails
      a topic with more levels than it has. */
  lemma LevelCountMismatch(topic: Bytes, filter: Bytes)
    ensures FirstHash(Split(filter)) > |Split(topic)| ==> !Matches(topic, filter)
    ensures FirstHash(Split(filter)) == |Split(filter)| < |Split(topic)| ==>
              !Matches(topic, filter)
  {
  }

  /** A filter without wildcards matches a topic not starting with '$' exactly when
      the two are the same text. */
  lemma LiteralFilterMatchesOnlyItself(topic: Bytes, filter: Bytes)
    requires !HasWildcards(filter)
    requires !StartsWithDollar(topic)
    ensures Matches(topic, filter) <==> topic == filter
  {
    var ts, fs := Split(topic), Split(filter);
    forall i | 0 <= i < |fs| ensures fs[i] != [HASH] && fs[i] != [PLUS] {
      if fs[i] == [HASH] {
        InLevelInText(filter, i, HASH);
      }
      if fs[i] == [PLUS] {
        InLevelInText(filter, i, PLUS);
      }
    }
    if Matches(topic, filter) {
      assert FirstHash(fs) == |fs|;
      assert ts == fs;
      JoinSplit(topic);
      JoinSplit(filter);
    } else if topic == filter {
      MatchesItself(topic);
    }
  }

  /** A level '#' of a filter being subsumed is only covered by a '#' of the other
      filter at the same or an earlier level. */
  lemma HashLevelNeedsHash(subject: Bytes, filter: Bytes, i: nat)
    requires Matches(subject, filter)
    requires i < |Split(subject)| && Split(subject)[i] == [HASH]
    ensures FirstHash(Split(filter)) <= i
  {
  }

  lemma {:induction false} MatchLevelsTransitive(a: seq<Bytes>, b: seq<Bytes>, c: seq<Bytes>)
    requires MatchLevels(a, b) && MatchLevels(b, c)
    ensures MatchLevels(a, c)
    decreases |c|
  {
    if c != [] && c[0] != [HASH] {
      MatchLevelsTransitive(a[1..], b[1..], c[1..]);
    }
  }

  /** Subsumption is sound: a topic matched by a filter that another filter covers
      is matched by that other filter too. */
  lemma MatchesTransitive(topic: Bytes, narrow: Bytes, wide: Bytes)
    requires Matches(topic, narrow) && Matches(narrow, wide)
    ensures Matches(topic, wide)
  {
    var ts, ns, ws := Split(topic), Split(narrow), Split(wide);
    MatchLevelsCovers(ts, ns);
    MatchLevelsCovers(ns, ws);
    MatchLevelsTransitive(ts, ns, ws);
    MatchLevelsCovers(ts, ws);
  }
}
