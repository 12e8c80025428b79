/** The unit tests of `mqttbytes::topic`, stated as lemmas about the model. */
module TopicExamples {
  import opened Segments
  import opened Topic
  import opened TopicProperties

  const A: Bytes := [97]  // "a"
  const B: Bytes := [98]  // "b"
  const C: Bytes := [99]  // "c"
  const D: Bytes := [100]  // "d"
  const E: Bytes := [101]  // "e"
  const F: Bytes := [102]  // "f"

  const WRONG_PLUS: Bytes := [43, 119, 114, 111, 110, 103]  // "+wrong"
  const WRO_HASH_NG: Bytes := [119, 114, 111, 35, 110, 103]  // "wro#ng"
  const W_R_O_N_G_PLUS: Bytes := [119, 47, 114, 47, 111, 47, 110, 47, 103, 43]  // "w/r/o/n/g+"
  const WRONG_HASH_PATH: Bytes := [119, 114, 111, 110, 103, 47, 35, 47, 112, 97, 116, 104]  // "wrong/#/path"
  const UNDERSCORE: Bytes := [95]  // "_"
  // "string_with_null" followed by a NUL byte
  const WITH_NULL: Bytes :=
    [115, 116, 114, 105, 110, 103, 95, 119, 105, 116, 104, 95, 110, 117, 108, 108, 0]
  // "string_with_no_null" followed by a backslash and the digit zero
  const WITH_ESCAPED_NULL: Bytes :=
    [115, 116, 114, 105, 110, 103, 95, 119, 105, 116, 104, 95, 110, 111, 95, 110, 117, 108, 108, 92, 48]

  const WRONG: Bytes := [119, 114, 111, 110, 103]  // "wrong"
  const FILTER: Bytes := [102, 105, 108, 116, 101, 114]  // "filter"
  const WR_HASH_NG: Bytes := [119, 114, 35, 110, 103]  // "wr#ng"
  const FILTER_HASH: Bytes := [102, 105, 108, 116, 101, 114, 35]  // "filter#"
  const CORRECT: Bytes := [99, 111, 114, 114, 101, 99, 116]  // "correct"
  const WR: Bytes := [119, 114]  // "wr"
  const O_PLUS: Bytes := [111, 43]  // "o+"
  const NG: Bytes := [110, 103]  // "ng"
  const PLUS_O_PLUS: Bytes := [43, 111, 43]  // "+o+"
  const WRON: Bytes := [119, 114, 111, 110]  // "wron"
  const PLUS_G: Bytes := [43, 103]  // "+g"
  const COR: Bytes := [99, 111, 114]  // "cor"
  const RECT: Bytes := [114, 101, 99, 116]  // "rect"
  const SY_DOLLAR_TEM: Bytes := [115, 121, 36, 116, 101, 109]  // "sy$tem"
  const METRICS: Bytes := [109, 101, 116, 114, 105, 99, 115]  // "metrics"
  const DOLLAR_SYSTEM: Bytes := [36, 115, 121, 115, 116, 101, 109]  // "$system"

  /** The text whose levels are `levels`. */
  function Path(levels: seq<Bytes>): (s: Bytes)
    requires |levels| >= 1
    requires forall i :: 0 <= i < |levels| ==> SLASH !in levels[i]
    ensures Split(s) == levels
    ensures levels[0] <= s
  {
    SplitJoin(levels);
    Join(levels)
  }

  lemma WildcardsAreDetected()
    ensures !HasWildcards(Path([A, B, C]))
    ensures HasWildcards(Path([A, [PLUS], C]))
    ensures HasWildcards(Path([A, B, [HASH]]))
  {
    NotInLevelsNotInJoin([A, B, C], PLUS);
    NotInLevelsNotInJoin([A, B, C], HASH);
    InLevelInText(Path([A, [PLUS], C]), 1, PLUS);
    InLevelInText(Path([A, B, [HASH]]), 2, HASH);
  }

  lemma TopicsAreValidated()
    ensures ValidTopic(WRONG_PLUS) == Err(ContainsWildCards)
    ensures ValidTopic(WRO_HASH_NG) == Err(ContainsWildCards)
    ensures ValidTopic(W_R_O_N_G_PLUS) == Err(ContainsWildCards)
    ensures ValidTopic(WRONG_HASH_PATH) == Err(ContainsWildCards)
    ensures ValidTopic([]) == Err(EmptyTopic)
    ensures ValidTopic(UNDERSCORE) == Ok
    ensures ValidTopic(WITH_NULL) == Err(ContainsNull)
    ensures ValidTopic(WITH_ESCAPED_NULL) == Ok
    ensures ValidTopic(seq(MAX_TOPIC_LEN + 1, _ => 97)) == Err(TooLong)
    ensures ValidTopic(seq(MAX_TOPIC_LEN, _ => 97)) == Ok
  {
    assert WRONG_PLUS[0] == PLUS;
    assert WRO_HASH_NG[3] == HASH;
    assert W_R_O_N_G_PLUS[9] == PLUS;
    assert WRONG_HASH_PATH[6] == HASH;
    assert WITH_NULL[16] == NUL;
  }

  lemma FiltersAreValidated()
    ensures !ValidFilter([])
    ensures ValidFilter(Path([CORRECT, FILTER, [HASH]]))
    ensures ValidFilter(Path([COR, [PLUS], RECT, [PLUS]]))
  {
    ValidFilterIff(Path([CORRECT, FILTER, [HASH]]));
    ValidFilterIff(Path([COR, [PLUS], RECT, [PLUS]]));
  }

  lemma HashBeforeLastLevelIsRejected()
    ensures !ValidFilter(Path([WRONG, [HASH], FILTER]))
    ensures !ValidFilter(Path([WRONG, WR_HASH_NG, FILTER]))
  {
    assert HASH in [HASH];
    assert WR_HASH_NG[2] == HASH;
  }

  lemma WildcardInsideLastLevelIsRejected()
    ensures !ValidFilter(Path([WRONG, FILTER_HASH]))
    ensures !ValidFilter(Path([WRON, PLUS_G]))
  {
    assert FILTER_HASH[6] == HASH;
    assert PLUS_G[0] == PLUS;
  }

  lemma PlusInsideLevelIsRejected()
    ensures !ValidFilter(Path([WR, O_PLUS, NG]))
    ensures !ValidFilter(Path([WR, PLUS_O_PLUS, NG]))
  {
    assert O_PLUS[1] == PLUS;
    assert PLUS_O_PLUS[0] == PLUS;
  }

  lemma DollarTopicsAreExcluded()
    ensures Matches(Path([SY_DOLLAR_TEM, METRICS]), Path([SY_DOLLAR_TEM, [PLUS]]))
    ensures !Matches(Path([DOLLAR_SYSTEM, METRICS]), Path([DOLLAR_SYSTEM, [PLUS]]))
    ensures !Matches(Path([DOLLAR_SYSTEM, METRICS]), Path([[PLUS], [PLUS]]))
    ensures !Matches(Path([DOLLAR_SYSTEM, METRICS]), Path([DOLLAR_SYSTEM, METRICS]))
  {
  }

  /** On texts built from levels, `Matches` is the level walk. */
  lemma MatchesPath(ts: seq<Bytes>, fs: seq<Bytes>)
    requires |ts| >= 1 && |fs| >= 1
    requires forall i :: 0 <= i < |ts| ==> SLASH !in ts[i]
    requires forall i :: 0 <= i < |fs| ==> SLASH !in fs[i]
    requires |ts[0]| > 0 && ts[0][0] != DOLLAR
    ensures Matches(Path(ts), Path(fs)) == MatchLevels(ts, fs)
  {
    MatchLevelsCovers(ts, fs);
  }

  lemma TopicsMatchFilters()
    ensures Matches(Path([A, B, C]), Path([A, B, C]))
    ensures Matches(Path([A, B, C]), [HASH])
    ensures Matches(Path([A, B, C]), Path([A, B, C, [HASH]]))
    ensures Matches(Path([A, B, C, D]), Path([A, B, C, [HASH]]))
    ensures Matches(Path([A, B, C, D, E, F]), Path([A, B, C, [HASH]]))
  {
    HashMatchesAll(Path([A, B, C]));
    MatchesItself(Path([A, B, C]));
    MatchesPath([A, B, C], [A, B, C, [HASH]]);
    MatchesPath([A, B, C, D], [A, B, C, [HASH]]);
    MatchesPath([A, B, C, D, E, F], [A, B, C, [HASH]]);
  }

  lemma PlusMatchesOneLevel()
    ensures Matches(Path([A, B, C]), Path([A, [PLUS], C]))
    ensures Matches(Path([A, B, C, D, E]), Path([A, [PLUS], C, [PLUS], E]))
    ensures !Matches(Path([A, B]), Path([A, B, [PLUS]]))
  {
    MatchesPath([A, B, C], [A, [PLUS], C]);
    MatchesPath([A, B, C, D, E], [A, [PLUS], C, [PLUS], E]);
    MatchesPath([A, B], [A, B, [PLUS]]);
  }

  lemma TopicsMissFilters()
    ensures !Matches(Path([A, B, C]), Path([D, B, C]))
    ensures !Matches(Path([A, B, C]), Path([A, B, E]))
    ensures !Matches(Path([A, B, C]), Path([A, B, C, D]))
    ensures !Matches(Path([A, B, C, D]), Path([A, B, C]))
  {
    MatchesPath([A, B, C], [D, B, C]);
    MatchesPath([A, B, C], [A, B, E]);
    assert !MatchLevels([C], [E]);
    assert !MatchLevels([B, C], [B, E]);
    MatchesPath([A, B, C], [A, B, C, D]);
    MatchesPath([A, B, C, D], [A, B, C]);
  }

  lemma FiltersSubsumeFilters()
    ensures Matches(Path([A, B, [PLUS]]), Path([A, B, [HASH]]))
    ensures !Matches(Path([A, B, [HASH]]), Path([A, B, [PLUS]]))
    ensures Matches(Path([A, B, [PLUS]]), [HASH])
    ensures Matches(Path([A, [PLUS], C, D]), Path([A, [PLUS], [PLUS], D]))
    ensures !Matches(Path([A, [PLUS], [PLUS], D]), Path([A, [PLUS], C, D]))
  {
    HashMatchesAll(Path([A, B, [PLUS]]));
    MatchesPath([A, B, [PLUS]], [A, B, [HASH]]);
    MatchesPath([A, B, [HASH]], [A, B, [PLUS]]);
    MatchesPath([A, [PLUS], C, D], [A, [PLUS], [PLUS], D]);
    MatchesPath([A, [PLUS], [PLUS], D], [A, [PLUS], C, D]);
    assert !MatchLevels([[PLUS], D], [C, D]);
    assert !MatchLevels([[PLUS], [PLUS], D], [[PLUS], C, D]);
  }
}
