/** Byte strings and the '/'-separated levels of a topic or filter.

    Topic names and filters are UTF-8 text. Every character the topic rules look
    at ('/', '+', '#', '$' and NUL) is ASCII, and an ASCII byte never occurs inside
    a multibyte UTF-8 sequence, so splitting and searching byte by byte gives the
    same answer as doing it character by character. */
module Segments {

  type Byte = b: int | 0 <= b < 0x100
  type Bytes = seq<Byte>

  const SLASH: Byte := 0x2F

  /** Index of the first '/' in `s`, or |s| when there is none. */
  function FirstSlash(s: Bytes): (e: nat)
    ensures e <= |s|
    ensures e < |s| ==> s[e] == SLASH
    ensures forall k :: 0 <= k < e ==> s[k] != SLASH
  {
    if s == [] || s[0] == SLASH then 0 else 1 + FirstSlash(s[1..])
  }

  /** The first '/' is the only index that has no '/' before it and is a '/' or the end. */
  lemma FirstSlashUnique(s: Bytes, e: nat)
    requires e <= |s|
    requires e < |s| ==> s[e] == SLASH
    requires forall k :: 0 <= k < e ==> s[k] != SLASH
    ensures FirstSlash(s) == e
  {
  }

  /** The levels of `s`, as Rust's `str::split('/')` yields them: one level per '/'
      plus one, each possibly empty, none containing '/'. */
  function Split(s: Bytes): (levels: seq<Bytes>)
    ensures |levels| >= 1
    ensures forall i :: 0 <= i < |levels| ==> SLASH !in levels[i]
    decreases |s|
  {
    var e := FirstSlash(s);
    if e == |s| then [s] else [s[..e]] + Split(s[e + 1..])
  }

  /** The levels put back together with '/' between them. */
  function Join(levels: seq<Bytes>): (s: Bytes)
    requires |levels| >= 1
    ensures |s| >= |levels| - 1
    ensures levels[0] <= s
    decreases |levels|
  {
    if |levels| == 1 then levels[0] else levels[0] + [SLASH] + Join(levels[1..])
  }

  /** Splitting loses nothing: joining the levels again gives back the text. */
  lemma {:induction false} JoinSplit(s: Bytes)
    ensures Join(Split(s)) == s
    decreases |s|
  {
    var e := FirstSlash(s);
    if e < |s| {
      JoinSplit(s[e + 1..]);
      assert s == s[..e] + [SLASH] + s[e + 1..];
    }
  }

  /** Splitting at a '/' splits the levels there. */
  lemma {:induction false} SplitAppend(a: Bytes, b: Bytes)
    ensures Split(a + [SLASH] + b) == Split(a) + Split(b)
    decreases |a|
  {
    var s := a + [SLASH] + b;
    var e := FirstSlash(a);
    if e == |a| {
      assert s[..e] == a;
      FirstSlashUnique(s, e);
      assert s[e + 1..] == b;
    } else {
      assert s[..e] == a[..e];
      FirstSlashUnique(s, e);
      assert s[e + 1..] == a[e + 1..] + [SLASH] + b;
      SplitAppend(a[e + 1..], b);
    }
  }

  /** A text without '/' is a single level. */
  lemma SplitNoSlash(a: Bytes)
    requires SLASH !in a
    ensures Split(a) == [a]
  {
    FirstSlashUnique(a, |a|);
  }

  /** Joining '/'-free levels and splitting again gives back the same levels. */
  lemma {:induction false} SplitJoin(levels: seq<Bytes>)
    requires |levels| >= 1
    requires forall i :: 0 <= i < |levels| ==> SLASH !in levels[i]
    ensures Split(Join(levels)) == levels
    decreases |levels|
  {
    SplitNoSlash(levels[0]);
    if |levels| > 1 {
      var tail := levels[1..];
      SplitJoin(tail);
      assert Join(levels) == levels[0] + [SLASH] + Join(tail);
      SplitAppend(levels[0], Join(tail));
      assert levels == [levels[0]] + tail;
    }
  }

  /** The levels from `pos` on, when the first '/' from `pos` on is at `e`. */
  lemma SplitAt(s: Bytes, pos: nat, e: nat)
    requires pos <= e <= |s|
    requires e < |s| ==> s[e] == SLASH
    requires forall k :: pos <= k < e ==> s[k] != SLASH
    ensures e == |s| ==> Split(s[pos..]) == [s[pos..e]]
    ensures e < |s| ==> Split(s[pos..]) == [s[pos..e]] + Split(s[e + 1..])
  {
    var rest := s[pos..];
    FirstSlashUnique(rest, e - pos);
    assert rest[..e - pos] == s[pos..e];
    if e < |s| {
      assert rest[e - pos + 1..] == s[e + 1..];
    } else {
      assert rest == s[pos..e];
    }
  }

  /** Every byte of a level is a byte of the joined text. */
  lemma {:induction false} InLevelInJoin(levels: seq<Bytes>, i: nat, b: Byte)
    requires |levels| >= 1 && i < |levels|
    requires b in levels[i]
    ensures b in Join(levels)
    decreases |levels|
  {
    if i > 0 {
      InLevelInJoin(levels[1..], i - 1, b);
    }
  }

  /** Every byte of a level of `s` is a byte of `s`. */
  lemma InLevelInText(s: Bytes, i: nat, b: Byte)
    requires i < |Split(s)|
    requires b in Split(s)[i]
    ensures b in s
  {
    JoinSplit(s);
    InLevelInJoin(Split(s), i, b);
  }

  /** A byte that is in no level of the joined text is in none of the text. */
  lemma {:induction false} NotInLevelsNotInJoin(levels: seq<Bytes>, b: Byte)
    requires |levels| >= 1
    requires b != SLASH
    requires forall i :: 0 <= i < |levels| ==> b !in levels[i]
    ensures b !in Join(levels)
    decreases |levels|
  {
    if |levels| > 1 {
      NotInLevelsNotInJoin(levels[1..], b);
    }
  }

  /** A cursor over the levels of `text`: the state of Rust's `Split<'_, char>`
      iterator. `pos` is where the next level starts; once the last level has been
      handed out it is |text| + 1. */
  class SegmentIter {
    const text: Bytes
    var pos: nat

    ghost predicate Valid()
      reads this
    {
      pos <= |text| + 1
    }

    /** The levels still to come. */
    ghost function Remaining(): seq<Bytes>
      reads this
      requires Valid()
    {
      if pos <= |text| then Split(text[pos..]) else []
    }

    constructor (s: Bytes)
      ensures Valid() && text == s
      ensures Remaining() == Split(s)
    {
      text := s;
      pos := 0;
      assert s[0..] == s;
    }

    /** Hands out the next level, or None once every level has been handed out. */
    method Next() returns (level: Option<Bytes>)
      requires Valid()
      modifies this
      ensures Valid()
      ensures old(Remaining()) == [] ==> level == None && Remaining() == []
      ensures old(Remaining()) != [] ==>
                level == Some(old(Remaining())[0]) && Remaining() == old(Remaining())[1..]
    {
      if pos > |text| {
        return None;
      }
      var e := pos;
      while e < |text| && text[e] != SLASH
        invariant pos <= e <= |text|
        invariant forall k :: pos <= k < e ==> text[k] != SLASH
      {
        e := e + 1;
      }
      SplitAt(text, pos, e);
      level := Some(text[pos..e]);
      pos := e + 1;
    }
  }

  datatype Option<T> = None | Some(value: T)
}
