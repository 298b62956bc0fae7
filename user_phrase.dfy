/**
 * The learner's phrase progress (`src/queries/user-phrase.ts`): the mastery
 * classifier over the number of correct answers, the lookup of one phrase in
 * the cached list, the optimistic upsert written to the cache before the
 * server answers, and the cache update written once it has.
 *
 * The query cache entry is an `Option<seq<UserPhrase>>`: `None` stands for
 * both `undefined` (never fetched) and `null` (no signed-in user); each cache
 * write is modelled as the function returning the new entry.
 */
module UserPhrases {
  import opened Wrappers

  datatype MasteryLevel = New | Familiar | Confident | Mastered

  /** `MasteryLevelBreakpoints`: the largest count of correct answers of each level (the lower bound for `Mastered`). */
  function Breakpoint(level: MasteryLevel): int {
    match level
    case New => 2
    case Familiar => 7
    case Confident => 14
    case Mastered => 15
  }

  /** The order of the levels. */
  function Rank(level: MasteryLevel): nat {
    match level
    case New => 0
    case Familiar => 1
    case Confident => 2
    case Mastered => 3
  }

  /**
   * `masteryLevelForTimesCorrect`: up to 2 correct answers is `New`, 3 to 7
   * `Familiar`, 8 to 14 `Confident`, and 15 or more `Mastered`.
   */
  function MasteryLevelForTimesCorrect(timesCorrect: int): (level: MasteryLevel)
    ensures level == New <==> timesCorrect <= 2
    ensures level == Familiar <==> 3 <= timesCorrect <= 7
    ensures level == Confident <==> 8 <= timesCorrect <= 14
    ensures level == Mastered <==> 15 <= timesCorrect
  {
    if timesCorrect <= Breakpoint(New) then New
    else if timesCorrect <= Breakpoint(Familiar) then Familiar
    else if timesCorrect <= Breakpoint(Confident) then Confident
    else Mastered
  }

  /** More correct answers never give a lower level. */
  lemma MasteryMonotone(a: int, b: int)
    requires a <= b
    ensures Rank(MasteryLevelForTimesCorrect(a)) <= Rank(MasteryLevelForTimesCorrect(b))
  {
  }

  /** The level's breakpoint bounds the count from above, and the previous level's from below (the breakpoint itself for `Mastered`). */
  lemma MasteryWithinBreakpoints(timesCorrect: int)
    ensures var level := MasteryLevelForTimesCorrect(timesCorrect);
      && (level != Mastered ==> timesCorrect <= Breakpoint(level))
      && (level == Mastered ==> timesCorrect >= Breakpoint(level))
      && (level == Familiar ==> timesCorrect > Breakpoint(New))
      && (level == Confident ==> timesCorrect > Breakpoint(Familiar))
  {
  }

  /** One row of `user_phrases`. */
  datatype UserPhrase = UserPhrase(
    userId: string,
    phraseText: string,
    starred: bool,
    timesSeen: int,
    timesCorrect: int,
    timesIncorrect: int,
    lastSeen: Option<string>,
    masteryLevel: MasteryLevel,
    createdAt: string)

  /**
   * The argument of the create-or-update mutation: the phrase text and the
   * fields it sets (`None` for a field it does not name).
   */
  datatype PhraseUpdate = PhraseUpdate(
    phraseText: string,
    starred: Option<bool>,
    timesSeen: Option<int>,
    timesCorrect: Option<int>,
    timesIncorrect: Option<int>,
    lastSeen: Option<string>,
    masteryLevel: Option<MasteryLevel>)

  /** `phrases.find(p => p.phrase_text === phraseText)`: the first row with that text. */
  function Find(phrases: seq<UserPhrase>, phraseText: string): (r: Option<UserPhrase>)
    ensures r.Some? ==> exists i :: 0 <= i < |phrases| && phrases[i] == r.value
    ensures r.Some? ==> r.value.phraseText == phraseText
    ensures r.None? <==> forall i :: 0 <= i < |phrases| ==> phrases[i].phraseText != phraseText
  {
    if phrases == [] then None
    else if phrases[0].phraseText == phraseText then Some(phrases[0])
    else
      var r := Find(phrases[1..], phraseText);
      assert forall i :: 1 <= i < |phrases| ==> phrases[i] == phrases[1..][i - 1];
      r
  }

  /** `Find` returns the earliest row with the text: no row before it has that text. */
  lemma {:induction false} FindFirst(phrases: seq<UserPhrase>, phraseText: string)
    requires Find(phrases, phraseText).Some?
    ensures exists i :: 0 <= i < |phrases| && phrases[i] == Find(phrases, phraseText).value &&
                        (forall j :: 0 <= j < i ==> phrases[j].phraseText != phraseText)
  {
    if phrases[0].phraseText != phraseText {
      var rest := phrases[1..];
      FindFirst(rest, phraseText);
      var i :| 0 <= i < |rest| && rest[i] == Find(rest, phraseText).value &&
        forall j :: 0 <= j < i ==> rest[j].phraseText != phraseText;
      assert phrases[i + 1] == rest[i];
      forall j | 0 <= j < i + 1
        ensures phrases[j].phraseText != phraseText
      {
        if j > 0 {
          assert phrases[j] == rest[j - 1];
        }
      }
    }
  }

  /** `useUserPhrase`: the cached row for the phrase text, if the list is cached and holds one. */
  function UseUserPhrase(cache: Option<seq<UserPhrase>>, phraseText: string): (r: Option<UserPhrase>)
    ensures cache.None? ==> r.None?
    ensures cache.Some? ==> r == Find(cache.value, phraseText)
  {
    match cache
    case None => None
    case Some(phrases) => Find(phrases, phraseText)
  }

  /** The cached list, or `[]` when nothing is cached (`getQueryData(...) || []`). */
  function CachedOrEmpty(cache: Option<seq<UserPhrase>>): seq<UserPhrase> {
    match cache
    case None => []
    case Some(phrases) => phrases
  }

  /** The row assumed for a phrase the learner has never seen. */
  function DefaultPhrase(userId: string, phraseText: string, createdAt: string): UserPhrase {
    UserPhrase(userId, phraseText, false, 1, 0, 0, None, New, createdAt)
  }

  /** A field of the update when it names one, otherwise the current value. */
  function Override<T>(current: T, update: Option<T>): T {
    match update
    case None => current
    case Some(v) => v
  }

  /** `{...base, ...update}`: every field the update names replaces the base row's. */
  function ApplyUpdate(base: UserPhrase, u: PhraseUpdate): UserPhrase {
    UserPhrase(
      base.userId,
      u.phraseText,
      Override(base.starred, u.starred),
      Override(base.timesSeen, u.timesSeen),
      Override(base.timesCorrect, u.timesCorrect),
      Override(base.timesIncorrect, u.timesIncorrect),
      if u.lastSeen.Some? then u.lastSeen else base.lastSeen,
      Override(base.masteryLevel, u.masteryLevel),
      base.createdAt)
  }

  /** The optimistic row: the cached row for the text, or the defaults, overridden by the update. */
  function OptimisticPhrase(previous: seq<UserPhrase>, u: PhraseUpdate, userId: string, createdAt: string): UserPhrase {
    var base := match Find(previous, u.phraseText)
      case Some(existing) => existing
      case None => DefaultPhrase(userId, u.phraseText, createdAt);
    ApplyUpdate(base, u)
  }

  /**
   * Field by field, the optimistic row holds what the update names and
   * otherwise the cached row's value; for a phrase not in the cache the
   * defaults are unstarred, seen once, no answers, no last-seen time, `New`.
   */
  lemma OptimisticFields(previous: seq<UserPhrase>, u: PhraseUpdate, userId: string, createdAt: string)
    ensures var p, found := OptimisticPhrase(previous, u, userId, createdAt), Find(previous, u.phraseText);
      && p.phraseText == u.phraseText
      && (found.Some? ==>
            && p.userId == found.value.userId && p.createdAt == found.value.createdAt
            && p.starred == Override(found.value.starred, u.starred)
            && p.timesSeen == Override(found.value.timesSeen, u.timesSeen)
            && p.timesCorrect == Override(found.value.timesCorrect, u.timesCorrect)
            && p.timesIncorrect == Override(found.value.timesIncorrect, u.timesIncorrect)
            && p.lastSeen == (if u.lastSeen.Some? then u.lastSeen else found.value.lastSeen)
            && p.masteryLevel == Override(found.value.masteryLevel, u.masteryLevel))
      && (found.None? ==>
            && p.userId == userId && p.createdAt == createdAt
            && p.starred == Override(false, u.starred)
            && p.timesSeen == Override(1, u.timesSeen)
            && p.timesCorrect == Override(0, u.timesCorrect)
            && p.timesIncorrect == Override(0, u.timesIncorrect)
            && p.lastSeen == u.lastSeen
            && p.masteryLevel == Override(New, u.masteryLevel))
  {
  }

  /** `phrases.filter(p => p.phrase_text !== phraseText)`. */
  function Without(phrases: seq<UserPhrase>, phraseText: string): (r: seq<UserPhrase>)
    ensures |r| <= |phrases|
  {
    if phrases == [] then []
    else (if phrases[0].phraseText != phraseText then [phrases[0]] else []) + Without(phrases[1..], phraseText)
  }

  /** The filter keeps exactly the rows with another text: none of the text is left, and every other row is. */
  lemma {:induction false} WithoutSpec(phrases: seq<UserPhrase>, phraseText: string)
    decreases |phrases|
    ensures forall p :: p in Without(phrases, phraseText) <==> p in phrases && p.phraseText != phraseText
  {
    if phrases != [] {
      WithoutSpec(phrases[1..], phraseText);
      assert phrases == [phrases[0]] + phrases[1..];
    }
  }

  /** Rows without the text pass through the filter untouched and in order: filtering a list that lacks the text changes nothing. */
  lemma {:induction false} WithoutAbsent(phrases: seq<UserPhrase>, phraseText: string)
    requires forall i :: 0 <= i < |phrases| ==> phrases[i].phraseText != phraseText
    decreases |phrases|
    ensures Without(phrases, phraseText) == phrases
  {
    if phrases != [] {
      WithoutAbsent(phrases[1..], phraseText);
      assert phrases == [phrases[0]] + phrases[1..];
    }
  }

  /** Filtering distributes over concatenation, so the relative order of the kept rows is that of the list. */
  lemma {:induction false} WithoutConcat(a: seq<UserPhrase>, b: seq<UserPhrase>, phraseText: string)
    decreases |a|
    ensures Without(a + b, phraseText) == Without(a, phraseText) + Without(b, phraseText)
  {
    if a == [] {
      assert a + b == b;
    } else {
      assert (a + b)[0] == a[0];
      assert (a + b)[1..] == a[1..] + b;
      WithoutConcat(a[1..], b, phraseText);
    }
  }

  /** What `onMutate` writes to the cache, and the snapshot it keeps for the rollback. */
  datatype Mutation = Mutation(cache: seq<UserPhrase>, previousPhrases: seq<UserPhrase>)

  /**
   * `onMutate`: snapshot the cached list, then replace every row with the
   * phrase text by one optimistic row placed at the end. `userId` and
   * `createdAt` stand for `user!.id` and the current time as an ISO string.
   */
  function OnMutate(cache: Option<seq<UserPhrase>>, u: PhraseUpdate, userId: string, createdAt: string): (r: Mutation)
    ensures r.previousPhrases == CachedOrEmpty(cache)
    ensures |r.cache| > 0 && r.cache[|r.cache| - 1] == OptimisticPhrase(r.previousPhrases, u, userId, createdAt)
    ensures r.cache[..|r.cache| - 1] == Without(r.previousPhrases, u.phraseText)
  {
    var previousPhrases := CachedOrEmpty(cache);
    var optimistic := OptimisticPhrase(previousPhrases, u, userId, createdAt);
    var filtered := Without(previousPhrases, u.phraseText);
    assert (filtered + [optimistic])[..|filtered|] == filtered;
    Mutation(filtered + [optimistic], previousPhrases)
  }

  /**
   * After the optimistic update exactly one cached row has the phrase text,
   * it is the last one, and it is the cached row (or the defaults) overridden
   * by the update; every other cached row is kept.
   */
  lemma OptimisticUpsert(cache: Option<seq<UserPhrase>>, u: PhraseUpdate, userId: string, createdAt: string)
    ensures var r := OnMutate(cache, u, userId, createdAt);
      var last := |r.cache| - 1;
      && (forall i :: 0 <= i < |r.cache| ==> (r.cache[i].phraseText == u.phraseText <==> i == last))
      && (forall p :: p in CachedOrEmpty(cache) && p.phraseText != u.phraseText ==> p in r.cache)
      && (Find(CachedOrEmpty(cache), u.phraseText).Some? ==>
            r.cache[last] == ApplyUpdate(Find(CachedOrEmpty(cache), u.phraseText).value, u))
      && (Find(CachedOrEmpty(cache), u.phraseText).None? ==>
            r.cache[last] == ApplyUpdate(DefaultPhrase(userId, u.phraseText, createdAt), u))
  {
    var r := OnMutate(cache, u, userId, createdAt);
    var last := |r.cache| - 1;
    var filtered := Without(CachedOrEmpty(cache), u.phraseText);
    WithoutSpec(CachedOrEmpty(cache), u.phraseText);
    assert r.cache == filtered + [r.cache[last]];
    forall i | 0 <= i < last
      ensures r.cache[i].phraseText != u.phraseText
    {
      assert r.cache[i] == filtered[i] && filtered[i] in filtered;
    }
    forall p | p in CachedOrEmpty(cache) && p.phraseText != u.phraseText
      ensures p in r.cache
    {
      assert p in filtered;
      var k :| 0 <= k < |filtered| && filtered[k] == p;
      assert r.cache[k] == p;
    }
  }

  /**
   * `onError`: the cache entry is set back to the snapshot `onMutate` kept.
   * The snapshot is an array, and even an empty one is truthy, so the
   * rollback always happens.
   */
  function OnError(context: Mutation): (r: Option<seq<UserPhrase>>)
    ensures r.Some?
  {
    Some(context.previousPhrases)
  }

  /**
   * A failed mutation puts back the list that was cached before it; a cache
   * that held nothing comes back as the empty list.
   */
  lemma RollbackRestores(cache: Option<seq<UserPhrase>>, u: PhraseUpdate, userId: string, createdAt: string)
    ensures cache.Some? ==> OnError(OnMutate(cache, u, userId, createdAt)) == cache
    ensures cache.None? ==> OnError(OnMutate(cache, u, userId, createdAt)) == Some([])
  {
  }

  /** `data.map(p => p.phrase_text === newData.phrase_text ? newData : p)`. */
  function ReplaceMatching(phrases: seq<UserPhrase>, newData: UserPhrase): (r: seq<UserPhrase>)
    ensures |r| == |phrases|
    ensures forall i :: 0 <= i < |phrases| ==>
              r[i] == if phrases[i].phraseText == newData.phraseText then newData else phrases[i]
  {
    seq(|phrases|, i requires 0 <= i < |phrases| =>
      if phrases[i].phraseText == newData.phraseText then newData else phrases[i])
  }

  /**
   * `updateCachedUserPhrase`: with no row from the server the cache is left
   * alone; otherwise every cached row with the row's text is replaced by it,
   * or, when there is none, it is appended to the cached list.
   */
  function UpdateCachedUserPhrase(cache: Option<seq<UserPhrase>>, newData: Option<UserPhrase>): (r: Option<seq<UserPhrase>>)
    ensures newData.None? ==> r == cache
    ensures newData.Some? ==> r.Some?
  {
    match newData
    case None => cache
    case Some(d) =>
      var existingPhrases := CachedOrEmpty(cache);
      if Find(existingPhrases, d.phraseText).Some? then Some(ReplaceMatching(existingPhrases, d))
      else Some(existingPhrases + [d])
  }

  /**
   * When the text is already cached the list keeps its length, every row
   * with the text becomes the server's row, and every other row stays where it is.
   */
  lemma UpdateExisting(cache: Option<seq<UserPhrase>>, d: UserPhrase)
    requires exists i :: 0 <= i < |CachedOrEmpty(cache)| && CachedOrEmpty(cache)[i].phraseText == d.phraseText
    ensures var old_ := CachedOrEmpty(cache);
      var r := UpdateCachedUserPhrase(cache, Some(d));
      && r.Some? && |r.value| == |old_|
      && (forall i :: 0 <= i < |old_| && old_[i].phraseText == d.phraseText ==> r.value[i] == d)
      && (forall i :: 0 <= i < |old_| && old_[i].phraseText != d.phraseText ==> r.value[i] == old_[i])
  {
  }

  /** When the text is not cached the server's row is appended and the earlier rows are unchanged. */
  lemma UpdateAbsent(cache: Option<seq<UserPhrase>>, d: UserPhrase)
    requires forall i :: 0 <= i < |CachedOrEmpty(cache)| ==> CachedOrEmpty(cache)[i].phraseText != d.phraseText
    ensures UpdateCachedUserPhrase(cache, Some(d)) == Some(CachedOrEmpty(cache) + [d])
  {
  }

  /**
   * A create-or-update as a whole: the optimistic write followed by the
   * server's row for the same text leaves the other cached rows in order with
   * the server's row last, and exactly one row with the text.
   */
  lemma MutateThenSucceed(cache: Option<seq<UserPhrase>>, u: PhraseUpdate, userId: string, createdAt: string, d: UserPhrase)
    requires d.phraseText == u.phraseText
    ensures var mutated := OnMutate(cache, u, userId, createdAt).cache;
      UpdateCachedUserPhrase(Some(mutated), Some(d)) == Some(Without(CachedOrEmpty(cache), u.phraseText) + [d])
  {
    var mutated := OnMutate(cache, u, userId, createdAt).cache;
    var filtered := Without(CachedOrEmpty(cache), u.phraseText);
    var last := |mutated| - 1;
    WithoutSpec(CachedOrEmpty(cache), u.phraseText);
    assert mutated == filtered + [mutated[last]];
    assert mutated[last].phraseText == d.phraseText;
    var r := ReplaceMatching(mutated, d);
    forall i | 0 <= i < |r|
      ensures r[i] == (filtered + [d])[i]
    {
      if i < last {
        assert mutated[i] == filtered[i] && filtered[i] in filtered;
      }
    }
    assert r == filtered + [d];
  }
}
