/**
 * The progress tracker: statistics over the saved turns. Each statistic is
 * specified by a fold over the turn sequence (`TotalWords`,
 * `CorrectionFreeCount`, `ErrorCounter`, `LearnedSet`, `Daily`), proved
 * against an independent description of what it counts, and computed by
 * a read-only method of `ProgressTracker` whose loop is proved equal to
 * the fold.
 */
module Analytics {
  import opened Text
  import opened TurnLog
  import opened Counting

  /** The correction the tutor writes when there is nothing to correct. */
  const WellDone: string := "None - well done!"

  // ---------------------------------------------------------------------
  // Word totals

  /** Whose words are counted: the user's (`"user"`) or the tutor's
      conversational reply (`"ai_response"`). */
  datatype Speaker = UserSide | TutorSide

  function SpokenText(t: Turn, who: Speaker): string {
    match who
    case UserSide => t.user
    case TutorSide => t.aiResponse
  }

  /** The sum over the turns of `len(text.split())`. */
  function TotalWords(ts: seq<Turn>, who: Speaker): nat
    decreases |ts|
  {
    if ts == [] then 0
    else TotalWords(ts[..|ts| - 1], who) + WordCount(SpokenText(ts[|ts| - 1], who))
  }

  /** Word totals add up over concatenated logs. */
  lemma {:induction false} TotalWordsAppend(a: seq<Turn>, b: seq<Turn>, who: Speaker)
    ensures TotalWords(a + b, who) == TotalWords(a, who) + TotalWords(b, who)
    decreases |b|
  {
    if b == [] {
      assert a + b == a;
    } else {
      assert (a + b)[..|a + b| - 1] == a + b[..|b| - 1];
      TotalWordsAppend(a, b[..|b| - 1], who);
    }
  }

  /** Reference count: the number of maximal non-whitespace runs in each
      turn's text, summed from the front. */
  function RunTotal(ts: seq<Turn>, who: Speaker): nat {
    if ts == [] then 0 else RunStarts(SpokenText(ts[0], who), true) + RunTotal(ts[1..], who)
  }

  /** The word total is the number of maximal non-whitespace runs over all
      turns. */
  lemma {:induction false} TotalWordsCountsRuns(ts: seq<Turn>, who: Speaker)
    ensures TotalWords(ts, who) == RunTotal(ts, who)
  {
    if ts != [] {
      assert ts == [ts[0]] + ts[1..];
      TotalWordsAppend([ts[0]], ts[1..], who);
      assert [ts[0]][..0] == [];
      WordCountIsRunCount(SpokenText(ts[0], who));
      TotalWordsCountsRuns(ts[1..], who);
    }
  }

  // ---------------------------------------------------------------------
  // Correction-free turns

  /** A turn without corrections: the list is missing or empty, or it is
      exactly the single "well done" entry. */
  predicate CorrectionFree(t: Turn) {
    t.corrections == [] || t.corrections == [WellDone]
  }

  function CorrectionFreeCount(ts: seq<Turn>): nat
    decreases |ts|
  {
    if ts == [] then 0
    else CorrectionFreeCount(ts[..|ts| - 1]) + (if CorrectionFree(ts[|ts| - 1]) then 1 else 0)
  }

  /** The positions of the correction-free turns. */
  function CorrectionFreeAt(ts: seq<Turn>): set<nat> {
    set i: nat | i < |ts| && CorrectionFree(ts[i])
  }

  /** The count is the number of correction-free turns, so it never
      exceeds the number of turns. */
  lemma {:induction false} CorrectionFreeCountIsExact(ts: seq<Turn>)
    ensures CorrectionFreeCount(ts) == |CorrectionFreeAt(ts)|
    ensures CorrectionFreeCount(ts) <= |ts|
    decreases |ts|
  {
    if ts != [] {
      var n := |ts| - 1;
      var init := ts[..n];
      CorrectionFreeCountIsExact(init);
      var before := CorrectionFreeAt(init);
      assert forall i: nat :: i < n ==> ts[i] == init[i];
      if CorrectionFree(ts[n]) {
        assert CorrectionFreeAt(ts) == before + {n};
        assert n !in before;
      } else {
        assert CorrectionFreeAt(ts) == before;
      }
    }
  }

  // ---------------------------------------------------------------------
  // Recurring errors

  /** A correction is counted unless it is blank after stripping or is the
      "well done" entry; it is counted as written, unstripped. */
  predicate Counted(c: string) {
    Strip(c) != [] && c != WellDone
  }

  /** Every turn's corrections, in order. */
  function AllCorrections(ts: seq<Turn>): seq<string>
    decreases |ts|
  {
    if ts == [] then [] else AllCorrections(ts[..|ts| - 1]) + ts[|ts| - 1].corrections
  }

  /** The counter after counting `cs`, skipping what is not counted. */
  function TallyErrors(cs: seq<string>): (k: Counter)
    ensures ValidCounter(k)
    decreases |cs|
  {
    if cs == [] then EmptyCounter
    else
      var before := TallyErrors(cs[..|cs| - 1]);
      if Counted(cs[|cs| - 1]) then Add(before, cs[|cs| - 1]) else before
  }

  lemma TallySnoc(cs: seq<string>, c: string)
    ensures TallyErrors(cs + [c]) == if Counted(c) then Add(TallyErrors(cs), c) else TallyErrors(cs)
  {
    assert (cs + [c])[..|cs|] == cs;
  }

  /** The counter holds, for each counted string, its number of
      occurrences, and its keys are exactly the counted strings that occur. */
  lemma {:induction false} TallyCounts(cs: seq<string>)
    ensures forall c :: CountOf(TallyErrors(cs), c) == if Counted(c) then multiset(cs)[c] else 0
    ensures forall c :: c in TallyErrors(cs).keys <==> Counted(c) && c in cs
    decreases |cs|
  {
    if cs != [] {
      var init := cs[..|cs| - 1];
      var last := cs[|cs| - 1];
      TallyCounts(init);
      assert cs == init + [last];
      assert multiset(cs) == multiset(init) + multiset{last};
      var k := TallyErrors(cs);
      forall c ensures c in k.keys <==> Counted(c) && c in cs {
        assert c in cs <==> c in init || c == last;
        assert c in k.keys <==> c in k.counts;
        assert c in TallyErrors(init).keys <==> c in TallyErrors(init).counts;
      }
    }
  }

  /** Keys appear in the order in which they were first counted: counting
      more corrections only adds keys at the end. */
  lemma {:induction false} TallyFirstSeen(cs: seq<string>, more: seq<string>)
    ensures TallyErrors(cs).keys <= TallyErrors(cs + more).keys
    decreases |more|
  {
    if more == [] {
      assert cs + more == cs;
    } else {
      var init := more[..|more| - 1];
      TallyFirstSeen(cs, init);
      assert cs + more == (cs + init) + [more[|more| - 1]];
      TallySnoc(cs + init, more[|more| - 1]);
    }
  }

  function ErrorCounter(ts: seq<Turn>): Counter {
    TallyErrors(AllCorrections(ts))
  }

  /** `get_recurring_errors(top_n)`. */
  function RecurringErrors(ts: seq<Turn>, topN: int): seq<Entry> {
    MostCommon(Entries(ErrorCounter(ts)), topN)
  }

  /** The entries of a counter built by `TallyErrors` carry counted
      strings and their exact numbers of occurrences. */
  lemma EntryIsOccurrenceCount(cs: seq<string>, e: Entry)
    requires e in Entries(TallyErrors(cs))
    ensures Counted(e.text) && e.count >= 1 && e.count == multiset(cs)[e.text]
  {
    var k := TallyErrors(cs);
    var i :| 0 <= i < |Entries(k)| && Entries(k)[i] == e;
    assert e.text == k.keys[i];
    TallyCounts(cs);
  }

  /** At most `top_n` pairs (none when `top_n <= 0`), each naming a
      counted correction with its exact number of occurrences (at least
      one). The ordering facts are those of `MostCommon` (see
      `MostCommonIsTop`, `TopIsLargest` and `MostCommonStable`). */
  lemma RecurringErrorsFacts(ts: seq<Turn>, topN: int)
    ensures var r := RecurringErrors(ts, topN);
            var entries := Entries(ErrorCounter(ts));
            && |r| == (if topN <= 0 then 0 else if topN < |entries| then topN else |entries|)
            && (forall i :: 0 <= i < |r| ==>
                  Counted(r[i].text) && r[i].count >= 1 &&
                  r[i].count == multiset(AllCorrections(ts))[r[i].text])
  {
    var r := RecurringErrors(ts, topN);
    var entries := Entries(ErrorCounter(ts));
    MostCommonIsTop(entries, topN);
    forall i | 0 <= i < |r|
      ensures Counted(r[i].text) && r[i].count >= 1
      ensures r[i].count == multiset(AllCorrections(ts))[r[i].text]
    {
      assert r[i] in multiset(r);
      assert r[i] in multiset(entries);
      EntryIsOccurrenceCount(AllCorrections(ts), r[i]);
    }
  }

  /** The inner loop of `get_recurring_errors`: count the corrections of
      one turn, skipping blank ones and the "well done" entry. */
  method CountCorrections(counter: Counter, seen: seq<string>, corrections: seq<string>)
    returns (r: Counter)
    requires counter == TallyErrors(seen)
    ensures r == TallyErrors(seen + corrections)
  {
    r := counter;
    assert seen + corrections[..0] == seen;
    for j := 0 to |corrections|
      invariant r == TallyErrors(seen + corrections[..j])
    {
      var correction := corrections[j];
      assert seen + corrections[..j + 1] == (seen + corrections[..j]) + [correction];
      TallySnoc(seen + corrections[..j], correction);
      if Strip(correction) != [] && correction != WellDone {
        r := Add(r, correction);
      }
    }
    assert corrections[..|corrections|] == corrections;
  }

  // ---------------------------------------------------------------------
  // Vocabulary and grammar tips

  /** Which learned list is collected: `"vocabulary"` or `"grammar_tips"`. */
  datatype Learned = VocabularyItems | GrammarTipItems

  function LearnedList(t: Turn, which: Learned): seq<string> {
    match which
    case VocabularyItems => t.vocabulary
    case GrammarTipItems => t.grammarTips
  }

  /** The entries of one list that are not blank after stripping, as
      written. */
  function NonBlankEntries(xs: seq<string>): set<string> {
    set x | x in xs && Strip(x) != []
  }

  lemma NonBlankSnoc(xs: seq<string>, x: string)
    ensures NonBlankEntries(xs + [x]) == NonBlankEntries(xs) + (if Strip(x) != [] then {x} else {})
  {
  }

  function LearnedSet(ts: seq<Turn>, which: Learned): set<string>
    decreases |ts|
  {
    if ts == [] then {}
    else LearnedSet(ts[..|ts| - 1], which) + NonBlankEntries(LearnedList(ts[|ts| - 1], which))
  }

  /** A string is collected exactly when it is not blank after stripping
      and some turn lists it, as written. */
  lemma {:induction false} LearnedSetMembers(ts: seq<Turn>, which: Learned, x: string)
    ensures x in LearnedSet(ts, which) <==>
              Strip(x) != [] && exists i :: 0 <= i < |ts| && x in LearnedList(ts[i], which)
    decreases |ts|
  {
    if ts != [] {
      var n := |ts| - 1;
      var init := ts[..n];
      LearnedSetMembers(init, which, x);
      assert forall i :: 0 <= i < n ==> init[i] == ts[i];
      if x in LearnedSet(ts, which) && x !in LearnedSet(init, which) {
        assert x in LearnedList(ts[n], which);
      }
    }
  }

  /** The inner loop of the collectors: add each entry that is not blank
      after stripping, as written. */
  method AddNonBlank(learned: set<string>, items: seq<string>) returns (r: set<string>)
    ensures r == learned + NonBlankEntries(items)
  {
    r := learned;
    for j := 0 to |items|
      invariant r == learned + NonBlankEntries(items[..j])
    {
      assert items[..j + 1] == items[..j] + [items[j]];
      NonBlankSnoc(items[..j], items[j]);
      if Strip(items[j]) != [] {
        r := r + {items[j]};
      }
    }
    assert items[..|items|] == items;
  }

  // ---------------------------------------------------------------------
  // Daily progress

  /** One day's bucket: how many turns, and how many user words. */
  datatype DayStats = DayStats(turns: nat, words: nat)

  /** The date part of a timestamp: everything before its first `T`. */
  function DateOf(timestamp: string): (d: string)
    ensures d <= timestamp && 'T' !in d
    ensures |d| < |timestamp| ==> timestamp[|d|] == 'T'
  {
    if timestamp == [] || timestamp[0] == 'T' then []
    else
      assert timestamp == [timestamp[0]] + timestamp[1..];
      [timestamp[0]] + DateOf(timestamp[1..])
  }

  /** `DateOf` is `timestamp.split("T")[0]`. */
  lemma {:induction false} DateOfIsFirstPiece(timestamp: string)
    ensures DateOf(timestamp) == SplitOn(timestamp, 'T')[0]
  {
    if timestamp != [] && timestamp[0] != 'T' {
      DateOfIsFirstPiece(timestamp[1..]);
    }
  }

  /** Turns without a timestamp are skipped. */
  predicate Timestamped(t: Turn) {
    t.timestamp != []
  }

  /** What one turn does to the bucket map: a turn without a timestamp
      changes nothing, any other adds one turn and its user words to the
      bucket of its date, opened empty if needed. */
  function CountDay(m: map<string, DayStats>, t: Turn): map<string, DayStats> {
    if !Timestamped(t) then m
    else
      var d := DateOf(t.timestamp);
      var was := if d in m then m[d] else DayStats(0, 0);
      m[d := DayStats(was.turns + 1, was.words + WordCount(t.user))]
  }

  /** The bucket map after the turns `ts`. */
  function Daily(ts: seq<Turn>): map<string, DayStats>
    decreases |ts|
  {
    if ts == [] then map[] else CountDay(Daily(ts[..|ts| - 1]), ts[|ts| - 1])
  }

  /** Reference: the timestamped turns of day `d`, in order. */
  function OnDay(ts: seq<Turn>, d: string): seq<Turn>
    decreases |ts|
  {
    if ts == [] then []
    else
      var t := ts[|ts| - 1];
      OnDay(ts[..|ts| - 1], d) + (if Timestamped(t) && DateOf(t.timestamp) == d then [t] else [])
  }

  /** There is a bucket for exactly the days some timestamped turn falls
      on; its `turns` is the number of that day's turns and its `words`
      their total user word count. */
  lemma {:induction false} DailyBuckets(ts: seq<Turn>, d: string)
    ensures d in Daily(ts) <==> OnDay(ts, d) != []
    ensures d in Daily(ts) ==> Daily(ts)[d] == DayStats(|OnDay(ts, d)|, TotalWords(OnDay(ts, d), UserSide))
    decreases |ts|
  {
    if ts != [] {
      var init := ts[..|ts| - 1];
      var t := ts[|ts| - 1];
      DailyBuckets(init, d);
      var m := Daily(init);
      var days := OnDay(init, d);
      assert Daily(ts) == CountDay(m, t);
      if Timestamped(t) && DateOf(t.timestamp) == d {
        assert OnDay(ts, d) == days + [t];
        CountDayHit(m, t, d);
        TotalWordsAppend(days, [t], UserSide);
        assert [t][..0] == [];
        assert d !in m ==> days == [];
      } else {
        assert OnDay(ts, d) == days;
        CountDayMiss(m, t, d);
      }
    }
  }

  /** The bucket of the turn's own date gains the turn. */
  lemma CountDayHit(m: map<string, DayStats>, t: Turn, d: string)
    requires Timestamped(t) && DateOf(t.timestamp) == d
    ensures d in CountDay(m, t)
    ensures d in m ==> CountDay(m, t)[d] == DayStats(m[d].turns + 1, m[d].words + WordCount(t.user))
    ensures d !in m ==> CountDay(m, t)[d] == DayStats(1, WordCount(t.user))
  {
  }

  /** Every other bucket is unchanged. */
  lemma CountDayMiss(m: map<string, DayStats>, t: Turn, d: string)
    requires !(Timestamped(t) && DateOf(t.timestamp) == d)
    ensures d in CountDay(m, t) <==> d in m
    ensures d in m ==> CountDay(m, t)[d] == m[d]
  {
  }

  /** The turns in a bucket map, summed over its days. */
  ghost function SumTurns(m: map<string, DayStats>): nat
    decreases |m.Keys|
  {
    if m == map[] then 0
    else
      var d :| d in m;
      assert (m - {d}).Keys == m.Keys - {d};
      m[d].turns + SumTurns(m - {d})
  }

  /** Any day can be taken out of the sum first. */
  lemma {:induction false} SumTurnsRemove(m: map<string, DayStats>, k: string)
    requires k in m
    ensures SumTurns(m) == m[k].turns + SumTurns(m - {k})
    decreases |m.Keys|
  {
    var d :| d in m && SumTurns(m) == m[d].turns + SumTurns(m - {d});
    assert (m - {d}).Keys == m.Keys - {d};
    if d != k {
      assert (m - {k}).Keys == m.Keys - {k};
      SumTurnsRemove(m - {d}, k);
      SumTurnsRemove(m - {k}, d);
      assert m - {d} - {k} == m - {k} - {d};
    }
  }

  /** Setting one day's bucket changes the sum by the change in its turns. */
  lemma SumTurnsUpdate(m: map<string, DayStats>, d: string, v: DayStats)
    ensures SumTurns(m[d := v]) + (if d in m then m[d].turns else 0) == SumTurns(m) + v.turns
  {
    var m' := m[d := v];
    SumTurnsRemove(m', d);
    assert m' - {d} == m - {d};
    if d in m {
      SumTurnsRemove(m, d);
    } else {
      assert m - {d} == m;
    }
  }

  /** The number of timestamped turns. */
  function TimestampedCount(ts: seq<Turn>): nat
    decreases |ts|
  {
    if ts == [] then 0
    else TimestampedCount(ts[..|ts| - 1]) + (if Timestamped(ts[|ts| - 1]) then 1 else 0)
  }

  /** Every timestamped turn lands in exactly one bucket: the buckets'
      turns add up to the number of timestamped turns. */
  lemma {:induction false} DailyTurnsSum(ts: seq<Turn>)
    ensures SumTurns(Daily(ts)) == TimestampedCount(ts)
    decreases |ts|
  {
    if ts == [] {
      assert Daily(ts) == map[];
    } else {
      var init := ts[..|ts| - 1];
      var t := ts[|ts| - 1];
      DailyTurnsSum(init);
      var m := Daily(init);
      if Timestamped(t) {
        var d := DateOf(t.timestamp);
        var was := if d in m then m[d] else DayStats(0, 0);
        var now := DayStats(was.turns + 1, was.words + WordCount(t.user));
        assert Daily(ts) == m[d := now];
        assert TimestampedCount(ts) == TimestampedCount(init) + 1;
        SumTurnsUpdate(m, d, now);
      } else {
        assert Daily(ts) == m;
        assert TimestampedCount(ts) == TimestampedCount(init);
      }
    }
  }

  /** The body of the loop of `get_daily_progress` for a timestamped turn:
      open the date's bucket if it is new, then add the turn and its user
      words to it. */
  method OpenAndCount(daily: map<string, DayStats>, turn: Turn) returns (r: map<string, DayStats>)
    requires Timestamped(turn)
    ensures r == CountDay(daily, turn)
  {
    var date := DateOf(turn.timestamp);
    r := daily;
    if date !in r {
      r := r[date := DayStats(0, 0)];
    }
    r := r[date := DayStats(r[date].turns + 1, r[date].words + WordCount(turn.user))];
  }

  // ---------------------------------------------------------------------
  // Average words per turn

  /** Dividing by a positive number and multiplying back is the identity. */
  lemma Ratio(x: real, y: real)
    requires x >= 0.0 && y > 0.0
    ensures x / y * y == x && x / y >= 0.0
  {
  }

  /** `total / count` as an exact ratio, guarded: zero when there is
      nothing to divide by. */
  function Mean(total: nat, count: nat): (mean: real)
    ensures count == 0 ==> mean == 0.0
    ensures count > 0 ==> mean * (count as real) == total as real
    ensures mean >= 0.0
  {
    if count == 0 then 0.0
    else
      Ratio(total as real, count as real);
      total as real / count as real
  }

  // ---------------------------------------------------------------------
  // The tracker

  /** `ProgressTracker`: the loaded turns and read-only statistics over
      them. */
  class ProgressTracker {
    var conversations: seq<Turn>

    /** Starts from no turns, then loads the log. */
    constructor(outcome: LoadOutcome)
      ensures outcome.Parsed? ==> conversations == outcome.turns
      ensures !outcome.Parsed? ==> conversations == []
    {
      conversations := [];
      new;
      LoadConversations(outcome);
    }

    /** `load_conversations`: an absent file keeps the turns, a failed read
        or parse empties them, a parsed file replaces them. */
    method LoadConversations(outcome: LoadOutcome)
      modifies this
      ensures outcome.FileAbsent? ==> conversations == old(conversations)
      ensures outcome.Unreadable? ==> conversations == []
      ensures outcome.Parsed? ==> conversations == outcome.turns
    {
      match outcome
      case FileAbsent =>
      case Unreadable =>
        conversations := [];
      case Parsed(turns) =>
        conversations := turns;
    }

    /** `get_total_turns`. */
    function TotalTurns(): nat
      reads this
    {
      |conversations|
    }

    /** The accumulator loop shared by the two word totals. */
    method SumWords(who: Speaker) returns (total: nat)
      ensures total == TotalWords(conversations, who)
    {
      total := 0;
      for i := 0 to |conversations|
        invariant total == TotalWords(conversations[..i], who)
      {
        assert conversations[..i + 1][..i] == conversations[..i];
        total := total + WordCount(SpokenText(conversations[i], who));
      }
      assert conversations[..|conversations|] == conversations;
    }

    /** `get_total_words_spoken`. */
    method GetTotalWordsSpoken() returns (total: nat)
      ensures total == TotalWords(conversations, UserSide)
    {
      total := SumWords(UserSide);
    }

    /** `get_total_words_heard`. */
    method GetTotalWordsHeard() returns (total: nat)
      ensures total == TotalWords(conversations, TutorSide)
    {
      total := SumWords(TutorSide);
    }

    /** `get_recurring_errors(top_n)`: count every counted correction of
        every turn, then take the `top_n` most common. */
    method GetRecurringErrors(topN: int) returns (top: seq<Entry>)
      ensures top == RecurringErrors(conversations, topN)
    {
      var counter := EmptyCounter;
      for i := 0 to |conversations|
        invariant counter == TallyErrors(AllCorrections(conversations[..i]))
      {
        var corrections := conversations[i].corrections;
        assert conversations[..i + 1][..i] == conversations[..i];
        counter := CountCorrections(counter, AllCorrections(conversations[..i]), corrections);
      }
      assert conversations[..|conversations|] == conversations;
      top := MostCommon(Entries(counter), topN);
    }

    /** The set-building loop shared by the two learned lists. */
    method CollectLearned(which: Learned) returns (learned: set<string>)
      ensures learned == LearnedSet(conversations, which)
    {
      learned := {};
      for i := 0 to |conversations|
        invariant learned == LearnedSet(conversations[..i], which)
      {
        var items := LearnedList(conversations[i], which);
        assert conversations[..i + 1][..i] == conversations[..i];
        learned := AddNonBlank(learned, items);
      }
      assert conversations[..|conversations|] == conversations;
    }

    /** `get_vocabulary_learned`. */
    method GetVocabularyLearned() returns (vocabulary: set<string>)
      ensures vocabulary == LearnedSet(conversations, VocabularyItems)
    {
      vocabulary := CollectLearned(VocabularyItems);
    }

    /** `get_grammar_tips`. */
    method GetGrammarTips() returns (tips: set<string>)
      ensures tips == LearnedSet(conversations, GrammarTipItems)
    {
      tips := CollectLearned(GrammarTipItems);
    }

    /** `get_average_words_per_turn`, before rounding: zero for an empty
        log, otherwise the user word total over the number of turns. */
    function AverageWordsPerTurn(): (average: real)
      reads this
      ensures |conversations| == 0 ==> average == 0.0
      ensures |conversations| > 0 ==>
        average == TotalWords(conversations, UserSide) as real / |conversations| as real
      ensures average >= 0.0
    {
      Mean(TotalWords(conversations, UserSide), |conversations|)
    }

    /** `get_correction_free_turns`. */
    method GetCorrectionFreeTurns() returns (count: nat)
      ensures count == CorrectionFreeCount(conversations)
    {
      count := 0;
      for i := 0 to |conversations|
        invariant count == CorrectionFreeCount(conversations[..i])
      {
        assert conversations[..i + 1][..i] == conversations[..i];
        var corrections := conversations[i].corrections;
        if corrections == [] || corrections == [WellDone] {
          count := count + 1;
        }
      }
      assert conversations[..|conversations|] == conversations;
    }

    /** `get_daily_progress`. */
    method GetDailyProgress() returns (daily: map<string, DayStats>)
      ensures daily == Daily(conversations)
    {
      daily := map[];
      for i := 0 to |conversations|
        invariant daily == Daily(conversations[..i])
      {
        assert conversations[..i + 1][..i] == conversations[..i];
        var turn := conversations[i];
        if turn.timestamp == [] {
          continue;
        }
        daily := OpenAndCount(daily, turn);
      }
      assert conversations[..|conversations|] == conversations;
    }
  }
}
