/**
 * The conversation log: `ConversationManager` keeps the turns of the
 * current session in `history`, appends one record per exchange and can
 * replace its history with the saved log. The record is built from the
 * user's words, the tutor's raw reply and the extractor's output, and
 * carries exactly the fields the progress tracker reads; the lemma at the
 * end says what one logged exchange adds to each statistic.
 */
module Conversation {
  import opened Text
  import opened TurnLog
  import opened FeedbackExtractor
  import Analytics

  /** The record `add_turn` builds: the timestamp, what the user said, the
      raw reply, and the extractor's paragraph and three lists. */
  function Record(timestamp: string, userText: string, rawReply: string, feedback: Feedback): Turn {
    Turn(timestamp, userText, rawReply,
         feedback.response, feedback.corrections, feedback.vocabulary, feedback.grammarTips)
  }

  class ConversationManager {
    var history: seq<Turn>

    /** A new manager has an empty history. */
    constructor()
      ensures history == []
    {
      history := [];
    }

    /** `add_turn`: exactly one record is appended, after all earlier ones,
        which are unchanged. The timestamp (`datetime.now().isoformat()`)
        is a parameter. */
    method AddTurn(userText: string, rawReply: string, feedback: Feedback, timestamp: string)
      modifies this
      ensures |history| == |old(history)| + 1
      ensures history[..|old(history)|] == old(history)
      ensures history[|history| - 1] == Record(timestamp, userText, rawReply, feedback)
    {
      var turn := Record(timestamp, userText, rawReply, feedback);
      history := history + [turn];
    }

    /** The state effect of `load`: an absent file keeps the history, a
        failed read or parse empties it, a parsed file replaces it. */
    method Load(outcome: LoadOutcome)
      modifies this
      ensures outcome.FileAbsent? ==> history == old(history)
      ensures outcome.Unreadable? ==> history == []
      ensures outcome.Parsed? ==> history == outcome.turns
    {
      match outcome
      case FileAbsent =>
      case Unreadable =>
        history := [];
      case Parsed(turns) =>
        history := turns;
    }
  }

  /** What logging one exchange does to the statistics when the record
      comes from the extractor: the user's and the tutor's word totals grow
      by the words of this turn; every extracted vocabulary item and
      grammar tip is learned, as written; the extracted corrections are
      appended to those counted, and each of them other than the "well
      done" entry is counted; the turn is correction-free exactly when
      nothing, or only the "well done" entry, was extracted; and one more
      turn carries a timestamp exactly when this one does. */
  lemma LoggedExchange(history: seq<Turn>, timestamp: string, userText: string, rawReply: string)
    ensures var fb := Extract(rawReply);
            var logged := history + [Record(timestamp, userText, rawReply, fb)];
            && Analytics.TotalWords(logged, Analytics.UserSide) ==
                 Analytics.TotalWords(history, Analytics.UserSide) + WordCount(userText)
            && Analytics.TotalWords(logged, Analytics.TutorSide) ==
                 Analytics.TotalWords(history, Analytics.TutorSide) + WordCount(fb.response)
            && Analytics.LearnedSet(logged, Analytics.VocabularyItems) ==
                 Analytics.LearnedSet(history, Analytics.VocabularyItems) + (set x | x in fb.vocabulary)
            && Analytics.LearnedSet(logged, Analytics.GrammarTipItems) ==
                 Analytics.LearnedSet(history, Analytics.GrammarTipItems) + (set x | x in fb.grammarTips)
            && Analytics.AllCorrections(logged) == Analytics.AllCorrections(history) + fb.corrections
            && (forall c <- fb.corrections :: c != Analytics.WellDone ==> Analytics.Counted(c))
            && Analytics.CorrectionFreeCount(logged) ==
                 Analytics.CorrectionFreeCount(history) +
                 (if fb.corrections == [] || fb.corrections == [Analytics.WellDone] then 1 else 0)
            && Analytics.TimestampedCount(logged) ==
                 Analytics.TimestampedCount(history) + (if timestamp != [] then 1 else 0)
  {
    var fb := Extract(rawReply);
    var turn := Record(timestamp, userText, rawReply, fb);
    var logged := history + [turn];
    assert logged[..|history|] == history;
    assert logged[|logged| - 1] == turn;
    assert Analytics.NonBlankEntries(fb.vocabulary) == set x | x in fb.vocabulary;
    assert Analytics.NonBlankEntries(fb.grammarTips) == set x | x in fb.grammarTips;
    forall c <- fb.corrections | c != Analytics.WellDone
      ensures Analytics.Counted(c)
    {
      StrippedIsFixed(c);
    }
  }

  /** What logging one exchange does to the daily buckets: with a
      non-empty timestamp, the bucket of its date gains one turn and the
      user's words of this turn, and is opened when it is new; every other
      bucket, and every bucket when the timestamp is empty, is unchanged. */
  lemma LoggedDay(history: seq<Turn>, timestamp: string, userText: string, rawReply: string, d: string)
    ensures var turn := Record(timestamp, userText, rawReply, Extract(rawReply));
            var before := Analytics.Daily(history);
            var after := Analytics.Daily(history + [turn]);
            && (timestamp != [] && d == Analytics.DateOf(timestamp) ==>
                  && d in after
                  && after[d] == (if d in before
                                  then Analytics.DayStats(before[d].turns + 1, before[d].words + WordCount(userText))
                                  else Analytics.DayStats(1, WordCount(userText))))
            && (timestamp == [] || d != Analytics.DateOf(timestamp) ==>
                  && (d in after <==> d in before)
                  && (d in before ==> after[d] == before[d]))
  {
    var turn := Record(timestamp, userText, rawReply, Extract(rawReply));
    var logged := history + [turn];
    assert logged[..|history|] == history;
    assert Analytics.Daily(logged) == Analytics.CountDay(Analytics.Daily(history), turn);
    if timestamp != [] && d == Analytics.DateOf(timestamp) {
      Analytics.CountDayHit(Analytics.Daily(history), turn, d);
    } else {
      Analytics.CountDayMiss(Analytics.Daily(history), turn, d);
    }
  }
}
