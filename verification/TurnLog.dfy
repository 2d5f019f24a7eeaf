/**
 * The saved conversation log: one record per turn, written by the
 * conversation manager and read back by the progress tracker.
 */
module TurnLog {

  /** One saved turn. The source stores a turn as a dictionary and reads it
      with `.get(key, default)`; here every key is a field, and a key that a
      loaded record lacks reads as the empty string or the empty list, which
      is what every reader in the core substitutes for it. */
  datatype Turn = Turn(
    timestamp: string,        // "timestamp": ISO-8601 text, e.g. 2025-12-18T13:20:00
    user: string,             // "user": what the user said, as transcribed
    aiFullResponse: string,   // "ai_full_response": the model's raw reply
    aiResponse: string,       // "ai_response": the conversational part of the reply
    corrections: seq<string>, // "corrections"
    vocabulary: seq<string>,  // "vocabulary"
    grammarTips: seq<string>  // "grammar_tips"
  )

  /** What reading the log file gave: the file is not there, it could not be
      opened or parsed, or it parsed to a list of turns. */
  datatype LoadOutcome = FileAbsent | Unreadable | Parsed(turns: seq<Turn>)
}
