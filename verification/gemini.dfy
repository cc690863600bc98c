/**
  The Gemini variant of the game (gemini_akinator.py): ten questions,
  answers stored as typed (stripped and lower-cased), every oracle call
  wrapped in the three-attempt retry with a sentinel fallback, and a
  `was_correct` flag in the saved record.

  The console is the sequence `lines` of input lines: the i-th read
  returns `lines[i]`, and a read past the end closes the session.
  `askOracle(h, j)` and `guessOracle(h, j)` are what the backend yields on
  attempt `j` of a question or guess request built from history `h`.
 */
module Gemini {
  import opened Wrappers
  import opened Text
  import opened Oracle
  import opened Session
  import Store
  import Elicitation

  /** One saved game. */
  datatype GameRecord = GameRecord(
    correctAnimal: string,
    aiGuess: string,
    wasCorrect: bool,
    history: History,
    timestamp: string)

  const MaxQuestions: nat := 10

  const QuestionSentinel: string := "I cannot generate a new question right now."
  const GuessSentinel: string := "I cannot make a guess right now."

  /** `generate_question`: the retry policy around the question request for `history`. */
  function GenerateQuestion(askOracle: (History, nat) -> Outcome, history: History): (r: Reply)
    ensures 1 <= r.calls <= MaxAttempts
    ensures forall j :: 0 <= j < r.calls - 1 ==> askOracle(history, j) == ServerError
    ensures askOracle(history, r.calls - 1).Ok? ==>
              r.response == Answered(Strip(askOracle(history, r.calls - 1).text))
    ensures r.response.Raised? <==> askOracle(history, r.calls - 1) == OtherError
    ensures askOracle(history, r.calls - 1) == ServerError ==> r == Reply(Answered(QuestionSentinel), MaxAttempts)
    ensures (forall j :: 0 <= j < MaxAttempts ==> askOracle(history, j) == ServerError) ==>
              r == Reply(Answered(QuestionSentinel), MaxAttempts)
  {
    var attempt := (j: nat) => askOracle(history, j);
    assert forall j :: 0 <= j < MaxAttempts ==> attempt(j) == askOracle(history, j);
    Retry(attempt, QuestionSentinel)
  }

  /** `make_guess`: the same policy around the guess request, with its own sentinel. */
  function MakeGuess(guessOracle: (History, nat) -> Outcome, history: History): (r: Reply)
    ensures 1 <= r.calls <= MaxAttempts
    ensures forall j :: 0 <= j < r.calls - 1 ==> guessOracle(history, j) == ServerError
    ensures guessOracle(history, r.calls - 1).Ok? ==>
              r.response == Answered(Strip(guessOracle(history, r.calls - 1).text))
    ensures r.response.Raised? <==> guessOracle(history, r.calls - 1) == OtherError
    ensures guessOracle(history, r.calls - 1) == ServerError ==> r == Reply(Answered(GuessSentinel), MaxAttempts)
    ensures (forall j :: 0 <= j < MaxAttempts ==> guessOracle(history, j) == ServerError) ==>
              r == Reply(Answered(GuessSentinel), MaxAttempts)
  {
    var attempt := (j: nat) => guessOracle(history, j);
    assert forall j :: 0 <= j < MaxAttempts ==> attempt(j) == guessOracle(history, j);
    Retry(attempt, GuessSentinel)
  }

  /** `save_game`: one record holding the arguments is appended to the store. */
  function SaveGame(file: Option<seq<GameRecord>>, correctAnswer: string, aiGuess: string,
                    wasCorrect: bool, history: History, timestamp: string): (r: seq<GameRecord>)
    ensures |r| == |Store.Load(file)| + 1
    ensures r[..|r| - 1] == Store.Load(file)
    ensures r[|r| - 1].correctAnimal == correctAnswer && r[|r| - 1].aiGuess == aiGuess
    ensures r[|r| - 1].wasCorrect == wasCorrect && r[|r| - 1].history == history
    ensures r[|r| - 1].timestamp == timestamp
    ensures file.None? ==> |r| == 1
  {
    Store.Append(file, GameRecord(correctAnswer, aiGuess, wasCorrect, history, timestamp))
  }

  /**
    The confirmation phase of `play`, on the console lines left after the
    answers: a confirmation of exactly "yes" (after strip and lower) makes
    the guess the true animal; anything else reads the animal's name.
   */
  function Resolve(rest: seq<string>, guess: string, history: History,
                   file: Option<seq<GameRecord>>, timestamp: string): (e: Ending<GameRecord>)
    ensures e.Aborted? ==>
              e.cause == InputClosed && (rest == [] || (|rest| == 1 && Clean(rest[0]) != "yes"))
    ensures e.Saved? ==>
              && rest != []
              && |e.store| == |Store.Load(file)| + 1
              && e.store[..|e.store| - 1] == Store.Load(file)
              && var rec := e.store[|e.store| - 1];
                 && rec.aiGuess == guess && rec.history == history && rec.timestamp == timestamp
                 && (Clean(rest[0]) == "yes" ==> rec.wasCorrect && rec.correctAnimal == guess)
                 && (Clean(rest[0]) != "yes" ==>
                       !rec.wasCorrect && |rest| > 1 && rec.correctAnimal == Strip(rest[1]))
    ensures rest != [] && (Clean(rest[0]) == "yes" || |rest| > 1) ==> e.Saved?
  {
    if rest == [] then Aborted(InputClosed)
    else if Clean(rest[0]) == "yes" then Saved(SaveGame(file, guess, guess, true, history, timestamp))
    else if |rest| == 1 then Aborted(InputClosed)
    else Saved(SaveGame(file, Strip(rest[1]), guess, false, history, timestamp))
  }

  /** `play`: the question phase, the guess on the full history, the confirmation and the save. */
  method Play(lines: seq<string>, askOracle: (History, nat) -> Outcome,
              guessOracle: (History, nat) -> Outcome,
              file: Option<seq<GameRecord>>, timestamp: string)
    returns (ending: Ending<GameRecord>, history: History, asked: seq<History>)
    ensures |history| <= MaxQuestions && |history| <= |lines|
    ensures |asked| <= |history| && (|history| > 0 ==> |history| - 1 <= |asked|)
    ensures |history| > 0 ==> history[0].question == FirstQuestion
    ensures forall i :: 0 <= i < |history| ==> history[i].answer == Clean(lines[i])
    ensures forall i :: 0 <= i < |asked| ==> asked[i] == history[..i + 1]
    ensures forall i :: 1 <= i < |history| ==>
              GenerateQuestion(askOracle, asked[i - 1]).response == Answered(history[i].question)
    // A short history means the session stopped: the request raised, or the input ran out after it.
    ensures |history| < MaxQuestions ==>
              && ending.Aborted?
              && (|lines| > 0 ==> |asked| == |history|)
              && (ending.cause == OracleFailed ==>
                    |history| > 0 && GenerateQuestion(askOracle, history).response.Raised?)
              && (ending.cause == InputClosed ==>
                    |history| == |lines|
                    && (|lines| > 0 ==> GenerateQuestion(askOracle, history).response.Answered?))
    // A full history comes after exactly nine question requests, and the guess decides the rest.
    ensures |history| == MaxQuestions ==>
              && |asked| == MaxQuestions - 1
              && ending == (var g := MakeGuess(guessOracle, history).response;
                            if g.Raised? then Aborted(OracleFailed)
                            else Resolve(lines[MaxQuestions..], g.text, history, file, timestamp))
  {
    // The loop's extra `break` once the history is full changes nothing: the loop test fails there too.
    var stop;
    stop, history, asked := Elicitation.AskQuestions(
      MaxQuestions, lines, h => GenerateQuestion(askOracle, h).response, Clean);
    if stop.Some? {
      if stop.value == OracleFailed {
        assert GenerateQuestion(askOracle, history).response.Raised?;
      }
      return Aborted(stop.value), history, asked;
    }
    var guess := MakeGuess(guessOracle, history);
    if guess.response.Raised? {
      return Aborted(OracleFailed), history, asked;
    }
    ending := Resolve(lines[MaxQuestions..], guess.response.text, history, file, timestamp);
  }

  /**
    Stored answers are the typed text, not a canonical answer: a line
    such as " maybe " is kept as "maybe".
   */
  lemma AnswersAreNotNormalized()
    ensures Clean(" maybe ") == "maybe"
  {
    var m := "maybe";
    assert " maybe " == " " + m + " ";
    assert Trimmed(m) && NoUpper(m);
    CleanPadded(" ", m, " ");
    CleanFixed(m);
  }
}
