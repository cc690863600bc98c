/**
  The Ollama variant of the game (ollamaAkinator.py): twelve questions,
  every answer normalized to "yes", "no" or "unknown", a single oracle
  call per request with no retry, and no `was_correct` in the saved record.

  The console is the sequence `lines` of input lines; `askOracle(h)` and
  `guessOracle(h)` are what the backend yields for a question or guess
  request built from history `h`.
 */
module Ollama {
  import opened Wrappers
  import opened Text
  import opened Oracle
  import opened Session
  import Store
  import Elicitation

  /** One saved game: exactly the four keys the variant writes. */
  datatype GameRecord = GameRecord(
    correctAnimal: string,
    aiGuess: string,
    history: History,
    timestamp: string)

  const TotalQuestions: nat := 12

  /** Accepted spellings of yes and no, in English and Finnish. */
  const YesWords: seq<string> := ["k", "kyll\U{E4}", "yes", "y"]
  const NoWords: seq<string> := ["e", "ei", "no", "n"]

  predicate IsCanonical(a: string) {
    a == "yes" || a == "no" || a == "unknown"
  }

  /** `normalize_answer`: total, and its result is always canonical. */
  function NormalizeAnswer(raw: string): (r: string)
    ensures IsCanonical(r)
    ensures r == "yes" <==> Clean(raw) in YesWords
    ensures r == "no" <==> Clean(raw) in NoWords
    ensures r == "unknown" <==> Clean(raw) !in YesWords && Clean(raw) !in NoWords
  {
    var a := Clean(raw);
    if a in YesWords then "yes" else if a in NoWords then "no" else "unknown"
  }

  /** A listed spelling typed as listed is already clean. */
  lemma ListedWordIsClean(w: string)
    requires w in YesWords || w in NoWords
    ensures Clean(w) == w
  {
    CleanFixed(w);
  }

  /** Every listed spelling, typed as listed, is recognised. */
  lemma NormalizeTable(w: string)
    ensures w in YesWords ==> NormalizeAnswer(w) == "yes"
    ensures w in NoWords ==> NormalizeAnswer(w) == "no"
  {
    if w in YesWords || w in NoWords {
      ListedWordIsClean(w);
    }
  }

  /** The result depends only on the stripped, lower-cased text. */
  lemma NormalizeDependsOnClean(raw: string)
    ensures NormalizeAnswer(Clean(raw)) == NormalizeAnswer(raw)
  {
    CleanFixed(Clean(raw));
  }

  /** Surrounding whitespace does not change the answer. */
  lemma NormalizeIgnoresPadding(ws: string, raw: string, ws': string)
    requires AllSpace(ws) && AllSpace(ws')
    ensures NormalizeAnswer(ws + raw + ws') == NormalizeAnswer(raw)
  {
    CleanPadded(ws, raw, ws');
  }

  /** Letter case does not change the answer. */
  lemma NormalizeIgnoresCase(s: string, t: string)
    requires Lower(s) == Lower(t)
    ensures NormalizeAnswer(s) == NormalizeAnswer(t)
  {
    CleanIgnoresCase(s, t);
  }

  /** The KELVIN SIGN lowers to "k", so on its own it is a yes. */
  lemma KelvinSignIsYes()
    ensures NormalizeAnswer("\U{212A}") == "yes"
  {
    var s := "\U{212A}";
    assert Trimmed(s);
    assert TrimLeft(s) == s && TrimRight(s) == s;
    var l := Lower(s);
    assert l[0] == 'k';
    assert l == YesWords[0];
  }

  /** A canonical answer normalizes to itself. */
  lemma CanonicalIsFixed(a: string)
    requires IsCanonical(a)
    ensures NormalizeAnswer(a) == a
  {
    if a == "yes" {
      ListedWordIsClean(YesWords[2]);
    } else if a == "no" {
      ListedWordIsClean(NoWords[2]);
      assert a !in YesWords by { assert forall w :: w in YesWords ==> w[0] != 'n'; }
    } else {
      CleanFixed(a);
      assert forall w :: w in YesWords + NoWords ==> |w| < |a|;
    }
  }

  lemma NormalizeIdempotent(raw: string)
    ensures NormalizeAnswer(NormalizeAnswer(raw)) == NormalizeAnswer(raw)
  {
    CanonicalIsFixed(NormalizeAnswer(raw));
  }

  /** `generate_question`: one call, whose error of any kind propagates. */
  function GenerateQuestion(askOracle: History -> Outcome, history: History): (r: Response)
    ensures r.Raised? <==> !askOracle(history).Ok?
    ensures r.Answered? ==> r.text == Strip(askOracle(history).text)
  {
    CallOnce(askOracle(history))
  }

  /** `make_guess`: one call, whose error of any kind propagates. */
  function MakeGuess(guessOracle: History -> Outcome, history: History): (r: Response)
    ensures r.Raised? <==> !guessOracle(history).Ok?
    ensures r.Answered? ==> r.text == Strip(guessOracle(history).text)
  {
    CallOnce(guessOracle(history))
  }

  /** `load_games`: a store that does not exist reads as no games. */
  function LoadGames(file: Option<seq<GameRecord>>): (r: seq<GameRecord>)
    ensures file.None? ==> r == []
    ensures file.Some? ==> r == file.value
  {
    Store.Load(file)
  }

  /** `save_game`: the record is appended after the games already stored. */
  function SaveGame(file: Option<seq<GameRecord>>, game: GameRecord): (r: seq<GameRecord>)
    ensures |r| == |LoadGames(file)| + 1
    ensures r[..|r| - 1] == LoadGames(file)
    ensures r[|r| - 1] == game
    ensures file.None? ==> r == [game]
  {
    Store.Append(file, game)
  }

  /**
    The confirmation phase of `play`, on the console lines left after the
    answers: a confirmation that normalizes to "yes" makes the guess the
    true animal; anything else reads the animal's name.
   */
  function Resolve(rest: seq<string>, guess: string, history: History,
                   file: Option<seq<GameRecord>>, timestamp: string): (e: Ending<GameRecord>)
    ensures e.Aborted? ==>
              e.cause == InputClosed && (rest == [] || (|rest| == 1 && NormalizeAnswer(rest[0]) != "yes"))
    ensures e.Saved? ==>
              && rest != []
              && |e.store| == |LoadGames(file)| + 1
              && e.store[..|e.store| - 1] == LoadGames(file)
              && var rec := e.store[|e.store| - 1];
                 && rec.aiGuess == guess && rec.history == history && rec.timestamp == timestamp
                 && (NormalizeAnswer(rest[0]) == "yes" ==> rec.correctAnimal == guess)
                 && (NormalizeAnswer(rest[0]) != "yes" ==> |rest| > 1 && rec.correctAnimal == Strip(rest[1]))
    ensures rest != [] && (NormalizeAnswer(rest[0]) == "yes" || |rest| > 1) ==> e.Saved?
  {
    if rest == [] then Aborted(InputClosed)
    else if NormalizeAnswer(rest[0]) == "yes" then Saved(SaveGame(file, GameRecord(guess, guess, history, timestamp)))
    else if |rest| == 1 then Aborted(InputClosed)
    else Saved(SaveGame(file, GameRecord(Strip(rest[1]), guess, history, timestamp)))
  }

  /** Any accepted spelling of yes, in any case and with any padding, confirms the guess. */
  lemma ConfirmationAcceptsSynonyms(rest: seq<string>, guess: string, history: History,
                                    file: Option<seq<GameRecord>>, timestamp: string,
                                    ws: string, w: string, ws': string)
    requires AllSpace(ws) && AllSpace(ws') && w in YesWords
    requires rest != [] && Lower(rest[0]) == Lower(ws + w + ws')
    ensures Resolve(rest, guess, history, file, timestamp).Saved?
    ensures var s := Resolve(rest, guess, history, file, timestamp).store;
            s[|s| - 1].correctAnimal == guess
  {
    NormalizeTable(w);
    NormalizeIgnoresCase(rest[0], ws + w + ws');
    NormalizeIgnoresPadding(ws, w, ws');
  }

  /** `play`: the question phase, the guess on the full history, the confirmation and the save. */
  method Play(lines: seq<string>, askOracle: History -> Outcome, guessOracle: History -> Outcome,
              file: Option<seq<GameRecord>>, timestamp: string)
    returns (ending: Ending<GameRecord>, history: History, asked: seq<History>)
    ensures |history| <= TotalQuestions && |history| <= |lines|
    ensures |asked| <= |history| && (|history| > 0 ==> |history| - 1 <= |asked|)
    ensures |history| > 0 ==> history[0].question == FirstQuestion
    ensures forall i :: 0 <= i < |history| ==> history[i].answer == NormalizeAnswer(lines[i])
    ensures forall i :: 0 <= i < |history| ==> IsCanonical(history[i].answer)
    ensures forall i :: 0 <= i < |asked| ==> asked[i] == history[..i + 1]
    ensures forall i :: 1 <= i < |history| ==>
              GenerateQuestion(askOracle, asked[i - 1]) == Answered(history[i].question)
    // A short history means the session stopped: the request failed, or the input ran out after it.
    ensures |history| < TotalQuestions ==>
              && ending.Aborted?
              && (|lines| > 0 ==> |asked| == |history|)
              && (ending.cause == OracleFailed ==> |history| > 0 && !askOracle(history).Ok?)
              && (ending.cause == InputClosed ==>
                    |history| == |lines| && (|lines| > 0 ==> askOracle(history).Ok?))
    // A full history comes after exactly eleven question requests, and the guess decides the rest;
    // with no retry, a failed guess call of either kind ends the session.
    ensures |history| == TotalQuestions ==>
              && |asked| == TotalQuestions - 1
              && ending == (if !guessOracle(history).Ok? then Aborted(OracleFailed)
                            else Resolve(lines[TotalQuestions..], Strip(guessOracle(history).text),
                                         history, file, timestamp))
  {
    var stop;
    stop, history, asked := Elicitation.AskQuestions(
      TotalQuestions, lines, h => GenerateQuestion(askOracle, h), NormalizeAnswer);
    if stop.Some? {
      if stop.value == OracleFailed {
        assert GenerateQuestion(askOracle, history).Raised?;
      }
      return Aborted(stop.value), history, asked;
    }
    var guess := MakeGuess(guessOracle, history);
    if guess.Raised? {
      return Aborted(OracleFailed), history, asked;
    }
    ending := Resolve(lines[TotalQuestions..], guess.text, history, file, timestamp);
  }
}
