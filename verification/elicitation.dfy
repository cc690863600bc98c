/**
  The question phase both variants run: ask the fixed first question, then
  ask the oracle for one question at a time until the history holds `bound`
  entries. The variants differ only in the configuration passed in: the
  bound, how an answer line is turned into the stored answer, and how a
  question is obtained from the oracle.
 */
module Elicitation {
  import opened Wrappers
  import opened Session
  import Oracle

  /**
    `lines` are the console lines (the i-th read returns `lines[i]`; a read
    past the end stops the session), `ask(h)` is what requesting a question
    for history `h` yields, and `answer` turns an answer line into the stored
    answer. `asked` lists, in order, the histories `ask` was called on.
   */
  method AskQuestions(bound: nat, lines: seq<string>, ask: History -> Oracle.Response,
                      answer: string -> string)
    returns (stop: Option<Abort>, history: History, asked: seq<History>)
    requires bound >= 1
    // The history only ever grows at its end, one console line per entry.
    ensures |history| <= bound && |history| <= |lines|
    ensures |history| > 0 ==> history[0] == QA(FirstQuestion, answer(lines[0]))
    ensures forall i :: 0 <= i < |history| ==> history[i].answer == answer(lines[i])
    ensures |asked| <= |history| && (|history| > 0 ==> |history| - 1 <= |asked|)
    ensures forall i :: 0 <= i < |asked| ==> asked[i] == history[..i + 1]
    ensures forall i :: 1 <= i < |history| ==> ask(asked[i - 1]) == Oracle.Answered(history[i].question)
    // Finishing means a full history, after exactly `bound - 1` oracle questions.
    ensures stop.None? ==> |history| == bound && |asked| == bound - 1
    ensures stop == Some(OracleFailed) ==> 0 < |asked| == |history| < bound && ask(history).Raised?
    ensures stop == Some(InputClosed) ==> |history| == |lines| < bound
    // The next question is requested before the next line is read.
    ensures stop == Some(InputClosed) && |lines| > 0 ==> |asked| == |history| && ask(history).Answered?
  {
    history := [];
    asked := [];
    if |lines| == 0 {
      return Some(InputClosed), history, asked;
    }
    history := [QA(FirstQuestion, answer(lines[0]))];
    while |history| < bound
      invariant 1 <= |history| <= bound && |history| <= |lines|
      invariant history[0] == QA(FirstQuestion, answer(lines[0]))
      invariant forall i :: 0 <= i < |history| ==> history[i].answer == answer(lines[i])
      invariant |asked| == |history| - 1
      invariant forall i :: 0 <= i < |asked| ==> asked[i] == history[..i + 1]
      invariant forall i :: 1 <= i < |history| ==> ask(asked[i - 1]) == Oracle.Answered(history[i].question)
    {
      var reply := ask(history);
      asked := asked + [history];
      if reply.Raised? {
        return Some(OracleFailed), history, asked;
      }
      if |history| == |lines| {
        return Some(InputClosed), history, asked;
      }
      history := history + [QA(reply.text, answer(lines[|history|]))];
    }
    stop := None;
  }
}
