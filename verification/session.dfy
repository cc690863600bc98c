/** What one game session is made of, shared by both variants of the game. */
module Session {

  /** One asked question and the answer stored for it. */
  datatype QA = QA(question: string, answer: string)

  /** The questions and answers of a session, oldest first. */
  type History = seq<QA>

  /** The fixed opening question both variants ask before consulting the oracle. */
  const FirstQuestion: string := "Is it a mammal?"

  /** Why a session stopped early: an oracle error escaped, or a console read found the input closed. */
  datatype Abort = OracleFailed | InputClosed

  /** How a session ends: the record was saved and this is the new store, or it was aborted. */
  datatype Ending<R> = Saved(store: seq<R>) | Aborted(cause: Abort)
}
