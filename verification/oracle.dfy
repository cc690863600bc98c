/**
  The generative oracle seen from the game: each call either returns text,
  reports that the server is overloaded, or fails in some other way.
  The Gemini variant wraps every call in a three-attempt retry that
  retries only on overload and degrades to a fixed sentinel text.
 */
module Oracle {
  import Text

  /** What one call to the backend yields. */
  datatype Outcome = Ok(text: string) | ServerError | OtherError

  /** What a call site observes: the returned text, or an exception that escaped. */
  datatype Response = Answered(text: string) | Raised

  /** A response together with the number of backend calls spent on it. */
  datatype Reply = Reply(response: Response, calls: nat)

  const MaxAttempts: nat := 3

  /**
    Attempts `from`, `from + 1`, ... of the retry loop, where `attempt(j)`
    is what the backend yields on the j-th call.
   */
  function RetryFrom(attempt: nat -> Outcome, from: nat, sentinel: string): (r: Reply)
    requires from < MaxAttempts
    ensures from < r.calls <= MaxAttempts
    ensures forall j :: from <= j < r.calls - 1 ==> attempt(j) == ServerError
    ensures attempt(r.calls - 1).Ok? ==> r.response == Answered(Text.Strip(attempt(r.calls - 1).text))
    ensures attempt(r.calls - 1) == OtherError ==> r.response == Raised
    ensures attempt(r.calls - 1) == ServerError ==> r.calls == MaxAttempts && r.response == Answered(sentinel)
    decreases MaxAttempts - from
  {
    match attempt(from)
    case Ok(t) => Reply(Answered(Text.Strip(t)), from + 1)
    case OtherError => Reply(Raised, from + 1)
    case ServerError =>
      if from + 1 == MaxAttempts then Reply(Answered(sentinel), MaxAttempts)
      else RetryFrom(attempt, from + 1, sentinel)
  }

  /**
    The retry policy: call until a result that is not an overload, at most
    `MaxAttempts` times. The last call decides the response; only an
    overload on every attempt produces the sentinel.
   */
  function Retry(attempt: nat -> Outcome, sentinel: string): (r: Reply)
    ensures 1 <= r.calls <= MaxAttempts
    ensures forall j :: 0 <= j < r.calls - 1 ==> attempt(j) == ServerError
    ensures attempt(r.calls - 1).Ok? ==> r.response == Answered(Text.Strip(attempt(r.calls - 1).text))
    ensures attempt(r.calls - 1) == OtherError ==> r.response == Raised
    ensures attempt(r.calls - 1) == ServerError ==> r.calls == MaxAttempts && r.response == Answered(sentinel)
  {
    RetryFrom(attempt, 0, sentinel)
  }

  /** The first attempt that is not an overload is the last one made. */
  lemma RetryStopsAt(attempt: nat -> Outcome, sentinel: string, k: nat)
    requires k < MaxAttempts
    requires forall j :: 0 <= j < k ==> attempt(j) == ServerError
    requires attempt(k) != ServerError
    ensures Retry(attempt, sentinel).calls == k + 1
  {
  }

  /** After `k < 3` overloads and then a success, the stripped text comes back after `k + 1` calls. */
  lemma RetrySucceedsAfter(attempt: nat -> Outcome, sentinel: string, k: nat)
    requires k < MaxAttempts
    requires forall j :: 0 <= j < k ==> attempt(j) == ServerError
    requires attempt(k).Ok?
    ensures Retry(attempt, sentinel) == Reply(Answered(Text.Strip(attempt(k).text)), k + 1)
  {
  }

  /** Three overloads in a row: the sentinel is returned after exactly three calls and nothing is raised. */
  lemma RetryExhausted(attempt: nat -> Outcome, sentinel: string)
    requires forall j :: 0 <= j < MaxAttempts ==> attempt(j) == ServerError
    ensures Retry(attempt, sentinel) == Reply(Answered(sentinel), MaxAttempts)
  {
  }

  /** Any error other than an overload escapes on its first occurrence, with no further call. */
  lemma RetryOtherErrorEscapes(attempt: nat -> Outcome, sentinel: string, k: nat)
    requires k < MaxAttempts
    requires forall j :: 0 <= j < k ==> attempt(j) == ServerError
    requires attempt(k).OtherError?
    ensures Retry(attempt, sentinel) == Reply(Raised, k + 1)
  {
  }

  /**
    A single unguarded call, as in the Ollama variant: success yields the
    stripped text; an overload or any other error escapes.
   */
  function CallOnce(o: Outcome): (r: Response)
    ensures r.Raised? <==> !o.Ok?
    ensures o.Ok? ==> r.text == Text.Strip(o.text)
  {
    match o
    case Ok(t) => Answered(Text.Strip(t))
    case _ => Raised
  }
}
