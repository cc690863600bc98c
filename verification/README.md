# Akinator-style animal guessing game, modelled in Dafny

The program plays a guessing game on the console. The player thinks of an
animal. The program asks the fixed question "Is it a mammal?", then asks a
generative text model for one yes/no/unknown question at a time, each
conditioned on the history of earlier questions and answers. Once the
history holds the configured number of entries, it asks the model for a
guess. It then asks whether the guess was right, or which animal it was,
and appends a record of the game to a JSON game-data file.

It comes in two variants, and both are modelled.

- `gemini_akinator.py`:
  - ten questions;
  - every answer is stored as typed, after strip and lower-case;
  - each model call is attempted at most three times: a server overload
    leads to the next attempt, and three overloads give a fixed sentinel
    text;
  - the confirmation is compared literally with "yes";
  - the saved record carries `was_correct`.
- `ollamaAkinator.py`:
  - twelve questions;
  - every answer is normalized to "yes", "no" or "unknown" through an
    English and Finnish synonym table;
  - a single model call per request, with no retry;
  - the confirmation is normalized too;
  - the saved record has no `was_correct`.

How the environment is represented:

- **Console.** Input is a sequence of lines: the i-th `input()` returns the
  i-th line. Reading past the end ends the session as
  `Aborted(InputClosed)`, which is Python's `EOFError`.
- **Model.** It is a function parameter. In the Gemini variant it takes the
  history and the attempt number and returns `Ok(text)`, `ServerError` or
  `OtherError`. In the Ollama variant it takes only the history.
- **Game-data file.** Its previous contents are an `Option` of a record
  sequence, where `None` is a file that does not exist.
- **Timestamp.** It is a parameter.
- **Call log.** Each `Play` method also returns `asked`, the histories that
  question generation was called with, in order.

Modules:

| module | file | role |
|---|---|---|
| `Wrappers` | `wrappers.dfy` | `Option` |
| `Text` | `text.dfy` | Python's `str.strip()` and `str.lower()` |
| `Oracle` | `oracle.dfy` | call outcomes, the three-attempt retry, the single unguarded call |
| `Session` | `session.dfy` | question/answer pairs, history, how a session ends |
| `Store` | `store.dfy` | load and append on the game-data file |
| `Elicitation` | `elicitation.dfy` | the question loop shared by both variants |
| `Gemini` | `gemini.dfy` | the Gemini variant |
| `Ollama` | `ollama.dfy` | the Ollama variant |
| `Variants` | `variants.dfy` | one input on which the two confirmation rules differ |

How errors and answers behave in the code:

- **Errors reaching the game loop.**
  - The Gemini variant catches only `ServerError`
    (gemini_akinator.py:74), so any other error escapes to `play`
    (`Oracle.RetryOtherErrorEscapes`, `Gemini.Play`).
  - The Ollama variant has no retry (ollamaAkinator.py:70-78), so even an
    overload escapes (`Ollama.GenerateQuestion`, `Ollama.Play`).
- **Stored answers.** Only the Ollama variant stores canonical answers.
  The Gemini variant stores the cleaned text as typed
  (gemini_akinator.py:136-137, `Gemini.AnswersAreNotNormalized`).

## Model

| member | source | states |
|---|---|---|
| Text.Strip | ollamaAkinator.py:27 | `strip()` leaves no whitespace (Python's `isspace` set) at either end and never lengthens the text |
| Text.StripIsInfix | ollamaAkinator.py:27 | `strip()` removes whitespace and nothing else: the result is a contiguous part of the input with only whitespace around it |
| Text.StripPadded | gemini_akinator.py:72 | adding whitespace on either side does not change what `strip()` returns |
| Text.LowerChar | ollamaAkinator.py:27 | lower-casing one character gives no capital and leaves non-capitals unchanged. An ASCII or Latin-1 capital becomes the small letter 32 code points on. Ÿ, ẞ, the KELVIN SIGN and the ANGSTROM SIGN become ÿ, ß, k and å. Whitespace stays whitespace |
| Text.Lower | ollamaAkinator.py:27 | `lower()` keeps the length and lowers each character in place |
| Text.StripLower | ollamaAkinator.py:27 | stripping then lowering equals lowering then stripping |
| Text.Clean | gemini_akinator.py:125 | `strip().lower()` has no whitespace at either end and no capital letter |
| Text.CleanIgnoresCase | gemini_akinator.py:148 | two lines that lower to the same text clean to the same text |
| Text.CleanPadded | gemini_akinator.py:136 | surrounding whitespace does not change a cleaned answer |
| Text.CleanFixed | ollamaAkinator.py:27 | a text with no surrounding whitespace and no capitals is its own cleaning |
| Oracle.RetryFrom | gemini_akinator.py:60-77 | from attempt `from` on, the retry makes at most three calls in total. Every call but the last was an overload. A last success gives its stripped text, a last other error is raised, and a last overload is the third call and gives the sentinel |
| Oracle.Retry | gemini_akinator.py:60-77 | the same characterisation for the whole three-attempt loop |
| Oracle.RetryStopsAt | gemini_akinator.py:60-74 | the first attempt that is not an overload is the last one made |
| Oracle.RetrySucceedsAfter | gemini_akinator.py:60-72 | after k < 3 overloads and then a success, the stripped text comes back after exactly k + 1 calls |
| Oracle.RetryExhausted | gemini_akinator.py:74-77 | three overloads give the sentinel text after exactly three calls, and nothing is raised |
| Oracle.RetryOtherErrorEscapes | gemini_akinator.py:60-74 | an error other than an overload escapes at once, after k + 1 calls, with no further attempt |
| Oracle.CallOnce | ollamaAkinator.py:70-78 | a single call raises exactly when the backend fails in any way, and otherwise returns the stripped text |
| Store.Load | ollamaAkinator.py:37-41 | a file that does not exist reads as no games; otherwise its contents are returned |
| Store.Append | gemini_akinator.py:19-35 | saving keeps every earlier record unchanged and in place, and adds exactly the new record at the end |
| Store.SaveAllAppendsInOrder | gemini_akinator.py:23-35 | a series of saved games leaves the earlier contents followed by the games' records in play order |
| Elicitation.AskQuestions | gemini_akinator.py:119-142 | the question loop, shown below the table |
| Gemini.GenerateQuestion | gemini_akinator.py:42-77 | the question request for a history follows the retry policy: 1 to 3 calls, earlier calls all overloads, a success gives its stripped text, raised iff the last call was another error, and a last overload is the third call and gives "I cannot generate a new question right now." |
| Gemini.MakeGuess | gemini_akinator.py:84-109 | the guess request follows the same policy, with sentinel "I cannot make a guess right now." |
| Gemini.SaveGame | gemini_akinator.py:16-35 | N stored records become N + 1. The first N are unchanged. The last one holds the given animal, guess, `was_correct`, history and timestamp. A missing file gives exactly one record |
| Gemini.Resolve | gemini_akinator.py:145-164 | the confirmation, shown below the table |
| Gemini.Play | gemini_akinator.py:116-166 | the whole Gemini session, shown below the table |
| Gemini.AnswersAreNotNormalized | gemini_akinator.py:136-137 | an answer line " maybe " is stored as "maybe", which is not a canonical answer |
| Ollama.NormalizeAnswer | ollamaAkinator.py:26-32 | total; the result is "yes", "no" or "unknown". It is "yes" iff the stripped, lowered input is one of k, kyllä, yes, y; "no" iff it is one of e, ei, no, n; "unknown" iff it is neither |
| Ollama.ListedWordIsClean | ollamaAkinator.py:28-30 | every spelling in the synonym table is already stripped and lower-case |
| Ollama.NormalizeTable | ollamaAkinator.py:28-31 | each yes-spelling maps to "yes" and each no-spelling to "no" |
| Ollama.NormalizeDependsOnClean | ollamaAkinator.py:27 | the answer depends only on the stripped, lower-cased input |
| Ollama.NormalizeIgnoresPadding | ollamaAkinator.py:27 | surrounding whitespace does not change the answer |
| Ollama.NormalizeIgnoresCase | ollamaAkinator.py:27 | inputs that lower to the same text give the same answer |
| Ollama.KelvinSignIsYes | ollamaAkinator.py:27-29 | a lone KELVIN SIGN lowers to "k" and so normalizes to "yes" |
| Ollama.CanonicalIsFixed | ollamaAkinator.py:26-32 | each canonical answer normalizes to itself |
| Ollama.NormalizeIdempotent | ollamaAkinator.py:26-32 | normalizing twice gives the same answer as normalizing once |
| Ollama.GenerateQuestion | ollamaAkinator.py:52-78 | a single call that raises on any failure, overloads included, and otherwise returns the stripped text |
| Ollama.MakeGuess | ollamaAkinator.py:83-102 | the same single unguarded call for the guess |
| Ollama.LoadGames | ollamaAkinator.py:37-41 | a missing file reads as `[]`; otherwise its contents |
| Ollama.SaveGame | ollamaAkinator.py:43-47 | the store gains exactly the given record at its end, and the earlier records are unchanged |
| Ollama.Resolve | ollamaAkinator.py:128-144 | the confirmation, shown below the table |
| Ollama.ConfirmationAcceptsSynonyms | ollamaAkinator.py:131-133 | any yes-spelling, in any case and with any padding, confirms the guess as the true animal |
| Ollama.Play | ollamaAkinator.py:107-146 | the whole Ollama session, shown below the table |
| Variants.ShortYesConfirmsOnlyInOllama | gemini_akinator.py:148-157 | on the confirmation "y", the Gemini variant records the typed animal with `was_correct` false, while the Ollama variant records the guess as the true animal |

The rows that need more than one cell:

- **Elicitation.AskQuestions**, the question loop:
  - the history has at most `bound` entries, and never more entries than
    console lines;
  - its first entry is the fixed first question with the first line's
    answer;
  - the i-th answer comes from the i-th line;
  - the i-th oracle request is made on the history prefix of length i + 1;
  - each later question is what that request returned;
  - finishing means exactly `bound` entries after exactly `bound - 1`
    requests;
  - an escaped error stops the loop with the raising request as the last
    one made;
  - a closed input stops it only after the next question was requested and
    answered, since the request comes before the read.
- **Gemini.Resolve**, the confirmation:
  - a confirmation of exactly "yes" (after strip and lower) saves the guess
    as the animal with `was_correct` true;
  - any other confirmation reads the animal's name, stripped, and saves it
    with `was_correct` false;
  - the guess, history and timestamp are recorded;
  - the earlier records are kept;
  - the session is aborted only when the input runs out.
- **Gemini.Play**, the whole session:
  - the first question is "Is it a mammal?";
  - the i-th request is on the prefix of length i + 1;
  - stored answers are the cleaned lines, not canonical values;
  - a history shorter than 10 entries means the session was aborted:
    either the question request on it raised, or the input ended right
    after that request was answered;
  - a full history of exactly 10 entries comes after exactly 9 question
    requests, and the ending is then fixed by the guess: aborted if
    make_guess raised, otherwise the confirmation of the guess on the
    remaining lines;
  - sentinels stand in for questions or guesses when every attempt was an
    overload, and the session goes on.
- **Ollama.Resolve**, the confirmation:
  - a confirmation that normalizes to "yes" saves the guess as the animal;
  - otherwise the stripped name typed next is saved;
  - the record has no `was_correct`;
  - the guess, history and timestamp are recorded;
  - the earlier records are kept.
- **Ollama.Play**, the whole session:
  - the first question is fixed;
  - every stored answer is the normalized line and is canonical;
  - the i-th request is on the prefix of length i + 1;
  - a history shorter than 12 entries means the session was aborted:
    either the question call on it failed, or the input ended right after
    that call succeeded;
  - a full history of exactly 12 entries comes after exactly 11 question
    requests, and the ending is then fixed by the guess: aborted if the
    guess call failed in any way, otherwise the confirmation of the
    stripped guess on the remaining lines.

## Left out

- The prompt texts, the JSON serialisation of the history inside them, and
  the system instructions. The model is an arbitrary function of the
  history, so the model does not depend on them.
- The SDK and HTTP transport, model names, base URL and API key. A call is
  reduced to its outcome.
- The two-second sleeps between retries and the sleeps between questions.
  They change timing only.
- Everything printed to the console: the displayed question, the guess, and
  the messages "Yay! I got it right!", "Game saved." and the others. Input
  prompts are not modelled either: only the lines read matter.
- The Python loop's extra `break` once the history is full. It is
  redundant, because the loop condition fails at the same point.
- `datetime.now().isoformat()`. The clock is read outside the model and the
  timestamp is passed in.
- The JSON encoding of the game-data file and a file that exists but does
  not parse. A corrupt file makes `json.load` raise, which is outside the
  game logic.
- The Gemini variant's step that creates an empty file before reading it.
  Reading it back gives `[]`, the same as `Store.Load` of a missing file.
- Two processes saving at the same time, which can lose a game because the
  file is rewritten as a whole. The model is single-threaded.
- A model response whose text is `None`, which would make `.strip()` raise.
  Every successful call is taken to carry text.
- Text.LowerChar: lowers only the characters that Python lowers to a
  single ASCII or Latin-1 letter. Other capitals (Greek, Cyrillic and the
  rest of Unicode) are left unchanged. Lowerings that change a string's
  length are not modelled: U+0130 lowers to "i" followed by a combining
  dot in Python and is left unchanged here. So the Gemini variant's stored
  answers and confirmations can differ from Python's for such text. The
  Ollama variant's normalized answers cannot, because every character that
  lowers into a synonym word is covered.
