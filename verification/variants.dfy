/**
  Where the two variants part ways on the same console input: the Gemini
  variant compares the cleaned confirmation with "yes" literally, the
  Ollama variant normalizes it first, so a confirmation of "y" counts as
  correct in one and not in the other.
 */
module Variants {
  import opened Session
  import Wrappers
  import Text
  import Gemini
  import Ollama

  lemma ShortYesConfirmsOnlyInOllama(guess: string, name: string, history: History, timestamp: string)
    ensures var g := Gemini.Resolve(["y", name], guess, history, Wrappers.None, timestamp);
            g.Saved? && !g.store[0].wasCorrect && g.store[0].correctAnimal == Text.Strip(name)
    ensures var o := Ollama.Resolve(["y", name], guess, history, Wrappers.None, timestamp);
            o.Saved? && o.store[0].correctAnimal == guess
  {
    Ollama.ListedWordIsClean("y");
    assert Text.Clean("y") != "yes";
    assert Ollama.YesWords[3] == "y";
  }
}
