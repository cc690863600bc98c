/**
  The game-data file as a sequence of records: a file that does not exist
  reads as the empty sequence, and saving rewrites it with one record more.
 */
module Store {
  import opened Wrappers

  /** Reading the store; `None` is a file that does not exist yet. */
  function Load<R>(file: Option<seq<R>>): (r: seq<R>)
    ensures file.None? ==> r == []
    ensures file.Some? ==> r == file.value
  {
    file.GetOr([])
  }

  /** Load, append one record, write back: the earlier records are kept as they were. */
  function Append<R>(file: Option<seq<R>>, rec: R): (r: seq<R>)
    ensures |r| == |Load(file)| + 1
    ensures r[..|r| - 1] == Load(file)
    ensures r[|r| - 1] == rec
  {
    Load(file) + [rec]
  }

  /** The store after one completed game per element of `recs`, played in order. */
  function SaveAll<R>(file: Option<seq<R>>, recs: seq<R>): seq<R>
    decreases |recs|
  {
    if recs == [] then Load(file) else SaveAll(Some(Append(file, recs[0])), recs[1..])
  }

  /** Every completed game adds exactly its own record, at the end, in play order. */
  lemma {:induction false} SaveAllAppendsInOrder<R>(file: Option<seq<R>>, recs: seq<R>)
    ensures SaveAll(file, recs) == Load(file) + recs
    decreases |recs|
  {
    if recs != [] {
      SaveAllAppendsInOrder(Some(Append(file, recs[0])), recs[1..]);
      assert Load(file) + [recs[0]] + recs[1..] == Load(file) + recs;
    }
  }
}
