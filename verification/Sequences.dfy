/** What several modules need of sequences and numbers. */
module Sequences {

  /** The stream that a run of chunks makes up. */
  function Flatten<T>(chunks: seq<seq<T>>): seq<T> {
    if chunks == [] then [] else chunks[0] + Flatten(chunks[1..])
  }

  function Min(a: nat, b: nat): nat {
    if a < b then a else b
  }
}
