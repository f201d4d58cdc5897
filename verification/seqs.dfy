/** Sequences seen as sets, shared by the sweep and the subset enumeration. */
module Seqs {

  /** The values occurring in `s`. */
  ghost function Elements<T>(s: seq<T>): set<T> {
    set x | x in s
  }
}
