/** Joining the members of a sequence of sequences. */
module Sequences {

  function Flatten<T>(pieces: seq<seq<T>>): seq<T> {
    if pieces == [] then [] else pieces[0] + Flatten(pieces[1..])
  }

  lemma {:induction false} FlattenSnoc<T>(pieces: seq<seq<T>>, last: seq<T>)
    ensures Flatten(pieces + [last]) == Flatten(pieces) + last
  {
    if pieces == [] {
      assert pieces + [last] == [last] && [last][1..] == [];
    } else {
      FlattenSnoc(pieces[1..], last);
      assert (pieces + [last])[1..] == pieces[1..] + [last];
    }
  }
}
