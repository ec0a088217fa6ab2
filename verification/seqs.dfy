/** Generic facts about sequences, stated once so that the proofs about the
    chunker can cite them instead of re-deriving them. */
module Seqs {
  /** Moving the head of `rest` onto the end of `front` keeps their
      concatenation. */
  lemma ShiftHead<T>(front: seq<T>, rest: seq<T>)
    requires |rest| > 0
    ensures front + [rest[0]] + rest[1..] == front + rest
    ensures [rest[0]] + rest[1..] == rest
  {
  }

  /** If no element of `rest` is empty, no element of `[x] + rest` past the
      first is. */
  lemma NonEmptyAfterHead<T>(xs: seq<seq<T>>, x: seq<T>, rest: seq<seq<T>>)
    requires xs == [x] + rest
    requires forall c :: c in rest ==> c != []
    ensures forall i :: 1 <= i < |xs| ==> xs[i] != []
  {
    forall i | 1 <= i < |xs|
      ensures xs[i] != []
    {
      assert xs[i] == rest[i - 1];
      assert rest[i - 1] in rest;
    }
  }

  lemma SecondIsHeadOfRest<T>(xs: seq<T>, x: T, rest: seq<T>)
    requires xs == [x] + rest && |rest| > 0
    ensures |xs| >= 2 && xs[0] == x && xs[1] == rest[0]
  {
  }

  lemma NoneEmpty<T>(xs: seq<seq<T>>)
    requires forall c :: c in xs ==> c != []
    ensures forall i :: 0 <= i < |xs| ==> xs[i] != []
  {
    forall i | 0 <= i < |xs|
      ensures xs[i] != []
    {
      assert xs[i] in xs;
    }
  }

  lemma AppendNil<T>(a: seq<T>, b: seq<T>)
    requires b == []
    ensures a + b == a && b + a == a
  {
  }
}
