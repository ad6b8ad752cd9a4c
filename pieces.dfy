/** Pieces of the puzzle game: a type letter and a numeric identifier. */
module Pieces {

  /** A piece (struct Peca): its type letter and its identifier. */
  datatype Piece = Piece(kind: char, id: int)

  /** The seven type letters the generator draws from. */
  const Kinds: seq<char> := ['I', 'O', 'T', 'L', 'J', 'S', 'Z']

  /** The type letter the generator picks for a draw `roll` of the random
      number generator: the draw reduced modulo the number of letters. */
  function KindForRoll(roll: nat): (k: char)
    ensures k in Kinds
  {
    Kinds[roll % |Kinds|]
  }

  /** No two pieces of `s` share an identifier. */
  ghost predicate DistinctIds(s: seq<Piece>)
  {
    forall i, j :: 0 <= i < j < |s| ==> s[i].id != s[j].id
  }

  /** Every piece of `s` has an identifier below `bound`. */
  ghost predicate IdsBelow(s: seq<Piece>, bound: int)
  {
    forall i :: 0 <= i < |s| ==> s[i].id < bound
  }

  /** Distinct identifiers tell pieces apart: two positions hold different pieces. */
  lemma DistinctIdsDistinctPieces(s: seq<Piece>, i: int, j: int)
    requires DistinctIds(s)
    requires 0 <= i < |s| && 0 <= j < |s| && i != j
    ensures s[i] != s[j]
  {
  }

  /** Appending a piece whose identifier exceeds every identifier already
      present keeps the identifiers distinct and bounded by the next one. */
  lemma {:induction false} AppendFresh(s: seq<Piece>, p: Piece)
    requires DistinctIds(s) && IdsBelow(s, p.id)
    ensures DistinctIds(s + [p]) && IdsBelow(s + [p], p.id + 1)
  {
    var t := s + [p];
    forall i, j | 0 <= i < j < |t| ensures t[i].id != t[j].id {
      if j == |s| {
        assert t[i] == s[i] && t[j] == p;
      } else {
        assert t[i] == s[i] && t[j] == s[j];
      }
    }
  }
}
