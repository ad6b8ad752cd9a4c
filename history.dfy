/** The history of played pieces: an array of `LogCap` slots filled from the
    start, with a count of the slots in use. */
module PlayHistory {
  import opened Pieces

  /** Capacity of the history (MAX_HISTORICO). */
  const LogCap: nat := 100

  /** The history after recording `p`: appended while there is room, dropped
      silently once the history holds `LogCap` pieces. */
  ghost function Logged(h: seq<Piece>, p: Piece): (r: seq<Piece>)
  {
    if |h| < LogCap then h + [p] else h
  }

  /** The array `historico` and its count `contador_historico`. */
  class PlayLog {
    const entries: array<Piece>
    var count: int

    ghost predicate Valid()
      reads this
    {
      entries.Length == LogCap && 0 <= count <= LogCap
    }

    /** The recorded pieces, oldest first. */
    ghost function Contents(): (h: seq<Piece>)
      requires Valid()
      reads this, entries
      ensures |h| == count
    {
      entries[..count]
    }

    /** The empty history the program starts with. */
    constructor ()
      ensures Valid() && fresh(entries)
      ensures count == 0 && Contents() == []
    {
      entries := new Piece[LogCap](_ => Piece('\0', 0));
      count := 0;
    }

    /** Records `p` while the history has room; a full history is left as it is. */
    method Record(p: Piece)
      requires Valid()
      modifies this, entries
      ensures Valid()
      ensures count == if old(count) < LogCap then old(count) + 1 else old(count)
      ensures Contents() == Logged(old(Contents()), p)
    {
      if count < LogCap {
        entries[count] := p;
        count := count + 1;
        assert Contents() == old(Contents()) + [p];
      }
    }
  }

  /** A history that records a piece grows by one piece exactly while it
      has room, keeps everything recorded before, and never exceeds `LogCap`. */
  lemma LoggedBounded(h: seq<Piece>, p: Piece)
    requires |h| <= LogCap
    ensures |Logged(h, p)| <= LogCap
    ensures |Logged(h, p)| == if |h| < LogCap then |h| + 1 else |h|
    ensures Logged(h, p)[..|h|] == h
    ensures |h| < LogCap ==> Logged(h, p)[|h|] == p
  {
  }
}
