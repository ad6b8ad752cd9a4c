/** The piece queue of the game and the history of played pieces, kept in two
    fixed arrays with their indices and counters, and the operations the menu
    offers on them. */
module Tetris {
  import opened Pieces
  import opened Ring
  import opened PlayHistory

  /** The refusals the operations report. */
  datatype Error =
    | QueueEmpty       // nothing to play or remove
    | QueueFull        // no room to insert
    | TooFewPieces     // a swap needs at least two pieces
    | InvalidPosition  // a position outside 1 .. count

  datatype Result<T> = Ok(value: T) | Err(error: Error)

  /** The queue left by removing logical position `i` as the shifting loop
      does it: when the queue is full and the front is removed, the loop
      starts on the back index and moves nothing, so the queue merely loses
      its last element; otherwise position `i` is deleted. */
  ghost function RemovedAsWritten(s: seq<Piece>, i: int): (r: seq<Piece>)
    requires 0 <= i < |s|
  {
    if |s| == Cap && i == 0 then s[..|s| - 1] else Deleted(s, i)
  }

  /** The global state of the game: the circular queue `ring` (fila) read
      from `front` (frente) for `count` (contador_pecas) pieces, with `back`
      (fim) the next free slot; the identifier counter `nextId` (proximo_id);
      and the history `log` of played pieces. */
  class PieceSupply {
    const ring: array<Piece>
    var front: int
    var back: int
    var count: int
    var nextId: int
    const log: PlayLog

    /** The index and counter invariant of the circular queue. */
    ghost predicate Shape()
      reads this
    {
      ring.Length == Cap &&
      0 <= front < Cap && 0 <= back < Cap && 0 <= count <= Cap &&
      back == Slot(front, count)
    }

    /** The pieces waiting in the queue, front first, as the display walks them. */
    ghost function Queue(): (q: seq<Piece>)
      requires Shape()
      reads this, ring
      ensures |q| == count
    {
      View(ring[..], front, count)
    }

    /** The object invariant: the queue's shape, the history's bounds, and
        every queued piece carries its own identifier, below the next one to
        hand out. */
    ghost predicate Valid()
      reads this, ring, log
    {
      Shape() && log.Valid() && ring != log.entries &&
      DistinctIds(Queue()) && IdsBelow(Queue(), nextId)
    }

    /** The state before the queue is filled: all indices and counters zero. */
    constructor ()
      ensures Valid() && fresh(ring) && fresh(log) && fresh(log.entries)
      ensures front == 0 && back == 0 && count == 0 && nextId == 0
      ensures Queue() == [] && log.Contents() == []
    {
      ring := new Piece[Cap](_ => Piece('\0', 0));
      log := new PlayLog();
      front, back, count, nextId := 0, 0, 0, 0;
    }

    /** The walk of the display over the queue: from `front`, `count` pieces,
        stepping the index with wrap-around; an empty queue shows nothing. */
    method Snapshot() returns (s: seq<Piece>)
      requires Valid()
      ensures s == Queue()
    {
      s := [];
      if count == 0 {
        return;
      }
      var i := front;
      var shown := 0;
      while shown < count
        invariant 0 <= shown <= count
        invariant i == Slot(front, shown)
        invariant s == Queue()[..shown]
      {
        s := s + [ring[i]];
        SlotSucc(front, shown);
        i := (i + 1) % Cap;
        shown := shown + 1;
      }
    }

    /** Generates a piece: the type letter picked by the draw `roll`, and the
        next identifier, which is consumed. */
    method NextPiece(roll: nat) returns (p: Piece)
      modifies this`nextId
      ensures p == Piece(KindForRoll(roll), old(nextId))
      ensures nextId == old(nextId) + 1
    {
      p := Piece(KindForRoll(roll), nextId);
      nextId := nextId + 1;
    }

    /** Fills the empty queue to capacity with generated pieces, the `k`-th
        drawn with `rolls[k]`; the identifiers handed out are consecutive. */
    method Initialize(rolls: seq<nat>)
      requires Valid() && count == 0
      requires |rolls| == Cap
      modifies this, ring
      ensures Valid()
      ensures front == old(front) && back == front && count == Cap
      ensures nextId == old(nextId) + Cap
      ensures Queue() == seq(Cap, k requires 0 <= k < Cap => Piece(KindForRoll(rolls[k]), old(nextId) + k))
    {
      ghost var firstId := nextId;
      var i := 0;
      while i < Cap
        invariant 0 <= i <= Cap
        invariant Shape() && front == old(front)
        invariant count == i && nextId == firstId + i
        invariant Queue() == seq(i, k requires 0 <= k < i => Piece(KindForRoll(rolls[k]), firstId + k))
      {
        ghost var before := ring[..];
        var p := NextPiece(rolls[i]);
        ring[back] := p;
        ViewEnqueue(before, front, count, p);
        SlotSucc(front, count);
        back := (back + 1) % Cap;
        count := count + 1;
        i := i + 1;
      }
    }

    /** Plays the front piece: removes it from the queue and records it. */
    method Play() returns (r: Result<Piece>)
      requires Valid()
      modifies this, log, log.entries
      ensures Valid()
      ensures old(count) == 0 <==> r == Err(QueueEmpty)
      ensures r.Ok? <==> old(count) > 0
      ensures r.Err? ==> unchanged(this) && unchanged(log) && unchanged(log.entries)
      ensures r.Ok? ==> r.value == old(Queue())[0] && Queue() == old(Queue())[1..]
      ensures r.Ok? ==> front == Slot(old(front), 1) && back == old(back) && count == old(count) - 1
      ensures r.Ok? ==> log.Contents() == Logged(old(log.Contents()), r.value)
      ensures nextId == old(nextId)
    {
      if count == 0 {
        return Err(QueueEmpty);
      }
      ViewDequeue(ring[..], front, count);
      var played := ring[front];
      front := (front + 1) % Cap;
      count := count - 1;
      SlotAdvance(old(front), count);
      log.Record(played);
      r := Ok(played);
    }

    /** Inserts a generated piece, typed by the draw `roll`, at the back. */
    method InsertRandom(roll: nat) returns (r: Result<Piece>)
      requires Valid()
      modifies this, ring
      ensures Valid()
      ensures old(count) == Cap <==> r == Err(QueueFull)
      ensures r.Ok? <==> old(count) < Cap
      ensures r.Err? ==> unchanged(this) && unchanged(ring)
      ensures r.Ok? ==> r.value == Piece(KindForRoll(roll), old(nextId))
      ensures r.Ok? ==> forall q :: q in old(Queue()) ==> q.id < r.value.id
      ensures r.Ok? ==> Queue() == old(Queue()) + [r.value] && nextId == old(nextId) + 1
      ensures r.Ok? ==> front == old(front) && count == old(count) + 1
    {
      if count == Cap {
        return Err(QueueFull);
      }
      var p := NextPiece(roll);
      Enqueue(p);
      r := Ok(p);
    }

    /** Inserts a piece of the caller's type `kind` at the back. Any character
        is accepted: nothing checks it against the seven type letters. */
    method InsertTyped(kind: char) returns (r: Result<Piece>)
      requires Valid()
      modifies this, ring
      ensures Valid()
      ensures old(count) == Cap <==> r == Err(QueueFull)
      ensures r.Ok? <==> old(count) < Cap
      ensures r.Err? ==> unchanged(this) && unchanged(ring)
      ensures r.Ok? ==> r.value == Piece(kind, old(nextId))
      ensures r.Ok? ==> forall q :: q in old(Queue()) ==> q.id < r.value.id
      ensures r.Ok? ==> Queue() == old(Queue()) + [r.value] && nextId == old(nextId) + 1
      ensures r.Ok? ==> front == old(front) && count == old(count) + 1
    {
      if count == Cap {
        return Err(QueueFull);
      }
      var p := Piece(kind, nextId);
      nextId := nextId + 1;
      Enqueue(p);
      r := Ok(p);
    }

    /** Writes `p`, whose identifier was just consumed, into the back slot. */
    method Enqueue(p: Piece)
      requires Shape() && log.Valid() && ring != log.entries && count < Cap
      requires DistinctIds(Queue()) && IdsBelow(Queue(), p.id) && nextId == p.id + 1
      modifies this`back, this`count, ring
      ensures Valid()
      ensures Queue() == old(Queue()) + [p]
      ensures count == old(count) + 1
    {
      AppendFresh(Queue(), p);
      ViewEnqueue(ring[..], front, count, p);
      SlotSucc(front, count);
      ring[back] := p;
      back := (back + 1) % Cap;
      count := count + 1;
    }

    /** Exchanges the pieces at the 1-based logical positions `pos1` and `pos2`. */
    method Swap(pos1: int, pos2: int) returns (r: Result<()>)
      requires Valid()
      modifies ring
      ensures Valid()
      ensures count < 2 <==> r == Err(TooFewPieces)
      ensures 2 <= count && !(1 <= pos1 <= count && 1 <= pos2 <= count) <==> r == Err(InvalidPosition)
      ensures r.Ok? <==> 2 <= count && 1 <= pos1 <= count && 1 <= pos2 <= count
      ensures r.Err? ==> unchanged(ring)
      ensures r.Ok? ==> Queue() == Swapped(old(Queue()), pos1 - 1, pos2 - 1)
    {
      if count < 2 {
        return Err(TooFewPieces);
      }
      if pos1 < 1 || pos2 < 1 || pos1 > count || pos2 > count {
        return Err(InvalidPosition);
      }
      ghost var q0 := Queue();
      ExchangeSlots(pos1, pos2);
      SwapKeepsIds(q0, pos1 - 1, pos2 - 1, nextId);
      r := Ok(());
    }

    /** The exchange itself, once both positions are known to be valid: the
        two slots are read from the front with wrap-around and swapped
        through a temporary. */
    method ExchangeSlots(pos1: int, pos2: int)
      requires Shape() && 1 <= pos1 <= count && 1 <= pos2 <= count
      modifies ring
      ensures Queue() == Swapped(old(Queue()), pos1 - 1, pos2 - 1)
    {
      ghost var q0 := Queue();
      ghost var r0 := ring[..];
      var idx1 := (front + pos1 - 1) % Cap;
      var idx2 := (front + pos2 - 1) % Cap;
      var temp := ring[idx1];
      ring[idx1] := ring[idx2];
      ring[idx2] := temp;
      assert Queue() == Swapped(q0, pos1 - 1, pos2 - 1) by {
        assert ring[..] == r0[idx1 := r0[idx2]][idx2 := r0[idx1]];
        ViewSwap(r0, front, count, pos1 - 1, pos2 - 1);
      }
    }

    /** Removes the piece at the 1-based logical position `pos` by shifting
        the later pieces one slot towards the front, as written: the loop runs
        from the removed slot until it reaches the back index. */
    method RemoveAt(pos: int) returns (r: Result<Piece>)
      requires Valid()
      modifies this, ring, log, log.entries
      ensures Valid()
      ensures old(count) == 0 <==> r == Err(QueueEmpty)
      ensures 0 < old(count) && !(1 <= pos <= old(count)) <==> r == Err(InvalidPosition)
      ensures r.Ok? <==> 1 <= pos <= old(count)
      ensures r.Err? ==> unchanged(this) && unchanged(ring) && unchanged(log) && unchanged(log.entries)
      ensures r.Ok? ==> r.value == old(Queue())[pos - 1]
      ensures r.Ok? ==> Queue() == RemovedAsWritten(old(Queue()), pos - 1)
      ensures r.Ok? ==> front == old(front) && count == old(count) - 1
      ensures r.Ok? ==> log.Contents() == Logged(old(log.Contents()), r.value)
      ensures nextId == old(nextId)
    {
      if count == 0 {
        return Err(QueueEmpty);
      }
      if pos < 1 || pos > count {
        return Err(InvalidPosition);
      }
      var removed := RemoveExisting(pos);
      r := Ok(removed);
    }

    /** The removal itself, once `pos` is known to be a valid position: the
        piece at `pos` is read, the later pieces are shifted over it, the
        back index recedes with wrap-around, and the piece is recorded. */
    method RemoveExisting(pos: int) returns (removed: Piece)
      requires Valid() && 1 <= pos <= count
      modifies this, ring, log, log.entries
      ensures Valid()
      ensures removed == old(Queue())[pos - 1]
      ensures Queue() == RemovedAsWritten(old(Queue()), pos - 1)
      ensures front == old(front) && count == old(count) - 1 && nextId == old(nextId)
      ensures log.Contents() == Logged(old(log.Contents()), removed)
    {
      ghost var q0 := Queue();
      var idx := (front + pos - 1) % Cap;
      removed := ring[idx];
      assert removed == q0[pos - 1];
      ShiftTowardsFront(pos - 1, idx);
      back := (back - 1 + Cap) % Cap;
      count := count - 1;
      assert back == Slot(front, count) by {
        SlotRecede(front, count + 1);
      }
      assert Queue() == RemovedAsWritten(q0, pos - 1);
      assert DistinctIds(Queue()) && IdsBelow(Queue(), nextId) by {
        RemovedKeepsIds(q0, pos - 1, nextId);
      }
      log.Record(removed);
    }

    /** The shifting loop of the removal: from slot `idx`, which holds
        logical position `p`, each slot takes its successor's piece until the
        successor is the back index. The loop condition is tested first, so a
        full queue whose front is removed (the removed slot is the back index)
        is left as it was. */
    method ShiftTowardsFront(ghost p: int, idx: int)
      requires Shape() && 0 <= p < count && idx == Slot(front, p)
      modifies ring
      ensures View(ring[..], front, count - 1) == RemovedAsWritten(View(old(ring[..]), front, count), p)
    {
      var f, n, bk := front, count, back;
      ghost var v0 := View(ring[..], f, Cap);
      ghost var q0 := View(old(ring[..]), f, n);
      ViewPrefix(ring[..], f, n);
      ShiftedStart(v0, p);
      ghost var j := p;
      var i := idx;
      SlotHitsEnd(f, j, n);
      while i != bk
        invariant p <= j < n
        invariant i == Slot(f, j)
        invariant i == bk <==> n == Cap && j == 0
        invariant n == Cap && p == 0 ==> i == bk
        invariant View(ring[..], f, Cap) == Shifted(v0, p, j)
        decreases n - j
      {
        var next := (i + 1) % Cap;
        SlotSucc(f, j);
        ghost var r0 := ring[..];
        ghost var x := ring[next];
        ring[i] := ring[next];
        assert View(ring[..], f, Cap) == Shifted(v0, p, j)[j := x] by {
          assert ring[..] == r0[Slot(f, j) := x];
          ViewWrite(r0, f, j, x);
        }
        if j + 1 < n {
          SlotHitsEnd(f, j + 1, n);
        }
        if next == bk {
          // j is the last position: the first n - 1 are final
          assert View(ring[..], f, n - 1) == Deleted(q0, p) by {
            assert j + 1 == n;
            ShiftedDone(v0, p, j, x);
            ViewPrefix(ring[..], f, n - 1);
          }
          assert !(n == Cap && p == 0);
          assert View(ring[..], f, n - 1) == RemovedAsWritten(q0, p);
          break;
        }
        assert View(ring[..], f, Cap) == Shifted(v0, p, j + 1) by {
          ShiftedStep(v0, p, j);
          assert x == View(r0, f, Cap)[j + 1];
        }
        i := next;
        j := j + 1;
        SlotHitsEnd(f, j, n);
      }
      if i == bk {
        // the loop condition failed at once: nothing moved
        assert View(ring[..], f, n - 1) == RemovedAsWritten(q0, p) by {
          assert n == Cap && p == 0 && j == 0;
          assert View(ring[..], f, Cap) == v0;
          ViewShrink(ring[..], f, n);
        }
      }
    }

    /** The removal as evidently intended: the same guards, then the pieces
        after `pos` move one place towards the front, the loop being bounded
        by the count rather than by the back index. */
    method RemoveAtIntended(pos: int) returns (r: Result<Piece>)
      requires Valid()
      modifies this, ring, log, log.entries
      ensures Valid()
      ensures old(count) == 0 <==> r == Err(QueueEmpty)
      ensures 0 < old(count) && !(1 <= pos <= old(count)) <==> r == Err(InvalidPosition)
      ensures r.Ok? <==> 1 <= pos <= old(count)
      ensures r.Err? ==> unchanged(this) && unchanged(ring) && unchanged(log) && unchanged(log.entries)
      ensures r.Ok? ==> r.value == old(Queue())[pos - 1]
      ensures r.Ok? ==> Queue() == Deleted(old(Queue()), pos - 1)
      ensures r.Ok? ==> front == old(front) && count == old(count) - 1
      ensures r.Ok? ==> log.Contents() == Logged(old(log.Contents()), r.value)
      ensures nextId == old(nextId)
    {
      if count == 0 {
        return Err(QueueEmpty);
      }
      if pos < 1 || pos > count {
        return Err(InvalidPosition);
      }
      ghost var q0 := Queue();
      var removed := ring[(front + pos - 1) % Cap];
      assert removed == q0[pos - 1];
      CloseGap(pos - 1);
      back := (back - 1 + Cap) % Cap;
      count := count - 1;
      assert back == Slot(front, count) by {
        SlotRecede(front, count + 1);
      }
      assert DistinctIds(Queue()) && IdsBelow(Queue(), nextId) by {
        DeletedKeepsIds(q0, pos - 1, nextId);
      }
      log.Record(removed);
      r := Ok(removed);
    }

    /** Moves each piece after logical position `p` one place towards the
        front, for the `count - 1 - p` positions that follow it. */
    method CloseGap(p: int)
      requires Shape() && 0 <= p < count
      modifies ring
      ensures View(ring[..], front, count - 1) == Deleted(View(old(ring[..]), front, count), p)
    {
      ghost var v0 := View(ring[..], front, Cap);
      ghost var q0 := View(old(ring[..]), front, count);
      ViewPrefix(ring[..], front, count);
      ShiftedStart(v0, p);
      var k := p;
      while k < count - 1
        invariant p <= k <= count - 1
        invariant View(ring[..], front, Cap) == Shifted(v0, p, k)
      {
        ghost var r0 := ring[..];
        var x := ring[(front + k + 1) % Cap];
        ring[(front + k) % Cap] := x;
        assert View(ring[..], front, Cap) == Shifted(v0, p, k + 1) by {
          assert ring[..] == r0[Slot(front, k) := x];
          ViewWrite(r0, front, k, x);
          ShiftedStep(v0, p, k);
          assert x == View(r0, front, Cap)[k + 1];
        }
        k := k + 1;
      }
      assert View(ring[..], front, count - 1) == Deleted(q0, p) by {
        ViewPrefix(ring[..], front, count - 1);
        ShiftedDone(v0, p, k, v0[k]);
      }
    }
  }

  /** Exchanging two pieces keeps the identifiers distinct and bounded. */
  lemma SwapKeepsIds(s: seq<Piece>, i: int, j: int, bound: int)
    requires 0 <= i < |s| && 0 <= j < |s|
    requires DistinctIds(s) && IdsBelow(s, bound)
    ensures DistinctIds(Swapped(s, i, j)) && IdsBelow(Swapped(s, i, j), bound)
  {
    var t := Swapped(s, i, j);
    // position a of t holds the piece that s had at position oa
    forall a, b | 0 <= a < b < |t| ensures t[a].id != t[b].id {
      var oa := if a == j then i else if a == i then j else a;
      var ob := if b == j then i else if b == i then j else b;
      assert t[a] == s[oa] && t[b] == s[ob];
      assert oa != ob;
    }
  }

  /** Either outcome of the removal keeps the identifiers distinct and bounded:
      both are sub-sequences of the old queue. */
  lemma RemovedKeepsIds(s: seq<Piece>, i: int, bound: int)
    requires 0 <= i < |s|
    requires DistinctIds(s) && IdsBelow(s, bound)
    ensures DistinctIds(RemovedAsWritten(s, i)) && IdsBelow(RemovedAsWritten(s, i), bound)
  {
    var t := RemovedAsWritten(s, i);
    if !(|s| == Cap && i == 0) {
      forall a, b | 0 <= a < b < |t| ensures t[a].id != t[b].id {
        var oa := if a < i then a else a + 1;
        var ob := if b < i then b else b + 1;
        assert t[a] == s[oa] && t[b] == s[ob];
      }
    }
  }

  /** Deleting one piece keeps the identifiers distinct and bounded. */
  lemma DeletedKeepsIds(s: seq<Piece>, i: int, bound: int)
    requires 0 <= i < |s|
    requires DistinctIds(s) && IdsBelow(s, bound)
    ensures DistinctIds(Deleted(s, i)) && IdsBelow(Deleted(s, i), bound)
  {
    var t := Deleted(s, i);
    forall a, b | 0 <= a < b < |t| ensures t[a].id != t[b].id {
      var oa := if a < i then a else a + 1;
      var ob := if b < i then b else b + 1;
      assert t[a] == s[oa] && t[b] == s[ob];
    }
  }

  /** Removing the front of a full queue as written: the piece handed to the
      history stays at the front of the queue, and the back piece, which was
      not removed, is gone from it; the intended removal keeps every other
      piece. */
  lemma {:induction false} FullFrontRemovalLosesBack(s: seq<Piece>)
    requires |s| == Cap && DistinctIds(s)
    ensures RemovedAsWritten(s, 0) != Deleted(s, 0)
    ensures RemovedAsWritten(s, 0)[0] == s[0]
    ensures s[Cap - 1] !in RemovedAsWritten(s, 0)
    ensures s[0] !in Deleted(s, 0) && s[Cap - 1] in Deleted(s, 0)
  {
    var w := RemovedAsWritten(s, 0);
    DistinctIdsDistinctPieces(s, 0, 1);
    assert w[0] == s[0] && Deleted(s, 0)[0] == s[1];
    forall k | 0 <= k < Cap - 1 ensures w[k] != s[Cap - 1] {
      DistinctIdsDistinctPieces(s, k, Cap - 1);
    }
    forall k | 0 <= k < Cap - 1 ensures Deleted(s, 0)[k] != s[0] {
      DistinctIdsDistinctPieces(s, k + 1, 0);
    }
    assert Deleted(s, 0)[Cap - 2] == s[Cap - 1];
  }

  /** Start-up as the program does it: the global state with every counter at
      zero, then the queue filled with `Cap` generated pieces drawn with
      `rolls`, whose identifiers are 0 to Cap - 1 in order. */
  method Start(rolls: seq<nat>) returns (game: PieceSupply)
    requires |rolls| == Cap
    ensures fresh(game) && fresh(game.ring) && fresh(game.log) && fresh(game.log.entries)
    ensures game.Valid()
    ensures game.front == 0 && game.back == 0 && game.count == Cap && game.nextId == Cap
    ensures forall k :: 0 <= k < Cap ==> game.Queue()[k] == Piece(KindForRoll(rolls[k]), k)
    ensures game.log.Contents() == []
  {
    game := new PieceSupply();
    game.Initialize(rolls);
  }
}
