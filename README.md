# Piece supply of the block-stacking game (tetris_mestre.c)

This project models the supply of upcoming pieces in a text-mode
block-stacking game, and proves properties of that model. The game is written
in C and keeps its state in global variables.

A piece (`Peca`) has a type letter and a numeric identifier. The upcoming
pieces wait in a circular queue: an array `fila` of 10 slots, read from the
index `frente` for `contador_pecas` pieces, with `fim` the next free slot.
Identifiers come from the counter `proximo_id`. Pieces that leave the queue,
by being played or by being removed from a position, are recorded in the
history `historico`, an array of 100 slots with the count
`contador_historico`. Once the history is full, further pieces are not
recorded.

The model is imperative, like the C code:

- `Tetris.PieceSupply` is a class holding the queue array, the three queue
  counters and the identifier counter.
- `PlayHistory.PlayLog` is a class holding the history array and its count.
- Each operation of the game is a method that updates these fields and
  arrays in place.
- Each method is proved against the logical queue. The logical queue is the
  ghost sequence `Queue()`: the `count` slots read from `front` with
  wrap-around, as the display walks them. The history is proved against the
  ghost sequence `Contents()`.

Where the C code reads input, the model takes a parameter instead:

- the draw `rand()` becomes a `roll: nat`;
- the typed letter becomes a `kind: char`;
- the positions become `int` parameters.

The range checks on those values are modelled as written. An operation that
the C code refuses (after printing a message) returns an `Err` with the
reason and changes nothing.

Files:

- `pieces.dfy` (module `Pieces`): the piece, the seven type letters, and the
  identifier predicates.
- `ring.dfy` (module `Ring`): the circular index arithmetic and the logical
  view of a buffer. It also defines the sequence operations the queue
  operations are proved against: exchange, deletion, and a partly closed
  gap.
- `history.dfy` (module `PlayHistory`): the bounded history.
- `supply.dfy` (module `Tetris`): the queue, its operations, and start-up.

The object invariant `Valid()` is the index invariant of the queue:

- `0 <= front, back < 10`;
- `0 <= count <= 10`;
- `back == (front + count) % 10`.

It also includes the bounds of the history, and requires that the pieces in
the queue carry distinct identifiers, all below `nextId`. Every operation
preserves it.

## Model

| member | source | states |
|---|---|---|
| Pieces.KindForRoll | tetris_mestre.c:107-110 | the type letter picked for any draw is one of the seven letters I, O, T, L, J, S, Z |
| Pieces.DistinctIdsDistinctPieces | tetris_mestre.c:31-34 | helper: in a sequence whose identifiers are distinct, two different positions hold different pieces |
| Pieces.AppendFresh | tetris_mestre.c:107-112 | appending a piece whose identifier exceeds every identifier present keeps the identifiers distinct and bounded by the next identifier |
| Ring.Slot | tetris_mestre.c:217-218 | the physical slot of a logical position, taken modulo the capacity, is always a valid index of the 10-slot array |
| Ring.SlotInjective | tetris_mestre.c:133-142 | different logical positions of a queue live in different physical slots |
| Ring.SlotAdvance | tetris_mestre.c:165 | advancing the front index by one (with wrap-around) shifts every logical position by one |
| Ring.SlotSucc | tetris_mestre.c:120 | stepping a slot index by one modulo the capacity reaches the next logical position |
| Ring.SlotRecede | tetris_mestre.c:245 | receding the back index by one (adding the capacity before the modulo) reaches the previous logical position |
| Ring.SlotHitsEnd | tetris_mestre.c:240-243 | the slot of a logical position inside the queue equals the back index exactly when the queue is full and the position is the front |
| Ring.ViewPrefix | tetris_mestre.c:133-142 | reading fewer slots from the front gives a prefix of the longer reading |
| Ring.ViewWrite | tetris_mestre.c:242 | writing one physical slot changes exactly the matching logical position |
| Ring.ViewDequeue | tetris_mestre.c:164-166 | the piece at the front index is the logical head, and after advancing the front the queue reads as the old tail |
| Ring.ViewEnqueue | tetris_mestre.c:180-182 | writing the back slot and counting one more piece appends that piece to the logical queue |
| Ring.ViewSwap | tetris_mestre.c:217-221 | exchanging the slots of two logical positions exchanges those two logical elements and nothing else |
| Ring.ViewShrink | tetris_mestre.c:245-246 | counting one piece fewer drops the last logical element |
| Ring.ShiftedStart | tetris_mestre.c:240 | before the first step of the shifting loop nothing has moved |
| Ring.ShiftedStep | tetris_mestre.c:240-244 | one step of the loop, which copies the successor's piece into the current slot, extends the closed part of the gap by one position |
| Ring.ShiftedDone | tetris_mestre.c:240-244 | once the loop has reached the last position, the positions before it read as the old queue with the removed position deleted |
| Ring.DeletedSpec | tetris_mestre.c:237-246 | a deletion has one element fewer, keeps the elements before the position, moves each later element one place forward, and removes exactly the deleted piece from the multiset of pieces |
| Ring.SwappedSpec | tetris_mestre.c:217-221 | an exchange has the same length, swaps the two positions, leaves every other position alone, and is a permutation |
| Ring.SwapTwice | tetris_mestre.c:205-223 | exchanging the same two positions twice restores the original queue |
| PlayHistory.PlayLog.Contents | tetris_mestre.c:45-46 | the recorded pieces are as many as the history count |
| PlayHistory.PlayLog.constructor | tetris_mestre.c:45-46 | the history starts empty in an array of 100 slots |
| PlayHistory.PlayLog.Record | tetris_mestre.c:168-170 | recording appends the piece and increments the count while fewer than 100 pieces are recorded; a full history is left unchanged |
| PlayHistory.LoggedBounded | tetris_mestre.c:168-170 | recording never takes the history past 100 pieces, keeps everything recorded before, and adds the piece at the end exactly when there was room |
| Tetris.PieceSupply.Queue | tetris_mestre.c:133-142 | the logical queue holds exactly `count` pieces |
| Tetris.PieceSupply.constructor | tetris_mestre.c:39-46 | the initial state: all indices and counters zero, an empty queue and an empty history |
| Tetris.PieceSupply.Snapshot | tetris_mestre.c:125-144 | the display walk from `frente`, for `contador_pecas` steps with wrap-around, yields exactly the logical queue; an empty queue yields nothing |
| Tetris.PieceSupply.NextPiece | tetris_mestre.c:107-112 | a generated piece has the type letter of the draw and the current identifier, and the identifier counter moves on by one |
| Tetris.PieceSupply.Initialize | tetris_mestre.c:114-123 | filling the empty queue leaves it full, with front and back equal and position `k` holding the piece drawn with the `k`-th roll under identifier `old nextId + k`; the counter moves on by 10 and the invariant holds |
| Tetris.PieceSupply.Play | tetris_mestre.c:160-172 | fails exactly on an empty queue and then changes nothing; succeeds exactly on a non-empty queue, and then returns the old head, leaves the old tail as the queue, advances the front, and records the head in the history while it has room |
| Tetris.PieceSupply.InsertRandom | tetris_mestre.c:174-185 | fails exactly on a full queue and then changes nothing, not even the identifier counter; succeeds exactly on a queue with room, and then appends a piece with the drawn letter and the old counter as identifier, greater than every queued identifier, and the counter moves on by one; the history is untouched |
| Tetris.PieceSupply.InsertTyped | tetris_mestre.c:187-203 | as for the random insertion, with the caller's letter, which is not checked against the seven letters |
| Tetris.PieceSupply.Enqueue | tetris_mestre.c:180-182 | writing a fresh piece into the back slot appends it to the logical queue and keeps the invariant |
| Tetris.PieceSupply.Swap | tetris_mestre.c:205-223 | fails with too few pieces exactly when fewer than two are queued, and with an invalid position exactly when a position is outside 1..count, changing nothing; succeeds exactly when both positions are in range on two or more pieces, and then the logical queue is the old one with positions `pos1-1` and `pos2-1` exchanged; indices, counters and history are untouched |
| Tetris.PieceSupply.ExchangeSlots | tetris_mestre.c:217-221 | the three-assignment exchange through a temporary exchanges the two logical positions |
| Tetris.PieceSupply.RemoveAt | tetris_mestre.c:225-251 | fails exactly on an empty queue or a position outside 1..count and then changes nothing; succeeds exactly for a position in 1..count, and then returns the piece at `pos-1`, leaves the front in place and one piece fewer, records the piece in the history while it has room, and leaves the queue as the removal as written: `pos-1` deleted, except that a full queue with `pos == 1` merely loses its last piece |
| Tetris.PieceSupply.RemoveExisting | tetris_mestre.c:237-249 | with a valid position: the piece read is the one at `pos-1`, the queue is the removal as written, the back index recedes, and the piece is recorded |
| Tetris.PieceSupply.ShiftTowardsFront | tetris_mestre.c:240-244 | the shifting loop, bounded by the back index with its early exit, terminates, and the first `count-1` logical positions then read as the removal as written |
| Tetris.PieceSupply.RemoveAtIntended | tetris_mestre.c:225-251 | the corrected removal: the same refusals, and success exactly for a position in 1..count; then the queue is the old one with `pos-1` deleted and every other piece in its original order, for every valid position, including the front of a full queue |
| Tetris.PieceSupply.CloseGap | tetris_mestre.c:240-244 | the corrected loop, bounded by the count, leaves the first `count-1` logical positions equal to the old queue with `p` deleted |
| Tetris.SwapKeepsIds | tetris_mestre.c:217-221 | exchanging two pieces keeps the identifiers distinct and below the counter |
| Tetris.RemovedKeepsIds | tetris_mestre.c:237-246 | the removal as written keeps the identifiers distinct and below the counter |
| Tetris.DeletedKeepsIds | tetris_mestre.c:237-246 | deleting one piece keeps the identifiers distinct and below the counter |
| Tetris.FullFrontRemovalLosesBack | tetris_mestre.c:237-248 | on a full queue with distinct pieces, removing position 1 as written differs from deleting it: the piece sent to the history is still at the front, and the back piece is gone; the intended deletion drops the front piece and keeps the back piece |
| Tetris.Start | tetris_mestre.c:66-69 | start-up from the initial globals followed by filling the queue gives a new game, with its arrays freshly allocated so that every operation can be called on it, and a full queue with front and back at 0, identifiers 0..9 in order with the drawn letters, the counter at 10, and an empty history |

## Left out

- Console output: the messages of every operation, the display of the
  queue (apart from the walk `Snapshot` models) and of the history
  (`exibirHistorico`), the menu `menuAcoes`, and the dispatch loop of
  `main`. These are presentation only.
- Terminal input: `scanf` and `limparBufferEntrada`. A failed or malformed
  read of a position is not modelled. It gives the same refusal as an out-of-range
  position and changes nothing. The skipped whitespace and an unread
  letter at end of input are not modelled either. The values read are parameters.
- The random generator: `srand(time(NULL))` and `rand()` are not modelled.
  Each draw is a parameter `roll`, and the letter is `Kinds[roll % 7]`.
- Tetris.PieceSupply.Initialize: requires an empty queue (`count == 0`).
  The only call is at start-up, from the initial globals. The C function
  has no guard, and on a non-empty queue it would overwrite pieces.
- Tetris.PieceSupply.NextPiece: the identifier counter is an unbounded
  integer. The 32-bit `int` overflow of `proximo_id` after 2^31 pieces is
  not modelled.
- Piece letters are `char` values. The C `char` is one byte, and the byte
  width is not modelled.
- The header comment of tetris_mestre.c (line 9) and the comment at
  line 239 describe removal at a position as closing the gap left by the
  removed piece, keeping the other pieces. The code does so except on a
  full queue at position 1; the model follows the code (see Findings).
- The prompt of the typed insertion (tetris_mestre.c:193) asks for one of
  the seven letters, but whatever character is read is stored; the model
  follows the code.

## Findings

| source | as written | input that shows it | evidently intended | confidence | as-written member | corrected member |
|---|---|---|---|---|---|---|
| tetris_mestre.c:237-246 | the shifting loop starts at the removed slot and runs while the index differs from `fim`; on a full queue `fim == frente`, so removing position 1 moves nothing, and `fim` still recedes: the removed piece stays at the front and the back piece is dropped | `contador_pecas == 10`, `pos == 1` (any `frente`) | delete position 1 and keep the other nine pieces in order | not executed | Tetris.FullFrontRemovalLosesBack | Tetris.PieceSupply.RemoveAtIntended |
