/** The circular layout of the piece queue: a fixed array of `Cap` slots read
    from a front index, so that logical position k lives in physical slot
    (front + k) mod Cap. */
module Ring {

  /** Capacity of the queue (MAX_PEÇAS_MESTRE). */
  const Cap: nat := 10

  /** The physical slot of logical position `k` when the queue starts at `front`. */
  function Slot(front: int, k: int): (i: int)
    ensures 0 <= i < Cap
  {
    (front + k) % Cap
  }

  /** The logical queue: the `n` slots read from `front` onwards, wrapping
      around the end of the buffer. */
  ghost function View<T>(buf: seq<T>, front: int, n: int): (r: seq<T>)
    requires |buf| == Cap && 0 <= front < Cap && 0 <= n <= Cap
  {
    seq(n, k requires 0 <= k < n => buf[Slot(front, k)])
  }

  /** `s` with the elements at positions `i` and `j` exchanged. */
  ghost function Swapped<T>(s: seq<T>, i: int, j: int): (r: seq<T>)
    requires 0 <= i < |s| && 0 <= j < |s|
  {
    s[i := s[j]][j := s[i]]
  }

  /** `s` without its element at position `i`. */
  ghost function Deleted<T>(s: seq<T>, i: int): (r: seq<T>)
    requires 0 <= i < |s|
  {
    s[..i] + s[i + 1..]
  }

  /** `s` part-way through closing the gap at `p`: positions `p .. m-1` hold
      their successors' elements, every other position its own. */
  ghost function Shifted<T>(s: seq<T>, p: int, m: int): (r: seq<T>)
    requires 0 <= p <= m < |s|
  {
    s[..p] + s[p + 1..m + 1] + s[m..]
  }

  /** Distinct logical positions of a queue live in distinct physical slots. */
  lemma SlotInjective(front: int, a: int, b: int)
    requires 0 <= front < Cap && 0 <= a < Cap && 0 <= b < Cap
    requires Slot(front, a) == Slot(front, b)
    ensures a == b
  {
  }

  /** Moving the front one slot forward (with wrap-around) shifts every
      logical position by one. */
  lemma SlotAdvance(front: int, k: int)
    requires 0 <= front < Cap && 0 <= k
    ensures Slot(Slot(front, 1), k) == Slot(front, k + 1)
  {
  }

  /** The slot just past the last of `n` elements is where the next one goes. */
  lemma SlotSucc(front: int, k: int)
    requires 0 <= front < Cap && 0 <= k
    ensures (Slot(front, k) + 1) % Cap == Slot(front, k + 1)
  {
  }

  /** Stepping the back index one slot backwards (with wrap-around) gives the
      slot just past one element fewer. */
  lemma SlotRecede(front: int, k: int)
    requires 0 <= front < Cap && 0 < k
    ensures (Slot(front, k) - 1 + Cap) % Cap == Slot(front, k - 1)
  {
  }

  /** Logical position `k < n` falls on the slot just past the last of `n`
      elements only when the queue is full and `k` is its front. */
  lemma SlotHitsEnd(front: int, k: int, n: int)
    requires 0 <= front < Cap && 0 <= k < n <= Cap
    ensures Slot(front, k) == Slot(front, n) <==> n == Cap && k == 0
  {
  }

  /** The first `n` logical elements are a prefix of the whole ring read from `front`. */
  lemma ViewPrefix<T>(buf: seq<T>, front: int, n: int)
    requires |buf| == Cap && 0 <= front < Cap && 0 <= n <= Cap
    ensures View(buf, front, n) == View(buf, front, Cap)[..n]
  {
  }

  /** Writing the slot of logical position `k` updates that position only. */
  lemma ViewWrite<T>(buf: seq<T>, front: int, k: int, x: T)
    requires |buf| == Cap && 0 <= front < Cap && 0 <= k < Cap
    ensures View(buf[Slot(front, k) := x], front, Cap) == View(buf, front, Cap)[k := x]
  {
    var after := View(buf[Slot(front, k) := x], front, Cap);
    var expected := View(buf, front, Cap)[k := x];
    forall m | 0 <= m < Cap ensures after[m] == expected[m] {
      if m != k && Slot(front, m) == Slot(front, k) {
        SlotInjective(front, m, k);
      }
    }
  }

  /** Removing from the front: the piece leaving is the one in slot `front`,
      and advancing the front leaves the old tail in place. */
  lemma ViewDequeue<T>(buf: seq<T>, front: int, n: int)
    requires |buf| == Cap && 0 <= front < Cap && 0 < n <= Cap
    ensures View(buf, front, n)[0] == buf[front]
    ensures View(buf, Slot(front, 1), n - 1) == View(buf, front, n)[1..]
  {
    var old_ := View(buf, front, n);
    var new_ := View(buf, Slot(front, 1), n - 1);
    assert Slot(front, 0) == front;
    forall k | 0 <= k < n - 1 ensures new_[k] == old_[k + 1] {
      SlotAdvance(front, k);
    }
  }

  /** Adding at the back: writing slot `Slot(front, n)` and counting one more
      element appends exactly that element and disturbs no other. */
  lemma ViewEnqueue<T>(buf: seq<T>, front: int, n: int, x: T)
    requires |buf| == Cap && 0 <= front < Cap && 0 <= n < Cap
    ensures View(buf[Slot(front, n) := x], front, n + 1) == View(buf, front, n) + [x]
  {
    var after := View(buf[Slot(front, n) := x], front, n + 1);
    var before := View(buf, front, n);
    forall k | 0 <= k < n ensures after[k] == before[k] {
      if Slot(front, k) == Slot(front, n) {
        SlotInjective(front, k, n);
      }
    }
  }

  /** Exchanging two physical slots exchanges the two logical positions they hold. */
  lemma ViewSwap<T>(buf: seq<T>, front: int, n: int, i: int, j: int)
    requires |buf| == Cap && 0 <= front < Cap && 0 <= n <= Cap
    requires 0 <= i < n && 0 <= j < n
    ensures View(buf[Slot(front, i) := buf[Slot(front, j)]][Slot(front, j) := buf[Slot(front, i)]], front, n)
         == Swapped(View(buf, front, n), i, j)
  {
    var a, b := Slot(front, i), Slot(front, j);
    var after := View(buf[a := buf[b]][b := buf[a]], front, n);
    var expected := Swapped(View(buf, front, n), i, j);
    forall k | 0 <= k < n ensures after[k] == expected[k] {
      if k != i && Slot(front, k) == a {
        SlotInjective(front, k, i);
      }
      if k != j && Slot(front, k) == b {
        SlotInjective(front, k, j);
      }
    }
  }

  /** Reading one element fewer drops the last logical element. */
  lemma ViewShrink<T>(buf: seq<T>, front: int, n: int)
    requires |buf| == Cap && 0 <= front < Cap && 0 < n <= Cap
    ensures View(buf, front, n - 1) == View(buf, front, n)[..n - 1]
  {
  }

  /** Nothing has moved before the first step. */
  lemma ShiftedStart<T>(s: seq<T>, p: int)
    requires 0 <= p < |s|
    ensures Shifted(s, p, p) == s
  {
  }

  /** One step of the shifting loop: position `m` takes its successor's
      element, which is still in place. */
  lemma ShiftedStep<T>(s: seq<T>, p: int, m: int)
    requires 0 <= p <= m < |s| - 1
    ensures Shifted(s, p, m)[m + 1] == s[m + 1]
    ensures Shifted(s, p, m)[m := s[m + 1]] == Shifted(s, p, m + 1)
  {
    var t := Shifted(s, p, m);
    assert t[m + 1] == s[m + 1];
    var after := t[m := s[m + 1]];
    var want := Shifted(s, p, m + 1);
    forall k | 0 <= k < |s| ensures after[k] == want[k] {
      if k < p {
        assert after[k] == s[k] && want[k] == s[k];
      } else if k <= m {
        assert after[k] == s[k + 1] && want[k] == s[k + 1];
      } else {
        assert after[k] == s[k] && want[k] == s[k];
      }
    }
  }

  /** The last step of the shifting loop writes position `m`, whatever it
      writes there: the first `m` positions are the first `m + 1` elements
      with position `p` deleted. */
  lemma ShiftedDone<T>(s: seq<T>, p: int, m: int, x: T)
    requires 0 <= p <= m < |s|
    ensures Shifted(s, p, m)[m := x][..m] == Deleted(s[..m + 1], p)
    ensures Shifted(s, p, m)[..m] == Deleted(s[..m + 1], p)
  {
    var got := Shifted(s, p, m)[m := x][..m];
    var got' := Shifted(s, p, m)[..m];
    var want := Deleted(s[..m + 1], p);
    forall k | 0 <= k < m ensures got[k] == want[k] && got'[k] == want[k] {
      if k < p {
        assert got[k] == s[k] && got'[k] == s[k] && want[k] == s[k];
      } else {
        assert got[k] == s[k + 1] && got'[k] == s[k + 1] && want[k] == s[k + 1];
      }
    }
  }

  /** Deleting position `i` keeps the elements before it in place, moves
      each later one a position forward, and loses nothing else: together with
      the deleted element the result holds exactly the original elements. */
  lemma {:induction false} DeletedSpec<T>(s: seq<T>, i: int)
    requires 0 <= i < |s|
    ensures |Deleted(s, i)| == |s| - 1
    ensures forall k :: 0 <= k < i ==> Deleted(s, i)[k] == s[k]
    ensures forall k :: i <= k < |s| - 1 ==> Deleted(s, i)[k] == s[k + 1]
    ensures multiset(Deleted(s, i)) + multiset{s[i]} == multiset(s)
  {
    assert s == s[..i] + [s[i]] + s[i + 1..];
  }

  /** Exchanging positions `i` and `j` moves those two elements and no
      other, so the result is a rearrangement of the original. */
  lemma {:induction false} SwappedSpec<T>(s: seq<T>, i: int, j: int)
    requires 0 <= i < |s| && 0 <= j < |s|
    ensures |Swapped(s, i, j)| == |s|
    ensures Swapped(s, i, j)[i] == s[j] && Swapped(s, i, j)[j] == s[i]
    ensures forall k :: 0 <= k < |s| && k != i && k != j ==> Swapped(s, i, j)[k] == s[k]
    ensures multiset(Swapped(s, i, j)) == multiset(s)
  {
    if i != j {
      var t := s[i := s[j]];
      assert multiset(t) == multiset(s) - multiset{s[i]} + multiset{s[j]};
      assert multiset(t[j := s[i]]) == multiset(t) - multiset{t[j]} + multiset{s[i]};
    }
  }

  /** Exchanging the same two positions twice gives back the original sequence. */
  lemma {:induction false} SwapTwice<T>(s: seq<T>, i: int, j: int)
    requires 0 <= i < |s| && 0 <= j < |s|
    ensures Swapped(Swapped(s, i, j), i, j) == s
  {
    var t := Swapped(Swapped(s, i, j), i, j);
    forall k | 0 <= k < |s| ensures t[k] == s[k] {
    }
  }
}
