/**
 * The value-level model of a ring buffer: how a logical position maps to a
 * physical slot of the backing block, the logical sequence that a block, a
 * head and a size denote, and the sequence edits the buffer's operations
 * perform on that sequence.
 */
module RingModel {

  /** The buffer's exception messages, one constructor each; IndexOutOfRange
      stands for the runtime's own out-of-range exception. */
  datatype Error =
    | CapacityLessThanZero
    | SizeLessThanZero
    | CapacityLessThanSize
    | SizeIsNull
    | SizeEqualCapacity
    | CopyToArrayIsNull
    | CopyToArrayIndexIsLessThanNull
    | CopyToArrayIndexIsMoreThanLength
    | InsertArrayIndexIsLessThanNull
    | ElementAtIndexIsLessThanNull
    | ElementAtIndexIsMoreThanSize
    | ValueLessThanCapacity
    | IndexOutOfRange

  datatype Result<+R> = Ok(value: R) | Err(error: Error)

  datatype Outcome = Pass | Fail(error: Error)

  datatype Option<+R> = None | Some(value: R)

  function Min(a: int, b: int): int { if a < b then a else b }

  function Max(a: int, b: int): int { if a < b then b else a }

  /** 0 <= size <= capacity, and head is a slot (or 0 when there is no slot). */
  predicate WellFormed(cap: nat, head: nat, size: nat)
  {
    size <= cap && (if cap == 0 then head == 0 else head < cap)
  }

  /** The one-based tail of the source ("last written slot + 1") agrees with
      head + size modulo capacity. Both 0 and cap name slot 0 as the next free
      slot: 0 is where a new buffer starts and where dropping the newest
      elements can leave it, cap is where writing the last slot leaves it. */
  predicate TailAgrees(cap: nat, head: nat, size: nat, tail: nat)
    ensures 0 < cap && WellFormed(cap, head, size) && tail <= cap ==>
      (TailAgrees(cap, head, size, tail) <==>
       (if tail == cap then 0 else tail) == (if size == cap then head else Phys(cap, head, size)))
  {
    tail <= cap && (head + size == tail || head + size == tail + cap || head + size + cap == tail)
  }

  /** How many elements a bulk copy moves: count, capped by the size and by
      the room left in the destination, and never below zero. */
  function CopyCount(count: int, size: nat, room: int): (r: nat)
    ensures r <= size && (0 < r ==> r <= count && r <= room && (r == count || r == size || r == room))
    ensures r == 0 ==> count <= 0 || size == 0 || room <= 0
  {
    Max(0, Min(Min(count, size), room))
  }

  /** The elements a bulk insertion offers: up to count of them, from
      startIndex on, as far as xs reaches. */
  function RangeInput<T>(xs: seq<T>, startIndex: nat, count: int): (r: seq<T>)
    ensures |r| == if startIndex < |xs| then Max(0, Min(count, |xs| - startIndex)) else 0
    ensures forall i :: 0 <= i < |r| ==> r[i] == xs[startIndex + i]
  {
    if |xs| <= startIndex then [] else xs[startIndex..startIndex + Max(0, Min(count, |xs| - startIndex))]
  }

  /** Physical slot of logical position i: (head + i) mod cap, written without %. */
  function Phys(cap: nat, head: nat, i: nat): (p: nat)
    requires head < cap && i < cap
    ensures p < cap && (p == head + i || p + cap == head + i)
  {
    if head + i < cap then head + i else head + i - cap
  }

  /** The slot after p, wrapping at the end of the block. */
  function Next(cap: nat, p: nat): (q: nat)
    requires p < cap
    ensures q < cap
  {
    if p + 1 == cap then 0 else p + 1
  }

  /** The slot before p, wrapping at the start of the block. */
  function Prev(cap: nat, p: nat): (q: nat)
    requires p < cap
    ensures q < cap && Next(cap, q) == p
  {
    if p == 0 then cap - 1 else p - 1
  }

  /** The slot holding the last element, read off the one-based tail. */
  function LastSlot(cap: nat, tail: nat): (p: nat)
    requires 0 < cap && tail <= cap
    ensures p < cap && Next(cap, p) == (if tail == cap then 0 else tail)
  {
    if tail == 0 then cap - 1 else tail - 1
  }

  /** The logical contents: position i is held at slot Phys(cap, head, i). */
  function View<T>(slots: seq<T>, head: nat, size: nat): seq<T>
    requires WellFormed(|slots|, head, size)
  {
    seq(size, i requires 0 <= i < size => slots[Phys(|slots|, head, i)])
  }

  /** n copies of x. */
  function Fill<T>(n: nat, x: T): seq<T>
  {
    seq(n, _ => x)
  }

  /** One more copy goes at either end. */
  lemma FillGrows<T>(n: nat, x: T)
    ensures Fill(n + 1, x) == [x] + Fill(n, x) == Fill(n, x) + [x]
  {
    assert Fill(n + 1, x) == [x] + Fill(n, x);
    assert Fill(n + 1, x) == Fill(n, x) + [x];
  }

  /** One more copy written before a filled prefix. */
  lemma FillPrepend<T>(n: nat, x: T, c: seq<T>, s: seq<T>)
    requires s == [x] + (Fill(n, x) + c)
    ensures s == Fill(n + 1, x) + c
  {
    FillGrows(n, x);
  }

  /** One more copy written after a filled suffix. */
  lemma FillAppend<T>(n: nat, x: T, c: seq<T>, s: seq<T>)
    requires s == (c + Fill(n, x)) + [x]
    ensures s == c + Fill(n + 1, x)
  {
    FillGrows(n, x);
  }

  /** s in reverse order. */
  function Reversed<T>(s: seq<T>): seq<T>
  {
    seq(|s|, i requires 0 <= i < |s| => s[|s| - 1 - i])
  }

  /** s with its first k elements moved to the back. */
  function Rotated<T>(s: seq<T>, k: nat): seq<T>
    requires k <= |s|
  {
    s[k..] + s[..k]
  }

  /** s without its element at position k. */
  function RemoveAt<T>(s: seq<T>, k: nat): seq<T>
    requires k < |s|
  {
    s[..k] + s[k + 1..]
  }

  /** The position of the first occurrence of x in s. */
  function FirstIndex<T(==)>(s: seq<T>, x: T): (k: nat)
    requires x in s
    ensures k < |s| && s[k] == x && x !in s[..k]
  {
    if s[0] == x then 0
    else
      assert x in s[1..] by { assert s == [s[0]] + s[1..]; }
      var k := 1 + FirstIndex(s[1..], x);
      assert s[..k] == [s[0]] + s[1..][..k - 1];
      k
  }

  /** The last n elements of s (all of s when it is shorter). */
  function Latest<T>(s: seq<T>, n: nat): (r: seq<T>)
    ensures |r| == Min(|s|, n)
  {
    if |s| <= n then s else s[|s| - n..]
  }

  /** One insertion into a buffer of capacity cap: append, and when the buffer
      was full evict the oldest element (the overwrite policy). */
  function Push<T>(s: seq<T>, x: T, cap: nat): (r: seq<T>)
    requires 0 < cap && |s| <= cap
    ensures |r| == Min(|s| + 1, cap)
  {
    if |s| < cap then s + [x] else s[1..] + [x]
  }

  /** The insertions of xs, in order. */
  function PushAll<T>(s: seq<T>, xs: seq<T>, cap: nat): (r: seq<T>)
    requires |s| <= cap && (cap == 0 ==> xs == [])
    ensures |r| <= cap
    decreases |xs|
  {
    if xs == [] then s else PushAll(Push(s, xs[0], cap), xs[1..], cap)
  }

  // ---------------------------------------------------------------------------
  // Properties of the sequence edits
  // ---------------------------------------------------------------------------

  /** Pushing is keeping the latest cap elements of the extended sequence. */
  lemma PushIsLatest<T>(s: seq<T>, x: T, cap: nat)
    requires 0 < cap && |s| <= cap
    ensures Push(s, x, cap) == Latest(s + [x], cap)
  {
    if |s| == cap {
      assert (s + [x])[|s + [x]| - cap..] == s[1..] + [x];
    }
  }

  /** One more insertion of a bulk insert keeps the buffer at the latest
      elements of everything inserted so far. */
  lemma LatestStep<T>(c: seq<T>, ys: seq<T>, i: nat, cap: nat, s: seq<T>)
    requires 0 < cap && i < |ys| && |c| <= cap
    requires s == Push(Latest(c + ys[..i], cap), ys[i], cap)
    ensures s == Latest(c + ys[..i + 1], cap)
  {
    PushIsLatest(Latest(c + ys[..i], cap), ys[i], cap);
    LatestOfLatest(c + ys[..i], [ys[i]], cap);
    assert c + ys[..i + 1] == c + ys[..i] + [ys[i]];
  }

  lemma LatestOfLatest<T>(t: seq<T>, u: seq<T>, n: nat)
    ensures Latest(Latest(t, n) + u, n) == Latest(t + u, n)
  {
    if n < |t| {
      var d := |t| - n;
      var l := t[d..];
      assert Latest(t, n) == l && |l + u| == n + |u|;
      if u == [] {
        assert l + u == l && t + u == t;
      } else {
        assert (t + u)[d..] == l + u;
        assert Latest(l + u, n) == (l + u)[|u|..];
        assert Latest(t + u, n) == (t + u)[d + |u|..];
        assert (t + u)[d..][|u|..] == (t + u)[d + |u|..];
      }
    }
  }


  /** The sliding-window law: a run of insertions into a buffer of capacity
      cap leaves exactly the latest cap elements of old contents + input. */
  lemma {:induction false} PushAllIsLatest<T>(s: seq<T>, xs: seq<T>, cap: nat)
    requires |s| <= cap && (cap == 0 ==> xs == [])
    ensures PushAll(s, xs, cap) == Latest(s + xs, cap)
    decreases |xs|
  {
    if xs == [] {
      assert s + xs == s;
    } else {
      var s' := Push(s, xs[0], cap);
      PushAllIsLatest(s', xs[1..], cap);
      PushIsLatest(s, xs[0], cap);
      LatestOfLatest(s + [xs[0]], xs[1..], cap);
      assert s + [xs[0]] + xs[1..] == s + xs;
    }
  }

  /** Without eviction (room for every element) a run of insertions appends. */
  lemma PushAllAppends<T>(s: seq<T>, xs: seq<T>, cap: nat)
    requires |s| + |xs| <= cap
    ensures PushAll(s, xs, cap) == s + xs
  {
    PushAllIsLatest(s, xs, cap);
  }

  /** Inserting cap fresh elements, whatever was there before, leaves exactly them. */
  lemma PushAllFullWindow<T>(s: seq<T>, xs: seq<T>, cap: nat)
    requires |s| <= cap && |xs| == cap
    ensures PushAll(s, xs, cap) == xs
  {
    PushAllIsLatest(s, xs, cap);
    assert (s + xs)[|s|..] == xs;
  }

  /** Reversing twice restores the original order. */
  lemma ReversedInvolution<T>(s: seq<T>)
    ensures |Reversed(s)| == |s| && Reversed(Reversed(s)) == s
  {
  }

  /** Rotating by k and then by the rest restores the original order. */
  lemma RotatedBack<T>(s: seq<T>, k: nat)
    requires k <= |s|
    ensures Rotated(Rotated(s, k), |s| - k) == s
  {
    var r := Rotated(s, k);
    assert r[|s| - k..] == s[..k];
    assert r[..|s| - k] == s[k..];
  }

  /** Removing the first occurrence of x takes exactly one x away and keeps the order of the rest. */
  lemma {:induction false} RemoveFirstOccurrence<T>(s: seq<T>, x: T)
    requires x in s
    ensures var k := FirstIndex(s, x);
      && |RemoveAt(s, k)| == |s| - 1
      && multiset(RemoveAt(s, k)) == multiset(s) - multiset{x}
      && (forall i :: 0 <= i < k ==> RemoveAt(s, k)[i] == s[i])
      && (forall i :: k <= i < |s| - 1 ==> RemoveAt(s, k)[i] == s[i + 1])
  {
    var k := FirstIndex(s, x);
    var a, b := s[..k], s[k + 1..];
    var r := RemoveAt(s, k);
    assert |a| == k && |b| == |s| - k - 1;
    assert s == a + [x] + b;
    assert r == a + b;
    forall i | 0 <= i < k ensures r[i] == s[i] {
      assert r[i] == a[i];
    }
    forall i | k <= i < |s| - 1 ensures r[i] == s[i + 1] {
      assert r[i] == b[i - k];
    }
    MultisetOfSplit(a, x, b);
  }

  /** Taking x out of the middle of a + [x] + b takes one x out of its multiset. */
  lemma MultisetOfSplit<T>(a: seq<T>, x: T, b: seq<T>)
    ensures multiset(a + [x] + b) == multiset(a + b) + multiset{x}
  {
    calc {
      multiset(a + [x] + b);
      multiset(a) + multiset{x} + multiset(b);
      multiset(a + b) + multiset{x};
    }
  }

  /** The first occurrence is the only position holding x with no x before it. */
  lemma FirstIndexUnique<T>(s: seq<T>, x: T, k: nat)
    requires k < |s| && s[k] == x && x !in s[..k]
    ensures x in s && FirstIndex(s, x) == k
  {
    assert s[..k + 1][k] == x;
    forall i | 0 <= i < k ensures s[i] != x {
      assert s[..k][i] == s[i];
    }
  }

  /** One step of the swap rotation: with the unfinished region read as
      s[n..l] + s[m..n] + s[f..m] equal to t, swapping slots f and n fixes
      t[0] at f and leaves the shorter region in the same reading. */
  lemma RotateStep<T>(s: seq<T>, f: nat, m: nat, n: nat, l: nat, t: seq<T>)
    requires f < m <= n < l <= |s|
    requires s[n..l] + s[m..n] + s[f..m] == t
    ensures var s' := s[f := s[n]][n := s[f]];
      && |s'| == |s| && s'[f] == t[0]
      && s'[..f] == s[..f] && s'[l..] == s[l..]
      && s'[n + 1..l] + s'[m..n + 1] + s'[f + 1..m] == t[1..]
  {
    var s' := s[f := s[n]][n := s[f]];
    assert s[n..l] == [s[n]] + s[n + 1..l];
    assert s[f..m] == [s[f]] + s[f + 1..m];
    assert s'[n + 1..l] == s[n + 1..l];
    assert s'[m..n + 1] == s[m..n] + [s[f]];
    assert s'[f + 1..m] == s[f + 1..m];
    assert t[1..] == s[n + 1..l] + s[m..n] + [s[f]] + s[f + 1..m];
  }

  /** The state of the swap rotation of s0[first..last] towards r: the slots
      before f are final, and the unfinished region, read as s[n..last] then
      s[m..n] then s[f..m], is what is left of r. */
  ghost predicate RotationState<T>(s0: seq<T>, r: seq<T>, first: nat, last: nat,
                                   s: seq<T>, f: nat, m: nat, n: nat)
  {
    && first <= f <= m <= n <= last <= |s0| == |s|
    && |r| == last - first
    && (f == m ==> n == m)
    && (f != n ==> n < last)
    && s[..first] == s0[..first] && s[last..] == s0[last..]
    && s[first..f] == r[..f - first]
    && s[n..last] + s[m..n] + s[f..m] == r[f - first..]
  }

  lemma RotationStart<T>(s0: seq<T>, first: nat, middle: nat, last: nat)
    requires first <= middle <= last <= |s0| && (middle == last ==> first == middle)
    ensures RotationState(s0, Rotated(s0[first..last], middle - first), first, last, s0, first, middle, middle)
  {
    var r := Rotated(s0[first..last], middle - first);
    assert s0[first..last][middle - first..] == s0[middle..last];
    assert s0[first..last][..middle - first] == s0[first..middle];
    assert s0[middle..last] + s0[middle..middle] + s0[first..middle] == r;
  }

  /** While the rotation runs, both swap positions lie in the region. */
  lemma RotationBounds<T>(s0: seq<T>, r: seq<T>, first: nat, last: nat,
                          s: seq<T>, f: nat, m: nat, n: nat)
    requires RotationState(s0, r, first, last, s, f, m, n) && f != n
    ensures f < m <= n < last <= |s|
  {
  }

  /** One swap keeps the rotation state, with the source's index updates:
      next wraps back to middle at last, else middle follows next once first meets it. */
  lemma RotationAdvance<T>(s0: seq<T>, r: seq<T>, first: nat, last: nat,
                           s: seq<T>, f: nat, m: nat, n: nat, s': seq<T>, m': nat, n': nat)
    requires RotationState(s0, r, first, last, s, f, m, n) && f != n
    requires f < |s| && n < |s| && s' == s[f := s[n]][n := s[f]]
    requires n' == (if n + 1 == last then m else n + 1)
    requires m' == (if n + 1 == last then m else if f + 1 == m then n + 1 else m)
    ensures RotationState(s0, r, first, last, s', f + 1, m', n')
  {
    var t := r[f - first..];
    RotateStep(s, f, m, n, last, t);
    assert s'[first..f + 1] == s[first..f] + [t[0]];
    assert r[..f + 1 - first] == r[..f - first] + [t[0]];
    assert t[1..] == r[f + 1 - first..];
    if n + 1 == last {
      assert s'[n + 1..last] == [] && s'[m..m] == [];
      assert s'[n + 1..last] + s'[m..n + 1] == s'[m..last] + s'[m..m];
    } else if f + 1 == m {
      assert s'[f + 1..m] == [] && s'[n + 1..n + 1] == [];
    }
  }

  /** When the rotation stops, the region holds r and nothing else changed. */
  lemma RotationDone<T>(s0: seq<T>, r: seq<T>, first: nat, last: nat,
                        s: seq<T>, f: nat, m: nat, n: nat)
    requires RotationState(s0, r, first, last, s, f, m, n) && f == n
    ensures s == s0[..first] + r + s0[last..]
    ensures |s| == |s0| && s[first..last] == r
  {
    assert s[first..last] == s[first..f] + s[f..last];
    assert s == s[..first] + s[first..last] + s[last..];
  }

  /** Rotating the array range that holds exactly an unwrapped view rotates the view. */
  lemma ViewRotated<T>(s0: seq<T>, s: seq<T>, head: nat, size: nat, first: nat, middle: nat, last: nat)
    requires WellFormed(|s0|, head, size) && first == head && last == head + size <= |s0|
    requires first <= middle <= last && |s| == |s0|
    requires s[first..last] == Rotated(s0[first..last], middle - first)
    ensures View(s, head, size) == Rotated(View(s0, head, size), middle - first)
  {
    ViewUnwrapped(s0, head, size);
    ViewUnwrapped(s, head, size);
  }

  /** Reversal in progress: the k first and the k last logical positions of the
      view hold the reversed contents c, the positions between them still c. */
  ghost predicate PartlyReversed<T>(slots: seq<T>, head: nat, c: seq<T>, k: nat)
  {
    && WellFormed(|slots|, head, |c|)
    && forall t {:trigger slots[Phys(|slots|, head, t)]} :: 0 <= t < |c| ==>
         slots[Phys(|slots|, head, t)] == if t < k || |c| - k <= t then c[|c| - 1 - t] else c[t]
  }

  lemma ReversalStart<T>(slots: seq<T>, head: nat, size: nat)
    requires WellFormed(|slots|, head, size)
    ensures PartlyReversed(slots, head, View(slots, head, size), 0)
  {
  }

  /** Swapping logical positions k and |c| - 1 - k advances the reversal by one. */
  lemma ReversalStep<T>(slots: seq<T>, head: nat, c: seq<T>, k: nat, i: nat, l: nat, slots': seq<T>)
    requires PartlyReversed(slots, head, c, k) && k + k + 1 < |c|
    requires i == Phys(|slots|, head, k) && l == Phys(|slots|, head, |c| - 1 - k)
    requires slots' == slots[i := slots[l]][l := slots[i]]
    ensures PartlyReversed(slots', head, c, k + 1)
  {
    var cap := |slots|;
    PhysInjective(cap, head, k, |c| - 1 - k);
    forall t | 0 <= t < |c| && t != k && t != |c| - 1 - k ensures slots'[Phys(cap, head, t)] == slots[Phys(cap, head, t)] {
      PhysInjective(cap, head, t, k);
      PhysInjective(cap, head, t, |c| - 1 - k);
    }
  }

  lemma ReversalDone<T>(slots: seq<T>, head: nat, c: seq<T>, k: nat)
    requires PartlyReversed(slots, head, c, k) && |c| <= k + k + 1
    ensures View(slots, head, |c|) == Reversed(c)
  {
  }

  /** Closing up over position j in progress: the positions j..t-1 of the view
      already hold their successors from c, the others still hold c. */
  ghost predicate ShiftedDown<T>(slots: seq<T>, head: nat, c: seq<T>, j: nat, t: nat)
  {
    && WellFormed(|slots|, head, |c|)
    && forall u {:trigger slots[Phys(|slots|, head, u)]} :: 0 <= u < |c| ==>
         slots[Phys(|slots|, head, u)] == if j <= u < t && u + 1 < |c| then c[u + 1] else c[u]
  }

  lemma ShiftStart<T>(slots: seq<T>, head: nat, size: nat, j: nat)
    requires WellFormed(|slots|, head, size)
    ensures ShiftedDown(slots, head, View(slots, head, size), j, j)
  {
  }

  /** Copying the element at t + 1 into the slot of t advances the shift by one. */
  lemma ShiftStep<T>(slots: seq<T>, head: nat, c: seq<T>, j: nat, t: nat, p: nat, q: nat, slots': seq<T>)
    requires ShiftedDown(slots, head, c, j, t) && j <= t && t + 1 < |c|
    requires p == Phys(|slots|, head, t) && q == Phys(|slots|, head, t + 1)
    requires slots' == slots[p := slots[q]]
    ensures ShiftedDown(slots', head, c, j, t + 1)
  {
    var cap := |slots|;
    forall u | 0 <= u < |c| && u != t ensures slots'[Phys(cap, head, u)] == slots[Phys(cap, head, u)] {
      PhysInjective(cap, head, u, t);
    }
  }

  /** Once every later element has moved down, the view one shorter is c without position j. */
  lemma ShiftDone<T>(slots: seq<T>, head: nat, c: seq<T>, j: nat)
    requires j < |c| && ShiftedDown(slots, head, c, j, |c| - 1)
    ensures View(slots, head, |c| - 1) == RemoveAt(c, j)
  {
    var v := View(slots, head, |c| - 1);
    forall u | 0 <= u < |c| - 1 ensures v[u] == RemoveAt(c, j)[u] {
      if u < j {
        assert RemoveAt(c, j)[u] == c[u];
      } else {
        assert RemoveAt(c, j)[u] == c[u + 1];
      }
    }
  }

  // ---------------------------------------------------------------------------
  // The one-based tail
  // ---------------------------------------------------------------------------

  /** Stepping the tail forward (wrapping past cap to 1) follows one more element. */
  lemma TailForward(cap: nat, head: nat, size: nat, tail: nat)
    requires WellFormed(cap, head, size) && TailAgrees(cap, head, size, tail) && size < cap
    ensures var t := if tail == cap then 1 else tail + 1;
      TailAgrees(cap, head, size + 1, t) && t - 1 == Phys(cap, head, size)
  {
  }

  /** Stepping the tail back (a zero tail first read as cap) follows one element fewer. */
  lemma TailBack(cap: nat, head: nat, size: nat, tail: nat)
    requires WellFormed(cap, head, size) && TailAgrees(cap, head, size, tail) && 0 < size
    ensures var t := (if tail == 0 then cap else tail) - 1;
      TailAgrees(cap, head, size - 1, t) && TailAgrees(cap, head, size - 1, if t == 0 then cap else t)
  {
  }

  /** Stepping the head back (wrapping below 0 to cap - 1) makes room for one more element in front. */
  lemma HeadBack(cap: nat, head: nat, size: nat, tail: nat)
    requires WellFormed(cap, head, size) && TailAgrees(cap, head, size, tail) && size < cap
    ensures WellFormed(cap, Prev(cap, head), size + 1) && TailAgrees(cap, Prev(cap, head), size + 1, tail)
  {
  }

  // ---------------------------------------------------------------------------
  // Properties of the physical mapping
  // ---------------------------------------------------------------------------

  /** Distinct logical positions never share a slot. */
  lemma PhysInjective(cap: nat, head: nat, i: nat, j: nat)
    requires head < cap && i < cap && j < cap && i != j
    ensures Phys(cap, head, i) != Phys(cap, head, j)
  {
  }

  /** With the tail agreeing, the last element is held where LastSlot points. */
  lemma LastSlotHoldsLast(cap: nat, head: nat, size: nat, tail: nat)
    requires WellFormed(cap, head, size) && TailAgrees(cap, head, size, tail) && 0 < size
    ensures LastSlot(cap, tail) == Phys(cap, head, size - 1)
  {
  }

  /** Writing outside the logical range does not change the view. */
  lemma ViewFrame<T>(slots: seq<T>, slots': seq<T>, head: nat, size: nat)
    requires WellFormed(|slots|, head, size) && |slots'| == |slots|
    requires forall i :: 0 <= i < size ==> slots'[Phys(|slots|, head, i)] == slots[Phys(|slots|, head, i)]
    ensures View(slots', head, size) == View(slots, head, size)
  {
  }

  /** Dropping the first n elements moves head n slots on. */
  lemma ViewDropPrefix<T>(slots: seq<T>, head: nat, size: nat, n: nat, head': nat)
    requires WellFormed(|slots|, head, size) && n <= size
    requires WellFormed(|slots|, head', size - n)
    requires head + n == head' || head + n == head' + |slots|
    ensures View(slots, head', size - n) == View(slots, head, size)[n..]
  {
    var cap := |slots|;
    forall i | 0 <= i < size - n ensures Phys(cap, head', i) == Phys(cap, head, n + i) {
    }
  }

  /** Writing the slot after the last element appends. */
  lemma ViewAppend<T>(slots: seq<T>, head: nat, size: nat, x: T)
    requires WellFormed(|slots|, head, size) && size < |slots|
    ensures var p := Phys(|slots|, head, size);
      View(slots[p := x], head, size + 1) == View(slots, head, size) + [x]
  {
    var cap, p := |slots|, Phys(|slots|, head, size);
    forall i | 0 <= i < size ensures slots[p := x][Phys(cap, head, i)] == slots[Phys(cap, head, i)] {
      PhysInjective(cap, head, i, size);
    }
  }

  /** Writing the slot before the first element and stepping head back prepends. */
  lemma ViewPrepend<T>(slots: seq<T>, head: nat, size: nat, x: T)
    requires WellFormed(|slots|, head, size) && size < |slots|
    ensures var h := Prev(|slots|, head);
      WellFormed(|slots|, h, size + 1) && View(slots[h := x], h, size + 1) == [x] + View(slots, head, size)
  {
    var cap, h := |slots|, Prev(|slots|, head);
    var v, w := View(slots, head, size), View(slots[h := x], h, size + 1);
    forall i | 0 <= i < size + 1 ensures w[i] == ([x] + v)[i] {
      if i > 0 {
        assert Phys(cap, h, i) == Phys(cap, head, i - 1);
        PhysInjective(cap, h, 0, i);
      }
    }
  }

  /** Stepping head forward drops the first element. */
  lemma ViewDropFirst<T>(slots: seq<T>, head: nat, size: nat)
    requires WellFormed(|slots|, head, size) && 0 < size
    ensures WellFormed(|slots|, Next(|slots|, head), size - 1)
    ensures View(slots, Next(|slots|, head), size - 1) == View(slots, head, size)[1..]
  {
    var cap := |slots|;
    forall i | 0 <= i < size - 1 ensures Phys(cap, Next(cap, head), i) == Phys(cap, head, i + 1) {
    }
  }

  /** Shrinking the size drops the last elements. */
  lemma ViewDropLast<T>(slots: seq<T>, head: nat, size: nat, n: nat)
    requires WellFormed(|slots|, head, size) && n <= size
    ensures View(slots, head, n) == View(slots, head, size)[..n]
  {
  }

  /** A full buffer whose oldest slot is overwritten and whose head steps
      forward slides its window by one. */
  lemma ViewOverwrite<T>(slots: seq<T>, head: nat, x: T)
    requires 0 < |slots| && head < |slots|
    ensures var cap := |slots|;
      View(slots[head := x], Next(cap, head), cap) == View(slots, head, cap)[1..] + [x]
  {
    var cap := |slots|;
    var v, w := View(slots, head, cap), View(slots[head := x], Next(cap, head), cap);
    forall i | 0 <= i < cap ensures w[i] == (v[1..] + [x])[i] {
      if i < cap - 1 {
        assert Phys(cap, Next(cap, head), i) == Phys(cap, head, i + 1);
        PhysInjective(cap, head, 0, i + 1);
      } else {
        assert Phys(cap, Next(cap, head), i) == head;
      }
    }
  }

  /** Moving head forward by k slots over a full buffer rotates its contents by k. */
  lemma ViewShift<T>(slots: seq<T>, head: nat, k: nat)
    requires 0 < |slots| && head < |slots| && k < |slots|
    ensures View(slots, Phys(|slots|, head, k), |slots|) == Rotated(View(slots, head, |slots|), k)
  {
    var cap := |slots|;
    var v, w := View(slots, head, cap), View(slots, Phys(cap, head, k), cap);
    forall i | 0 <= i < cap ensures w[i] == Rotated(v, k)[i] {
      if i < cap - k {
        assert Phys(cap, Phys(cap, head, k), i) == Phys(cap, head, k + i);
      } else {
        assert Phys(cap, Phys(cap, head, k), i) == Phys(cap, head, i + k - cap);
      }
    }
  }

  /** An unwrapped region is one slice of the block. */
  lemma ViewUnwrapped<T>(slots: seq<T>, head: nat, size: nat)
    requires WellFormed(|slots|, head, size) && head + size <= |slots|
    ensures View(slots, head, size) == slots[head..head + size]
  {
  }

  /** A wrapped region is the end of the block followed by its start. */
  lemma ViewWrapped<T>(slots: seq<T>, head: nat, size: nat)
    requires WellFormed(|slots|, head, size) && head + size >= |slots|
    ensures View(slots, head, size) == slots[head..] + slots[..head + size - |slots|]
  {
    var cap := |slots|;
    var v, w := View(slots, head, size), slots[head..] + slots[..head + size - cap];
    forall i | 0 <= i < size ensures v[i] == w[i] {
      if i < cap - head {
        assert w[i] == slots[head + i];
      } else {
        assert w[i] == slots[head + i - cap];
      }
    }
  }
}
