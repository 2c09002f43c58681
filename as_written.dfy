/**
 * The buffer's operations exactly as the C# class writes them, on a value
 * state whose fields are the class's integer fields, so that each place where
 * the code departs from its documented behaviour can be shown on a concrete
 * input. Elements are ints; an array access the runtime would refuse, or an
 * exception the code throws, is None. The corrected members live in the
 * RingBuffers module.
 */
module AsWritten {
  import opened RingModel

  /** m_buffer (its length is m_capacity), m_size, m_head, m_tail and
      m_allowOverWrite; the integer fields are unbounded, so C#'s 32-bit
      wrap-around is not part of this state. */
  datatype Raw = Raw(slots: seq<int>, size: int, head: int, tail: int, allow: bool)

  /** The states the documented design keeps: the corrected class's invariant. */
  predicate Proper(s: Raw)
  {
    && 0 <= s.size && 0 <= s.head && 0 <= s.tail
    && WellFormed(|s.slots|, s.head, s.size) && TailAgrees(|s.slots|, s.head, s.size, s.tail)
  }

  /** What a proper state holds, oldest first. */
  function Intended(s: Raw): seq<int>
    requires Proper(s)
  {
    View(s.slots, s.head, s.size)
  }

  /** An array write; None when the runtime refuses the index. */
  function Write(slots: seq<int>, i: int, x: int): (r: Option<seq<int>>)
    ensures r.Some? <==> 0 <= i < |slots|
    ensures r.Some? ==> |r.value| == |slots| && r.value[i] == x
    ensures r.Some? ==> forall t :: 0 <= t < |slots| && t != i ==> r.value[t] == slots[t]
  {
    if 0 <= i < |slots| then Some(slots[i := x]) else None
  }

  // ---------------------------------------------------------------------------
  // Construction and reads
  // ---------------------------------------------------------------------------

  /** The two-argument constructor: an empty block of the given capacity. */
  function EmptyRaw(capacity: nat, allow: bool): (s: Raw)
    ensures Proper(s) && Intended(s) == [] && |s.slots| == capacity
  {
    Raw(seq(capacity, _ => 0), 0, 0, 0, allow)
  }

  /** The four-argument constructor as written: it checks its arguments and
      sets the tail to the requested size, but never assigns m_size, so the
      fill loop bounded by m_size writes nothing. */
  function FilledToRaw(capacity: int, size: int, item: int, allow: bool): (r: Option<Raw>)
    ensures r.Some? <==> 0 <= size <= capacity
    ensures r.Some? ==> |r.value.slots| == capacity
    ensures r.Some? && 0 < size ==> !(Proper(r.value) && Intended(r.value) == Fill(size, item))
  {
    if capacity < 0 || size < 0 || size > capacity then None
    else Some(Raw(seq(capacity, _ => 0), 0, 0, size, allow))
  }

  /** ElementAt as written: it checks index against the size but then reads
      the slot index itself, not the slot index places after the head. */
  function ElementAtRaw(s: Raw, index: int): (r: Option<int>)
    ensures Proper(s) && s.head == 0 && 0 <= index < s.size ==> r == Some(Intended(s)[index])
  {
    if s.size == 0 || index < 0 || index >= s.size then None
    else if index < |s.slots| then Some(s.slots[index]) else None
  }

  /** First as written: the slot at the head. */
  function FirstRaw(s: Raw): (r: Option<int>)
    ensures Proper(s) && 0 < s.size ==> r == Some(Intended(s)[0])
    ensures s.size == 0 ==> r == None
  {
    if s.size == 0 then None
    else if 0 <= s.head < |s.slots| then Some(s.slots[s.head]) else None
  }

  /** Last as written: the slot before the one-based tail, which is right for
      every tail but 0; a tail of 0 sends the read to index -1. */
  function LastRaw(s: Raw): (r: Option<int>)
    ensures Proper(s) && 0 < s.size && 0 < s.tail ==> r == Some(Intended(s)[s.size - 1])
    ensures s.tail == 0 ==> r == None
  {
    if s.size == 0 then None
    else if 1 <= s.tail <= |s.slots| then Some(s.slots[s.tail - 1]) else None
  }

  /** Pop_Back as written: the tail steps back and wraps only when it reaches
      0, so a tail that already is 0 becomes -1. */
  function PopBackRaw(s: Raw): (r: Option<Raw>)
    ensures r.Some? <==> s.size != 0
    ensures r.Some? && s.tail == 0 ==> r.value.tail == -1
    ensures r.Some? ==> r.value.head == s.head && r.value.size == s.size - 1
  {
    if s.size == 0 then None
    else
      var t := s.tail - 1;
      Some(s.(tail := if t == 0 then |s.slots| else t, size := s.size - 1))
  }

  // ---------------------------------------------------------------------------
  // Insertion
  // ---------------------------------------------------------------------------

  /** The index updates and the write shared by both Insert overloads: grow
      when there is room, otherwise step head and tail over the oldest slot. */
  function Advance(s: Raw, x: int): (r: Option<Raw>)
    ensures |s.slots| == 0 ==> r == None
    ensures r.Some? ==> |r.value.slots| == |s.slots| && 0 < r.value.tail <= |s.slots| && r.value.slots[r.value.tail - 1] == x
    ensures r.Some? ==> r.value.size == (if s.size < |s.slots| then s.size + 1 else s.size)
  {
    var cap := |s.slots|;
    var s' :=
      if s.size < cap then s.(size := s.size + 1, tail := if s.tail == cap then 1 else s.tail + 1)
      else if cap == s.tail then s.(head := if s.head == 0 then s.head + 1 else s.head, tail := 1)
      else if cap - 1 == s.head then s.(head := 0, tail := s.tail + 1)
      else s.(head := s.head + 1, tail := s.tail + 1);
    match Write(s'.slots, s'.tail - 1, x)
    case None => None
    case Some(b) => Some(s'.(slots := b))
  }

  /** Insert(T) as written. On a full one-slot buffer the tail is at the end
      and the head at 0, so the head is bumped to 1 = capacity. */
  function InsertRaw(s: Raw, x: int): (r: Option<Raw>)
    ensures Proper(s) && |s.slots| == 1 && s.size == 1 && s.tail == 1 && s.allow ==> r.Some? && !Proper(r.value)
  {
    if !s.allow && s.size == |s.slots| then None else Advance(s, x)
  }

  /** Everywhere else the single insertion does what it documents. */
  lemma InsertRawAgrees(s: Raw, x: int)
    requires Proper(s) && (s.allow || s.size < |s.slots|) && 0 < |s.slots|
    requires !(|s.slots| == 1 && s.size == 1 && s.tail == 1)
    ensures InsertRaw(s, x).Some? && Proper(InsertRaw(s, x).value)
    ensures Intended(InsertRaw(s, x).value) == Push(Intended(s), x, |s.slots|)
  {
    if s.size < |s.slots| {
      InsertGrowAgrees(s, x);
    } else {
      InsertOverwriteAgrees(s, x);
    }
  }

  /** With room, the tail steps on and x is written below it. */
  lemma InsertGrowAgrees(s: Raw, x: int)
    requires Proper(s) && s.size < |s.slots|
    ensures InsertRaw(s, x).Some? && Proper(InsertRaw(s, x).value)
    ensures Intended(InsertRaw(s, x).value) == Push(Intended(s), x, |s.slots|)
  {
    var cap := |s.slots|;
    var t := if s.tail == cap then 1 else s.tail + 1;
    TailForward(cap, s.head, s.size, s.tail);
    var s' := Raw(s.slots[t - 1 := x], s.size + 1, s.head, t, s.allow);
    assert InsertRaw(s, x) == Some(s');
    ViewAppend(s.slots, s.head, s.size, x);
  }

  /** When full, the oldest slot takes x and head and tail step on past it. */
  lemma InsertOverwriteAgrees(s: Raw, x: int)
    requires Proper(s) && s.allow && s.size == |s.slots| && 0 < |s.slots|
    requires !(|s.slots| == 1 && s.tail == 1)
    ensures InsertRaw(s, x).Some? && Proper(InsertRaw(s, x).value)
    ensures Intended(InsertRaw(s, x).value) == Push(Intended(s), x, |s.slots|)
  {
    var cap := |s.slots|;
    ViewOverwrite(s.slots, s.head, x);
    if s.tail == cap {
      assert s.head == 0;
      assert InsertRaw(s, x) == Some(Raw(s.slots[0 := x], cap, 1, 1, true));
    } else if s.head == cap - 1 {
      assert s.tail == s.head;
      assert InsertRaw(s, x) == Some(Raw(s.slots[cap - 1 := x], cap, 0, cap, true));
    } else {
      assert s.tail == s.head;
      assert InsertRaw(s, x) == Some(Raw(s.slots[s.head := x], cap, s.head + 1, s.head + 1, true));
    }
  }

  /** The bulk Insert as written: count is capped by the array length, the
      return value by the room, and the loop then runs i from startIndex up
      to that return value instead of up to startIndex plus it. */
  function InsertRangeRaw(s: Raw, xs: seq<int>, startIndex: int, count: int): (r: Option<(Raw, int)>)
    ensures r.Some? <==> 0 <= startIndex && (InsertLoop(s, xs, startIndex, TrueInsertCount(s, xs, count)).Some?)
    ensures r.Some? ==> r.value.1 == TrueInsertCount(s, xs, count)
    ensures r.Some? && TrueInsertCount(s, xs, count) <= startIndex ==> r.value.0 == s
  {
    if 0 > startIndex then None
    else
      var n := TrueInsertCount(s, xs, count);
      match InsertLoop(s, xs, startIndex, n)
      case None => None
      case Some(s') => Some((s', n))
  }

  /** The value the bulk Insert returns. */
  function TrueInsertCount(s: Raw, xs: seq<int>, count: int): (r: int)
    ensures r <= count && r <= |xs| && (!s.allow ==> r <= |s.slots| - s.size)
    ensures count < 0 ==> r < 0
    ensures 0 <= count && 0 <= s.size <= |s.slots| ==>
      var ys := RangeInput(xs, 0, count);
      r == (if s.allow then |ys| else Min(|ys|, |s.slots| - s.size))
  {
    var c := Min(count, |xs|);
    if s.allow then c else Min(c, |s.slots| - s.size)
  }

  /** The loop of the bulk Insert: the same steps as Insert(T), without its
      overflow check, for i from i up to bound. */
  function InsertLoop(s: Raw, xs: seq<int>, i: int, bound: int): (r: Option<Raw>)
    ensures bound <= i ==> r == Some(s)
    decreases bound - i
  {
    if bound <= i then Some(s)
    else if !(0 <= i < |xs|) then None
    else
      match Advance(s, xs[i])
      case None => None
      case Some(s') => InsertLoop(s', xs, i + 1, bound)
  }

  // ---------------------------------------------------------------------------
  // Copying out
  // ---------------------------------------------------------------------------

  /** The number of elements CopyTo and Get(T[]) are meant to move. */
  function TrueCopyCount(s: Raw, dest: seq<int>, arrayIndex: int, count: int): (r: int)
    ensures r <= count && r <= s.size && r <= |dest| - arrayIndex
    ensures r == count || r == s.size || r == |dest| - arrayIndex
    ensures 0 <= r ==> r == CopyCount(count, s.size, |dest| - arrayIndex)
    ensures count < 0 ==> r < 0
  {
    Min(Min(count, s.size), |dest| - arrayIndex)
  }

  /** The copy loop of CopyTo as written: j runs from arrayIndex up to the
      number of elements to copy, not up to arrayIndex plus it, so slots at
      or beyond that number are never written. */
  function CopyLoop(slots: seq<int>, dest: seq<int>, i: int, j: int, bound: int): (r: Option<seq<int>>)
    ensures r.Some? ==> |r.value| == |dest|
    ensures r.Some? ==> forall t :: 0 <= t < |dest| && (t < j || bound <= t) ==> r.value[t] == dest[t]
    decreases bound - j
  {
    if bound <= j then Some(dest)
    else
      var i' := if |slots| == i then 0 else i;
      if !(0 <= i' < |slots|) then None
      else
        match Write(dest, j, slots[i'])
        case None => None
        case Some(d) => CopyLoop(slots, d, i' + 1, j + 1, bound)
  }

  /** CopyTo(array, arrayIndex, count) as written (null arrays are not modelled). */
  function CopyToRaw(s: Raw, dest: seq<int>, arrayIndex: int, count: int): (r: Option<seq<int>>)
    ensures arrayIndex < 0 || |dest| <= arrayIndex ==> r == None
    ensures r.Some? ==> |r.value| == |dest|
    ensures r.Some? ==> forall t :: Max(0, TrueCopyCount(s, dest, arrayIndex, count)) <= t < |dest| ==>
      r.value[t] == dest[t]
  {
    if 0 > arrayIndex || |dest| <= arrayIndex then None
    else CopyLoop(s.slots, dest, s.head, arrayIndex, TrueCopyCount(s, dest, arrayIndex, count))
  }

  /** The loop of Get(T[], arrayIndex, count) as written: the head wraps
      before each read, not after it, and j has the same bound as in CopyTo.
      Returns the new head and the destination. */
  function GetLoop(slots: seq<int>, dest: seq<int>, head: int, j: int, bound: int): (r: Option<(int, seq<int>)>)
    ensures r.Some? ==> |r.value.1| == |dest|
    ensures r.Some? ==> forall t :: 0 <= t < |dest| && (t < j || bound <= t) ==> r.value.1[t] == dest[t]
    decreases bound - j
  {
    if bound <= j then Some((head, dest))
    else
      var h := if |slots| == head then 0 else head;
      if !(0 <= h < |slots|) then None
      else
        match Write(dest, j, slots[h])
        case None => None
        case Some(d) => GetLoop(slots, d, h + 1, j + 1, bound)
  }

  /** Get(T[], arrayIndex, count) as written: after the loop the size drops by
      the full count, however many elements the loop moved. Returns the new
      state, the destination and the count. */
  function GetRangeRaw(s: Raw, dest: seq<int>, arrayIndex: int, count: int): (r: Option<(Raw, seq<int>, int)>)
    ensures arrayIndex < 0 || |dest| <= arrayIndex ==> r == None
    ensures r.Some? ==> r.value.2 == TrueCopyCount(s, dest, arrayIndex, count)
    ensures r.Some? ==> r.value.0.size == s.size - r.value.2 && r.value.0.tail == s.tail
    ensures r.Some? && count < 0 ==> s.size < r.value.0.size
    ensures r.Some? ==> |r.value.1| == |dest|
    ensures r.Some? ==> forall t :: Max(0, r.value.2) <= t < |dest| ==> r.value.1[t] == dest[t]
  {
    if 0 > arrayIndex || |dest| <= arrayIndex then None
    else
      var n := TrueCopyCount(s, dest, arrayIndex, count);
      match GetLoop(s.slots, dest, s.head, arrayIndex, n)
      case None => None
      case Some(hd) => Some((s.(head := hd.0, size := s.size - n), hd.1, n))
  }

  /** The Capacity setter as written: a larger block receives the contents
      from slot 0 on, but head and tail keep their old values. */
  function SetCapacityRaw(s: Raw, value: int): (r: Option<Raw>)
    ensures value < |s.slots| ==> r == None
    ensures r.Some? ==> r.value.head == s.head && r.value.tail == s.tail && r.value.size == s.size
  {
    if value == |s.slots| then Some(s)
    else if value < |s.slots| then None
    else
      match CopyToRaw(s, seq(value, _ => 0), 0, s.size)
      case None => None
      case Some(b) => Some(s.(slots := b))
  }

  // ---------------------------------------------------------------------------
  // Removal
  // ---------------------------------------------------------------------------

  /** How a loop that may not stop ends: with a value, with an exception, or
      still running after the fuel it was given. */
  datatype Run<+A> = Returns(value: A) | Throws | Hangs

  /** The search of Contains and of Remove: from the head, size slots, the slot
      index wrapping at the capacity before each read. The slot where x first
      shows, or -1. */
  function FindLoop(slots: seq<int>, x: int, i: int, j: int, size: int): (r: Option<int>)
    ensures r.Some? && 0 <= r.value ==> r.value < |slots| && slots[r.value] == x
    decreases size - j
  {
    if size <= j then Some(-1)
    else
      var i' := if |slots| == i then 0 else i;
      if !(0 <= i' < |slots|) then None
      else if slots[i'] == x then Some(i')
      else FindLoop(slots, x, i' + 1, j + 1, size)
  }

  /** The closing-up loop of Remove as written: slot k takes slot k + 1 until
      k + 1 reaches the tail; at the end of the block slot k takes slot 0 and
      k restarts at 0, after which the increment moves it on to 1, so slot 0
      is never refilled, and a tail of 1 is never met again. */
  function ShiftLoop(slots: seq<int>, k: int, tail: int, fuel: nat): (r: Run<seq<int>>)
    ensures r.Returns? ==> |r.value| == |slots|
    decreases fuel
  {
    if fuel == 0 then Hangs
    else if k + 1 == tail then Returns(slots)
    else if |slots| == k + 1 then
      if !(0 <= k && 0 < |slots|) then Throws
      else ShiftLoop(slots[k := slots[0]], 1, tail, fuel - 1)
    else if !(0 <= k && k + 1 < |slots|) then Throws
    else ShiftLoop(slots[k := slots[k + 1]], k + 1, tail, fuel - 1)
  }

  /** Remove(x) as written, the closing-up loop given fuel iterations. When x
      sits at the head the head also steps on, before the elements after it
      close up; the tail is never moved. Contains is the same traversal as the
      search, so both are one FindLoop here. */
  function RemoveRaw(s: Raw, x: int, fuel: nat): (r: Run<(bool, Raw)>)
    ensures r.Returns? ==> r.value.1.tail == s.tail && |r.value.1.slots| == |s.slots|
    ensures r.Returns? && r.value.0 ==> r.value.1.size == s.size - 1
    ensures r.Returns? && !r.value.0 ==> r.value.1 == s
  {
    match FindLoop(s.slots, x, s.head, 0, s.size)
    case None => Throws
    case Some(p) =>
      if p < 0 then Returns((false, s))
      else
        var head := if p == s.head then (if |s.slots| - 1 == s.head then 0 else s.head + 1) else s.head;
        match ShiftLoop(s.slots, p, s.tail, fuel)
        case Throws => Throws
        case Hangs => Hangs
        case Returns(b) => Returns((true, s.(slots := b, head := head, size := s.size - 1)))
  }

  // ---------------------------------------------------------------------------
  // Resizing
  // ---------------------------------------------------------------------------

  /** The shrinking loop of ReSize: k times, a tail of 0 becomes the capacity
      and then the tail steps back. The last step can leave it at 0. */
  function TailBackLoop(tail: int, cap: int, k: int): (r: int)
    ensures 0 < cap && 0 <= tail <= cap ==> 0 <= r <= cap
    decreases k
  {
    if k <= 0 then tail else TailBackLoop((if tail == 0 then cap else tail) - 1, cap, k - 1)
  }

  /** The growing loop of ReSize: k times, the tail steps on (wrapping from
      capacity + 1 to 1) and item is written below it. */
  function TailForwardLoop(slots: seq<int>, tail: int, item: int, k: int): (r: Option<(seq<int>, int)>)
    ensures 0 < |slots| && 0 <= tail <= |slots| ==> r.Some? && |r.value.0| == |slots| && 0 <= r.value.1 <= |slots|
    ensures k <= 0 ==> r == Some((slots, tail))
    decreases k
  {
    if k <= 0 then Some((slots, tail))
    else
      var t := tail + 1;
      var t := if |slots| + 1 == t then 1 else t;
      match Write(slots, t - 1, item)
      case None => None
      case Some(b) => TailForwardLoop(b, t, item, k - 1)
  }

  /** ReSize(n, item) as written. The head never moves. */
  function ReSizeRaw(s: Raw, n: int, item: int): (r: Option<Raw>)
    ensures n > |s.slots| || n < 0 ==> r == None
    ensures Proper(s) ==> (r.Some? <==> 0 <= n <= |s.slots|)
    ensures r.Some? ==> r.value.head == s.head && |r.value.slots| == |s.slots|
    ensures r.Some? && 0 <= n < s.size ==> r.value.slots == s.slots && r.value.size == n
  {
    if n > |s.slots| || 0 > n then None
    else if n == s.size then Some(s)
    else if n < s.size then Some(s.(tail := TailBackLoop(s.tail, |s.slots|, s.size - n), size := n))
    else
      match TailForwardLoop(s.slots, s.tail, item, n - s.size)
      case None => None
      case Some(bt) => Some(s.(slots := bt.0, tail := bt.1, size := n))
  }

  /** The shrinking loop of RReSize: k times, a head at the capacity becomes 0
      and then the head steps on. The wrap comes before the step, so after at
      least one step the head is never 0 and may be the capacity. */
  function HeadForwardLoop(head: int, cap: int, k: int): (r: int)
    ensures 0 < k && 0 < cap && 0 <= head <= cap ==> 1 <= r <= cap
    ensures k <= 0 ==> r == head
    decreases k
  {
    if k <= 0 then head else HeadForwardLoop((if cap == head then 0 else head) + 1, cap, k - 1)
  }

  /** The growing loop of RReSize: k times, the head steps back (wrapping from
      -1 to capacity - 1) and item is written at it. */
  function HeadBackLoop(slots: seq<int>, head: int, item: int, k: int): (r: Option<(seq<int>, int)>)
    ensures 0 < |slots| && 0 <= head < |slots| ==> r.Some? && |r.value.0| == |slots| && 0 <= r.value.1 < |slots|
    decreases k
  {
    if k <= 0 then Some((slots, head))
    else
      var h := head - 1;
      var h := if -1 == h then |slots| - 1 else h;
      match Write(slots, h, item)
      case None => None
      case Some(b) => HeadBackLoop(b, h, item, k - 1)
  }

  /** RReSize(n, item) as written. The tail never moves. */
  function RReSizeRaw(s: Raw, n: int, item: int): (r: Option<Raw>)
    ensures n > |s.slots| || n < 0 ==> r == None
    ensures r.Some? ==> r.value.tail == s.tail && |r.value.slots| == |s.slots|
    ensures r.Some? && 0 <= n < s.size ==> r.value.slots == s.slots && r.value.size == n
    ensures Proper(s) && 0 <= n < s.size ==> r.Some? && r.value.head != 0
  {
    if n > |s.slots| || 0 > n then None
    else if n == s.size then Some(s)
    else if n < s.size then Some(s.(head := HeadForwardLoop(s.head, |s.slots|, s.size - n), size := n))
    else
      match HeadBackLoop(s.slots, s.head, item, n - s.size)
      case None => None
      case Some(bh) => Some(s.(slots := bh.0, head := bh.1, size := n))
  }

  // ---------------------------------------------------------------------------
  // Skip
  // ---------------------------------------------------------------------------

  /** Skip(count) as written: on a full buffer the head moves count places and
      is reduced modulo the capacity only when it reaches the capacity; the
      tail stays. A negative count leaves a negative head; on a full buffer
      of capacity 0 the reduction divides by zero. */
  function SkipRaw(s: Raw, count: int): (r: Option<Raw>)
    ensures r.Some? ==> r.value.tail == s.tail && r.value.size == s.size && r.value.slots == s.slots
    ensures s.size == 0 == |s.slots| && 0 <= s.head + count ==> r == None
    ensures s.size == |s.slots| && s.head + count < 0 ==> r.Some? && r.value.head < 0
  {
    if s.size != |s.slots| then Some(s)
    else
      var h := s.head + count;
      if h >= |s.slots| then
        if |s.slots| == 0 then None else Some(s.(head := h % |s.slots|))
      else Some(s.(head := h))
  }

  // ---------------------------------------------------------------------------
  // The departures, each on a concrete input
  // ---------------------------------------------------------------------------

  /** Five insertions into a capacity-3 buffer wrap it; ElementAt(0) then
      reads slot 0, which holds 4, while the oldest element is 3. */
  lemma ElementAtIgnoresHead()
    ensures var s := Raw([4, 5, 3], 3, 2, 2, true);
      && InsertRangeRaw(EmptyRaw(3, true), [1, 2, 3, 4, 5], 0, 5) == Some((s, 5))
      && Proper(s) && Intended(s) == [3, 4, 5]
      && ElementAtRaw(s, 0) == Some(4)
  {
    var s := Raw([4, 5, 3], 3, 2, 2, true);
    var xs := [1, 2, 3, 4, 5];
    var e := EmptyRaw(3, true);
    assert e.slots == [0, 0, 0];
    var s1, s2, s3, s4 := Raw([1, 0, 0], 1, 0, 1, true), Raw([1, 2, 0], 2, 0, 2, true),
      Raw([1, 2, 3], 3, 0, 3, true), Raw([4, 2, 3], 3, 1, 1, true);
    assert Advance(e, 1) == Some(s1) by { assert [0, 0, 0][0 := 1] == [1, 0, 0]; }
    assert Advance(s1, 2) == Some(s2) by { assert [1, 0, 0][1 := 2] == [1, 2, 0]; }
    assert Advance(s2, 3) == Some(s3) by { assert [1, 2, 0][2 := 3] == [1, 2, 3]; }
    assert Advance(s3, 4) == Some(s4) by { assert [1, 2, 3][0 := 4] == [4, 2, 3]; }
    assert Advance(s4, 5) == Some(s) by { assert [4, 2, 3][1 := 5] == [4, 5, 3]; }
    assert InsertLoop(s, xs, 5, 5) == Some(s);
    assert InsertLoop(s4, xs, 4, 5) == Some(s);
    assert InsertLoop(s3, xs, 3, 5) == Some(s);
    assert InsertLoop(s2, xs, 2, 5) == Some(s);
    assert InsertLoop(s1, xs, 1, 5) == Some(s);
    assert InsertLoop(e, xs, 0, 5) == Some(s);
    assert Intended(s)[0] == 3 && Intended(s)[1] == 4 && Intended(s)[2] == 5;
  }

  /** Asking for 2 copies of 7 in capacity 3 gives a buffer whose First
      reports it empty. */
  lemma FilledToLeavesEmpty()
    ensures var r := FilledToRaw(3, 2, 7, true);
      r == Some(Raw([0, 0, 0], 0, 0, 2, true)) && !Proper(r.value) && FirstRaw(r.value) == None
  {
    assert seq(3, _ => 0) == [0, 0, 0];
  }

  /** Copying the 2 elements of [1, 2] to index 2 of a 4-slot array writes
      nothing: the loop starts at 2 and stops below 2. */
  lemma CopyToSkipsOffset()
    ensures var s := Raw([1, 2, 0], 2, 0, 2, true);
      Proper(s) && Intended(s) == [1, 2] && CopyToRaw(s, [0, 0, 0, 0], 2, 2) == Some([0, 0, 0, 0])
  {
    var s := Raw([1, 2, 0], 2, 0, 2, true);
    assert Intended(s)[0] == 1 && Intended(s)[1] == 2;
  }

  /** Getting the 2 elements of [1, 2] into index 2 of a 4-slot array moves
      none of them but empties the buffer. */
  lemma GetRangeLosesElements()
    ensures var s := Raw([1, 2, 0], 2, 0, 2, true);
      GetRangeRaw(s, [0, 0, 0, 0], 2, 2) == Some((Raw([1, 2, 0], 0, 0, 2, true), [0, 0, 0, 0], 2))
  {
  }

  /** Getting both elements of a full capacity-2 buffer leaves the head at 2;
      after one more insertion First reads past the block. */
  lemma GetRangeLeavesHeadAtCapacity()
    ensures var s := Raw([1, 2], 2, 0, 2, true);
      && Proper(s)
      && GetRangeRaw(s, [0, 0], 0, 2) == Some((Raw([1, 2], 0, 2, 2, true), [1, 2], 2))
      && InsertRaw(Raw([1, 2], 0, 2, 2, true), 7) == Some(Raw([7, 2], 1, 2, 1, true))
      && FirstRaw(Raw([7, 2], 1, 2, 1, true)) == None
  {
    var s := Raw([1, 2], 2, 0, 2, true);
    assert GetLoop(s.slots, [1, 2], 2, 2, 2) == Some((2, [1, 2]));
    assert GetLoop(s.slots, [1, 0], 1, 1, 2) == Some((2, [1, 2])) by { assert [1, 0][1 := 2] == [1, 2]; }
    assert GetLoop(s.slots, [0, 0], 0, 0, 2) == Some((2, [1, 2])) by { assert [0, 0][0 := 1] == [1, 0]; }
    assert [1, 2][0 := 7] == [7, 2];
  }

  /** A count of -1 moves nothing, returns -1 and raises the size from 1 to 2. */
  lemma GetRangeNegativeCountGrows()
    ensures var s := Raw([1, 0], 1, 0, 1, true);
      Proper(s) && GetRangeRaw(s, [0], 0, -1) == Some((Raw([1, 0], 2, 0, 1, true), [0], -1))
  {
  }

  /** Inserting 2 elements of [1, 2, 3, 4] from index 2 reports 2 and
      inserts nothing. */
  lemma InsertRangeSkipsOffset()
    ensures InsertRangeRaw(EmptyRaw(4, true), [1, 2, 3, 4], 2, 2) == Some((EmptyRaw(4, true), 2))
  {
  }

  /** Removing the oldest element of [1, 2, 3] both steps the head on and
      closes up over it, leaving [3, 3]. */
  lemma RemoveAtHeadShiftsTwice()
    ensures var s := Raw([1, 2, 3, 0], 3, 0, 3, true);
      var t := Raw([2, 3, 3, 0], 2, 1, 3, true);
      && Proper(s) && Intended(s) == [1, 2, 3]
      && RemoveRaw(s, 1, 4) == Returns((true, t))
      && Proper(t) && Intended(t) == [3, 3]
  {
    var s := Raw([1, 2, 3, 0], 3, 0, 3, true);
    var t := Raw([2, 3, 3, 0], 2, 1, 3, true);
    assert FindLoop(s.slots, 1, 0, 0, 3) == Some(0);
    assert [1, 2, 3, 0][0 := 2] == [2, 2, 3, 0] && [2, 2, 3, 0][1 := 3] == [2, 3, 3, 0];
    assert ShiftLoop([2, 3, 3, 0], 2, 3, 2) == Returns([2, 3, 3, 0]);
    assert ShiftLoop([2, 2, 3, 0], 1, 3, 3) == Returns([2, 3, 3, 0]);
    assert ShiftLoop(s.slots, 0, 3, 4) == Returns([2, 3, 3, 0]);
    assert Intended(s)[0] == 1 && Intended(s)[1] == 2 && Intended(s)[2] == 3;
    assert Intended(t)[0] == 3 && Intended(t)[1] == 3;
  }

  /** Removing the newest element of [1, 2, 3] leaves the tail where it was,
      so Last still answers 3. */
  lemma RemoveKeepsTail()
    ensures var s := Raw([1, 2, 3, 0], 3, 0, 3, true);
      var t := Raw([1, 2, 3, 0], 2, 0, 3, true);
      && RemoveRaw(s, 3, 4) == Returns((true, t))
      && !Proper(t) && LastRaw(t) == Some(3)
  {
  }

  /** In the wrapped buffer [1, 2, 3, 4] (head at slot 2), removing 2 brings
      slot 0 into slot 3 and then stops, so 4 is lost and 3 is doubled. */
  lemma RemoveWrapSkipsSlotZero()
    ensures var s := Raw([3, 4, 1, 2], 4, 2, 2, true);
      var t := Raw([3, 4, 1, 3], 3, 2, 2, true);
      && Proper(s) && Intended(s) == [1, 2, 3, 4]
      && RemoveRaw(s, 2, 4) == Returns((true, t))
      && View(t.slots, t.head, t.size) == [1, 3, 3]
  {
    var s := Raw([3, 4, 1, 2], 4, 2, 2, true);
    var t := Raw([3, 4, 1, 3], 3, 2, 2, true);
    assert FindLoop(s.slots, 2, 3, 1, 4) == Some(3);
    assert FindLoop(s.slots, 2, 2, 0, 4) == Some(3);
    assert [3, 4, 1, 2][3 := 3] == [3, 4, 1, 3];
    assert ShiftLoop([3, 4, 1, 3], 1, 2, 3) == Returns([3, 4, 1, 3]);
    assert ShiftLoop(s.slots, 3, 2, 4) == Returns([3, 4, 1, 3]);
    assert Intended(s)[0] == 1 && Intended(s)[1] == 2 && Intended(s)[2] == 3 && Intended(s)[3] == 4;
    assert View(t.slots, t.head, t.size)[0] == 1 && View(t.slots, t.head, t.size)[1] == 3;
    assert View(t.slots, t.head, t.size)[2] == 3;
  }

  /** With the tail at 1 the closing-up loop, once wrapped, cycles through
      slots 1 and 2 for ever. */
  lemma {:induction false} ShiftCycles(x: int, fuel: nat)
    ensures ShiftLoop([x, x, x], 2, 1, fuel) == Hangs
    decreases fuel
  {
    if 2 <= fuel {
      assert [x, x, x][2 := x] == [x, x, x] && [x, x, x][1 := x] == [x, x, x];
      ShiftCycles(x, fuel - 2);
    }
  }

  /** Removing 2 from the full wrapped buffer [1, 2, 3] (head at slot 1, tail
      1) does not finish, however many iterations it is given. */
  lemma RemoveWrapHangs(fuel: nat)
    ensures var s := Raw([3, 1, 2], 3, 1, 1, true);
      Proper(s) && Intended(s) == [1, 2, 3] && RemoveRaw(s, 2, fuel) == Hangs
  {
    var s := Raw([3, 1, 2], 3, 1, 1, true);
    assert Intended(s)[0] == 1 && Intended(s)[1] == 2 && Intended(s)[2] == 3;
    assert FindLoop(s.slots, 2, 2, 1, 3) == Some(2);
    assert FindLoop(s.slots, 2, 1, 0, 3) == Some(2);
    if 2 <= fuel {
      assert [3, 1, 2][2 := 3] == [3, 1, 3] && [3, 1, 3][1 := 3] == [3, 3, 3];
      assert ShiftLoop(s.slots, 2, 1, fuel) == ShiftLoop([3, 1, 3], 1, 1, fuel - 1);
      assert ShiftLoop([3, 1, 3], 1, 1, fuel - 1) == ShiftLoop([3, 3, 3], 2, 1, fuel - 2);
      ShiftCycles(3, fuel - 2);
    } else if fuel == 1 {
      assert ShiftLoop(s.slots, 2, 1, 1) == ShiftLoop([3, 1, 2][2 := 3], 1, 1, 0);
    }
  }

  /** Growing the wrapped [3, 4, 5] to capacity 4 copies it to slots 0..2 but
      keeps head 2, so the buffer reads [5, 0, 3]. */
  lemma SetCapacityKeepsHead()
    ensures var s := Raw([4, 5, 3], 3, 2, 2, true);
      var t := Raw([3, 4, 5, 0], 3, 2, 2, true);
      && Proper(s) && Intended(s) == [3, 4, 5]
      && SetCapacityRaw(s, 4) == Some(t)
      && !Proper(t) && View(t.slots, t.head, t.size) == [5, 0, 3]
  {
    var s := Raw([4, 5, 3], 3, 2, 2, true);
    var t := Raw([3, 4, 5, 0], 3, 2, 2, true);
    assert Intended(s)[0] == 3 && Intended(s)[1] == 4 && Intended(s)[2] == 5;
    var v := View(t.slots, t.head, t.size);
    assert v[0] == 5 && v[1] == 0 && v[2] == 3;
    assert seq(4, _ => 0) == [0, 0, 0, 0];
    assert [0, 0, 0, 0][0 := 3] == [3, 0, 0, 0] && [3, 0, 0, 0][1 := 4] == [3, 4, 0, 0];
    assert [3, 4, 0, 0][2 := 5] == [3, 4, 5, 0];
    assert CopyLoop(s.slots, [3, 4, 5, 0], 2, 3, 3) == Some([3, 4, 5, 0]);
    assert CopyLoop(s.slots, [3, 4, 0, 0], 1, 2, 3) == Some([3, 4, 5, 0]);
    assert CopyLoop(s.slots, [3, 0, 0, 0], 3, 1, 3) == Some([3, 4, 5, 0]);
    assert CopyLoop(s.slots, [0, 0, 0, 0], 2, 0, 3) == Some([3, 4, 5, 0]);
  }

  /** A second insertion into a capacity-1 buffer moves the head to 1, and
      First then reads past the block. */
  lemma InsertOneSlotLeavesHead()
    ensures var s := Raw([1], 1, 0, 1, true);
      && InsertRaw(EmptyRaw(1, true), 1) == Some(s)
      && InsertRaw(s, 2) == Some(Raw([2], 1, 1, 1, true))
      && FirstRaw(Raw([2], 1, 1, 1, true)) == None
  {
    assert seq(1, _ => 0) == [0];
    assert [0][0 := 1] == [1] && [1][0 := 2] == [2];
  }

  /** Shrinking [6, 5] (head at slot 1) to one element from the front leaves
      the head at 2 = capacity; First then reads past the block. */
  lemma RReSizeLeavesHeadAtCapacity()
    ensures var s := Raw([5, 6], 2, 1, 1, true);
      && Proper(s) && Intended(s) == [6, 5]
      && RReSizeRaw(s, 1, 0) == Some(Raw([5, 6], 1, 2, 1, true))
      && FirstRaw(Raw([5, 6], 1, 2, 1, true)) == None
  {
    var s := Raw([5, 6], 2, 1, 1, true);
    assert Intended(s)[0] == 6 && Intended(s)[1] == 5;
  }

  /** Skipping one element of the full [1, 2, 3] makes it [2, 3, 1] but
      leaves the tail, so Last still answers 3. */
  lemma SkipKeepsTail()
    ensures var s := Raw([1, 2, 3], 3, 0, 3, true);
      var t := Raw([1, 2, 3], 3, 1, 3, true);
      && SkipRaw(s, 1) == Some(t)
      && View(t.slots, t.head, t.size) == [2, 3, 1]
      && !Proper(t) && LastRaw(t) == Some(3)
  {
    var t := Raw([1, 2, 3], 3, 1, 3, true);
    assert View(t.slots, t.head, t.size)[0] == 2 && View(t.slots, t.head, t.size)[1] == 3;
    assert View(t.slots, t.head, t.size)[2] == 1;
  }

  /** Skip(-1) on a full buffer leaves the head at -1; First then throws. */
  lemma SkipNegativeHead()
    ensures var s := Raw([1, 2, 3], 3, 0, 3, true);
      SkipRaw(s, -1) == Some(Raw([1, 2, 3], 3, -1, 3, true)) && FirstRaw(Raw([1, 2, 3], 3, -1, 3, true)) == None
  {
  }

  /** A capacity-0 buffer counts as full, and Skip(0) on it divides by zero. */
  lemma SkipEmptyDividesByZero()
    ensures SkipRaw(EmptyRaw(0, true), 0) == None
  {
  }

  /** Shrinking [1, 2] (head at slot 1) to one element from the back leaves
      the tail at 0: the state is proper, yet Last reads index -1 and
      Pop_Back leaves the tail at -1. */
  lemma ReSizeLeavesTailAtZero()
    ensures var s := Raw([2, 1], 2, 1, 1, true);
      var t := Raw([2, 1], 1, 1, 0, true);
      && Proper(s) && Intended(s) == [1, 2]
      && ReSizeRaw(s, 1, 0) == Some(t)
      && Proper(t) && Intended(t) == [1]
      && LastRaw(t) == None
      && PopBackRaw(t) == Some(Raw([2, 1], 0, 1, -1, true))
  {
    var s := Raw([2, 1], 2, 1, 1, true);
    assert Intended(s)[0] == 1 && Intended(s)[1] == 2;
  }

  /** Growing a fresh capacity-3 buffer by one copy from the front leaves the
      tail at 0, and Last reads index -1. */
  lemma RReSizeLeavesTailAtZero()
    ensures var t := Raw([0, 0, 7], 1, 2, 0, true);
      && RReSizeRaw(EmptyRaw(3, true), 1, 7) == Some(t)
      && Proper(t) && Intended(t) == [7]
      && LastRaw(t) == None
  {
    assert seq(3, _ => 0) == [0, 0, 0];
    assert [0, 0, 0][2 := 7] == [0, 0, 7];
    assert HeadBackLoop([0, 0, 0], 0, 7, 1) == Some(([0, 0, 7], 2));
  }
}
