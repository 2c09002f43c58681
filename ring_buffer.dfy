/**
 * Ring_buffer<T>: a fixed-capacity circular buffer over one backing array.
 * The logical contents are the size slots starting at head, wrapping at the
 * end of the array; tail is the source's one-based "last written slot + 1".
 */
module RingBuffers {
  import opened RingModel

  class RingBuffer<T(0,==)> {
    var buf: array<T>
    var size: nat
    var head: nat
    var tail: nat
    var allowOverWrite: bool

    /** The object invariant: size within capacity, head a slot, tail agreeing with head + size. */
    ghost predicate Valid()
      reads this
    {
      WellFormed(buf.Length, head, size) && TailAgrees(buf.Length, head, size, tail)
    }

    /** The logical contents, oldest first. */
    ghost function Contents(): seq<T>
      reads this, buf
      requires Valid()
    {
      View(buf[..], head, size)
    }

    // -------------------------------------------------------------------------
    // Constructors
    // -------------------------------------------------------------------------

    /** An empty buffer of the given capacity. */
    constructor Empty(capacity: nat, canOverWrite: bool)
      ensures Valid() && fresh(buf)
      ensures buf.Length == capacity && Contents() == []
      ensures head == 0 && tail == 0 && allowOverWrite == canOverWrite
    {
      buf := new T[capacity];
      size, head, tail := 0, 0, 0;
      allowOverWrite := canOverWrite;
    }

    /** A full buffer of capacity n holding n copies of item. */
    constructor Filled(n: nat, item: T, canOverWrite: bool)
      ensures Valid() && fresh(buf)
      ensures buf.Length == n && Contents() == Fill(n, item)
      ensures head == 0 && tail == n && allowOverWrite == canOverWrite
    {
      var a := new T[n];
      for i := 0 to n
        invariant forall t :: 0 <= t < i ==> a[t] == item
      {
        a[i] := item;
      }
      buf := a;
      size, head, tail := n, 0, n;
      allowOverWrite := canOverWrite;
      new;
      ViewUnwrapped(buf[..], 0, n);
    }

    /** A buffer of the given capacity holding n copies of item. */
    constructor FilledTo(capacity: nat, n: nat, item: T, canOverWrite: bool)
      requires n <= capacity
      ensures Valid() && fresh(buf)
      ensures buf.Length == capacity && Contents() == Fill(n, item)
      ensures head == 0 && tail == n && allowOverWrite == canOverWrite
    {
      var a := new T[capacity];
      for i := 0 to n
        invariant forall t :: 0 <= t < i ==> a[t] == item
      {
        a[i] := item;
      }
      buf := a;
      size, head, tail := n, 0, n;
      allowOverWrite := canOverWrite;
      new;
      ViewUnwrapped(buf[..], 0, n);
    }

    /** A copy of b with the same layout: capacity, head, size, tail and
        contents, each logical slot copied to the same physical slot. */
    constructor Copy(b: RingBuffer<T>, canOverWrite: bool)
      requires b.Valid()
      ensures Valid() && fresh(buf)
      ensures buf.Length == b.buf.Length && head == b.head && size == b.size && tail == b.tail
      ensures Contents() == b.Contents() && allowOverWrite == canOverWrite
    {
      var cap, h, n := b.buf.Length, b.head, b.size;
      var a := new T[cap];
      var i: nat, j: nat := 0, h;
      while i < n
        invariant i <= n
        invariant h + i == j || h + i == j + cap
        invariant j <= cap
        invariant forall t :: 0 <= t < i ==> a[Phys(cap, h, t)] == b.buf[Phys(cap, h, t)]
      {
        if j == cap {
          j := 0;
        }
        assert j == Phys(cap, h, i);
        forall t | 0 <= t < i ensures Phys(cap, h, t) != j {
          PhysInjective(cap, h, t, i);
        }
        a[j] := b.buf[j];
        i, j := i + 1, j + 1;
      }
      buf := a;
      size, head, tail := b.size, b.head, b.tail;
      allowOverWrite := canOverWrite;
      new;
      ViewFrame(b.buf[..], buf[..], head, size);
    }

    /** The capacity-only constructor with its argument check. */
    static method Make(capacity: int, canOverWrite: bool) returns (r: Result<RingBuffer<T>>)
      ensures r.Err? <==> capacity < 0
      ensures r.Err? ==> r.error == CapacityLessThanZero
      ensures r.Ok? ==> var b := r.value;
        fresh(b) && fresh(b.buf) && b.Valid() && b.buf.Length == capacity && b.Contents() == []
        && b.allowOverWrite == canOverWrite
    {
      if capacity < 0 {
        return Err(CapacityLessThanZero);
      }
      var b := new RingBuffer<T>.Empty(capacity, canOverWrite);
      r := Ok(b);
    }

    /** The (size, item) constructor with its argument check. */
    static method MakeFilled(n: int, item: T, canOverWrite: bool) returns (r: Result<RingBuffer<T>>)
      ensures r.Err? <==> n < 0
      ensures r.Err? ==> r.error == CapacityLessThanZero
      ensures r.Ok? ==> var b := r.value;
        fresh(b) && fresh(b.buf) && b.Valid() && b.buf.Length == n && b.Contents() == Fill(n, item)
        && b.allowOverWrite == canOverWrite
    {
      if n < 0 {
        return Err(CapacityLessThanZero);
      }
      var b := new RingBuffer<T>.Filled(n, item, canOverWrite);
      r := Ok(b);
    }

    /** The (capacity, size, item) constructor with its argument checks, in the source's order. */
    static method MakeFilledTo(capacity: int, n: int, item: T, canOverWrite: bool) returns (r: Result<RingBuffer<T>>)
      ensures r.Err? <==> capacity < 0 || n < 0 || n > capacity
      ensures r.Err? ==> r.error == (if capacity < 0 then CapacityLessThanZero
                                     else if n < 0 then SizeLessThanZero
                                     else CapacityLessThanSize)
      ensures r.Ok? ==> var b := r.value;
        fresh(b) && fresh(b.buf) && b.Valid() && b.buf.Length == capacity && b.Contents() == Fill(n, item)
        && b.allowOverWrite == canOverWrite
    {
      if capacity < 0 {
        return Err(CapacityLessThanZero);
      }
      if n < 0 {
        return Err(SizeLessThanZero);
      }
      if n > capacity {
        return Err(CapacityLessThanSize);
      }
      var b := new RingBuffer<T>.FilledTo(capacity, n, item, canOverWrite);
      r := Ok(b);
    }

    // -------------------------------------------------------------------------
    // Properties and pure queries
    // -------------------------------------------------------------------------

    function Capacity(): (r: nat)
      reads this
      requires Valid()
      ensures |Contents()| <= r
    {
      buf.Length
    }

    function Size(): (r: nat)
      reads this
      requires Valid()
      ensures r == |Contents()|
    {
      size
    }

    /** Free slots. */
    function Reserve(): (r: nat)
      reads this
      requires Valid()
      ensures r + |Contents()| == buf.Length
    {
      buf.Length - size
    }

    function Head(): (r: nat)
      reads this
      requires Valid()
      ensures buf.Length > 0 ==> r < buf.Length
    {
      head
    }

    /** The one-based tail: the slot of the newest element, plus one. */
    function Tail(): (r: nat)
      reads this, buf
      requires Valid()
      ensures r == tail && r <= buf.Length
      ensures 0 < |Contents()| ==> buf[LastSlot(buf.Length, r)] == Contents()[|Contents()| - 1]
    {
      if 0 < size then
        LastSlotHoldsLast(buf.Length, head, size, tail);
        tail
      else
        tail
    }

    method SetAllowOverWrite(value: bool)
      modifies this`allowOverWrite
      ensures allowOverWrite == value
    {
      allowOverWrite := value;
    }

    predicate IsEmpty()
      reads this
      requires Valid()
      ensures IsEmpty() <==> Contents() == []
    {
      0 == size
    }

    predicate IsFull()
      reads this
      requires Valid()
      ensures IsFull() <==> |Contents()| == buf.Length
    {
      size == buf.Length
    }

    /** True when head < tail; then the contents are the one slice buf[head..tail]. */
    predicate IsLinearized()
      reads this, buf
      requires Valid()
      ensures IsLinearized() && size > 0 ==> head + size == tail && Contents() == buf[head..tail]
      ensures !IsLinearized() && size > 0 ==> Contents() == buf[head..] + buf[..tail]
    {
      if head < tail then
        (if size > 0 then ViewUnwrapped(buf[..], head, size); true else true)
      else if size > 0 then
        ViewWrapped(buf[..], head, size);
        false
      else
        false
    }

    /** The element at logical position index. */
    function ElementAt(index: int): (r: Result<T>)
      reads this, buf
      requires Valid()
      ensures r.Ok? <==> 0 <= index < |Contents()|
      ensures r.Ok? ==> r.value == Contents()[index]
      ensures r.Err? ==> r.error == (if size == 0 then SizeIsNull
                                     else if index < 0 then ElementAtIndexIsLessThanNull
                                     else ElementAtIndexIsMoreThanSize)
    {
      if 0 == size then Err(SizeIsNull)
      else if 0 > index then Err(ElementAtIndexIsLessThanNull)
      else if index >= size then Err(ElementAtIndexIsMoreThanSize)
      else Ok(buf[Phys(buf.Length, head, index)])
    }

    /** The oldest element. */
    function First(): (r: Result<T>)
      reads this, buf
      requires Valid()
      ensures r.Err? <==> Contents() == []
      ensures r.Err? ==> r.error == SizeIsNull
      ensures r.Ok? ==> r.value == Contents()[0]
    {
      if IsEmpty() then Err(SizeIsNull) else Ok(buf[head])
    }

    /** The newest element, read at the slot before the one-based tail. */
    function Last(): (r: Result<T>)
      reads this, buf
      requires Valid()
      ensures r.Err? <==> Contents() == []
      ensures r.Err? ==> r.error == SizeIsNull
      ensures r.Ok? ==> r.value == Contents()[|Contents()| - 1]
    {
      if IsEmpty() then Err(SizeIsNull)
      else
        LastSlotHoldsLast(buf.Length, head, size, tail);
        Ok(buf[LastSlot(buf.Length, tail)])
    }

    /** Length of the first contiguous segment: all of the contents when they
        do not wrap, otherwise the slots from head to the end of the array. */
    function SegmentOneLength(): (r: nat)
      reads this
      requires Valid()
      ensures r <= size
    {
      if head < tail then size else Min(size, buf.Length - head)
    }

    // -------------------------------------------------------------------------
    // Insertion
    // -------------------------------------------------------------------------

    /** Appends x. A full buffer evicts its oldest element when overwriting is
        allowed and refuses otherwise; a buffer without slots cannot take x. */
    method Insert(x: T) returns (o: Outcome)
      requires Valid()
      modifies this, buf
      ensures Valid() && buf == old(buf) && allowOverWrite == old(allowOverWrite)
      ensures o.Fail? <==> old(size) == buf.Length && (!allowOverWrite || buf.Length == 0)
      ensures o.Fail? ==> o.error == (if !allowOverWrite then SizeEqualCapacity else IndexOutOfRange)
      ensures o.Fail? ==> head == old(head) && size == old(size) && tail == old(tail) && buf[..] == old(buf[..])
      ensures o.Pass? && old(size) < buf.Length ==> Contents() == old(Contents()) + [x]
      ensures o.Pass? && old(size) == buf.Length ==> Contents() == old(Contents())[1..] + [x]
      ensures o.Pass? ==> Contents() == Push(old(Contents()), x, buf.Length)
    {
      var cap := buf.Length;
      if !allowOverWrite && size == cap {
        return Fail(SizeEqualCapacity);
      }
      if cap == 0 {
        return Fail(IndexOutOfRange);
      }
      if size < cap {
        Append(x);
      } else {
        ghost var s, h := buf[..], head;
        head := if head == cap - 1 then 0 else head + 1;
        tail := if tail == cap then 1 else tail + 1;
        assert tail - 1 == h;
        buf[tail - 1] := x;
        assert buf[..] == s[h := x];
        ViewOverwrite(s, h, x);
      }
      o := Pass;
    }

    /** Insert without eviction: one more element, written after the newest. */
    method Append(x: T)
      requires Valid() && size < buf.Length
      modifies this, buf
      ensures Valid() && buf == old(buf) && head == old(head) && allowOverWrite == old(allowOverWrite)
      ensures size == old(size) + 1 && Contents() == old(Contents()) + [x]
    {
      var cap := buf.Length;
      ghost var s := buf[..];
      TailForward(cap, head, size, tail);
      size := size + 1;
      tail := if tail == cap then 1 else tail + 1;
      buf[tail - 1] := x;
      assert buf[..] == s[Phys(cap, head, size - 1) := x];
      ViewAppend(s, head, size - 1, x);
    }

    /** One more element in front of the oldest, written in the slot before head. */
    method Prepend(x: T)
      requires Valid() && size < buf.Length
      modifies this, buf
      ensures Valid() && buf == old(buf) && tail == old(tail) && allowOverWrite == old(allowOverWrite)
      ensures size == old(size) + 1 && Contents() == [x] + old(Contents())
    {
      var cap := buf.Length;
      ghost var s, h := buf[..], head;
      HeadBack(cap, head, size, tail);
      head := Prev(cap, head);
      buf[head] := x;
      ViewPrepend(s, h, size, x);
      size := size + 1;
    }

    // -------------------------------------------------------------------------
    // Removal
    // -------------------------------------------------------------------------

    /** Removes and returns the oldest element. */
    method Get() returns (r: Result<T>)
      requires Valid()
      modifies this
      ensures Valid() && buf == old(buf) && tail == old(tail) && allowOverWrite == old(allowOverWrite)
      ensures r.Err? <==> old(Contents()) == []
      ensures r.Err? ==> r.error == SizeIsNull && head == old(head) && size == old(size)
      ensures r.Ok? ==> r.value == old(Contents())[0] && Contents() == old(Contents())[1..]
    {
      if 0 == size {
        return Err(SizeIsNull);
      }
      ViewDropFirst(buf[..], head, size);
      size := size - 1;
      var item := buf[head];
      head := head + 1;
      if buf.Length == head {
        head := 0;
      }
      r := Ok(item);
    }

    /** Discards the oldest element. */
    method PopFront() returns (o: Outcome)
      requires Valid()
      modifies this
      ensures Valid() && buf == old(buf) && tail == old(tail) && allowOverWrite == old(allowOverWrite)
      ensures o.Fail? <==> old(Contents()) == []
      ensures o.Fail? ==> o.error == SizeIsNull && head == old(head) && size == old(size)
      ensures o.Pass? ==> Contents() == old(Contents())[1..]
    {
      if 0 == size {
        return Fail(SizeIsNull);
      }
      ViewDropFirst(buf[..], head, size);
      head := head + 1;
      if buf.Length == head {
        head := 0;
      }
      size := size - 1;
      o := Pass;
    }

    /** Discards the newest element; head does not move. */
    method PopBack() returns (o: Outcome)
      requires Valid()
      modifies this
      ensures Valid() && buf == old(buf) && head == old(head) && allowOverWrite == old(allowOverWrite)
      ensures o.Fail? <==> old(Contents()) == []
      ensures o.Fail? ==> o.error == SizeIsNull && size == old(size) && tail == old(tail)
      ensures o.Pass? ==> Contents() == old(Contents())[..old(size) - 1]
    {
      if 0 == size {
        return Fail(SizeIsNull);
      }
      if 0 == tail {
        tail := buf.Length;
      }
      tail := tail - 1;
      if 0 == tail {
        tail := buf.Length;
      }
      size := size - 1;
      ViewDropLast(buf[..], head, size + 1, size);
      o := Pass;
    }

    /** Forgets every element; the array is not cleared. */
    method Clear()
      requires Valid()
      modifies this
      ensures Valid() && buf == old(buf) && allowOverWrite == old(allowOverWrite)
      ensures Contents() == [] && head == 0 && tail == 0
    {
      size, head, tail := 0, 0, 0;
    }

    // -------------------------------------------------------------------------
    // Views and copies
    // -------------------------------------------------------------------------

    /** Whether x is one of the elements. */
    method Contains(x: T) returns (b: bool)
      requires Valid()
      ensures b <==> x in Contents()
    {
      if 0 == size {
        return false;
      }
      ghost var c := Contents();
      var cap := buf.Length;
      var i: nat, j: nat := head, 0;
      while j < size
        invariant j <= size
        invariant head + j == i || head + j == i + cap
        invariant i <= cap
        invariant x !in c[..j]
      {
        if i == cap {
          i := 0;
        }
        assert i == Phys(cap, head, j);
        if x == buf[i] {
          assert c[j] == x;
          return true;
        }
        assert c[..j + 1] == c[..j] + [c[j]];
        i, j := i + 1, j + 1;
      }
      assert c[..j] == c;
      return false;
    }

    /** Copies the first elements, in order, into dest from arrayIndex on:
        as many as count, the size and the room after arrayIndex allow. */
    method CopyTo(dest: array?<T>, arrayIndex: int, count: int) returns (o: Outcome)
      requires Valid() && dest != buf
      modifies dest
      ensures o.Fail? <==> dest == null || arrayIndex < 0 || dest.Length <= arrayIndex
      ensures o.Fail? ==> o.error == (if dest == null then CopyToArrayIsNull
                                      else if arrayIndex < 0 then CopyToArrayIndexIsLessThanNull
                                      else CopyToArrayIndexIsMoreThanLength)
      ensures o.Fail? && dest != null ==> dest[..] == old(dest[..])
      ensures o.Pass? ==> var n := CopyCount(count, size, dest.Length - arrayIndex);
        arrayIndex + n <= dest.Length
        && dest[..] == old(dest[..arrayIndex]) + Contents()[..n] + old(dest[arrayIndex + n..])
    {
      if null == dest {
        return Fail(CopyToArrayIsNull);
      }
      if 0 > arrayIndex {
        return Fail(CopyToArrayIndexIsLessThanNull);
      }
      if dest.Length <= arrayIndex {
        return Fail(CopyToArrayIndexIsMoreThanLength);
      }
      var n := CopyCount(count, size, dest.Length - arrayIndex);
      ghost var c := Contents();
      var cap := buf.Length;
      var i: nat, j: nat := head, arrayIndex;
      while j < arrayIndex + n
        invariant arrayIndex <= j <= arrayIndex + n
        invariant head + (j - arrayIndex) == i || head + (j - arrayIndex) == i + cap
        invariant i <= cap
        invariant forall t :: 0 <= t < dest.Length ==>
          dest[t] == if arrayIndex <= t < j then c[t - arrayIndex] else old(dest[t])
      {
        if cap == i {
          i := 0;
        }
        assert i == Phys(cap, head, j - arrayIndex);
        dest[j] := buf[i];
        i, j := i + 1, j + 1;
      }
      ghost var want := old(dest[..arrayIndex]) + c[..n] + old(dest[arrayIndex + n..]);
      assert forall t :: 0 <= t < dest.Length ==> dest[..][t] == want[t];
      o := Pass;
    }

    /** All the elements in order, as a new array (here its value). */
    method Linearize() returns (r: Result<seq<T>>)
      requires Valid()
      ensures r.Err? <==> Contents() == []
      ensures r.Err? ==> r.error == CopyToArrayIndexIsMoreThanLength
      ensures r.Ok? ==> r.value == Contents()
    {
      var a := new T[size];
      var o := CopyTo(a, 0, size);
      if o.Fail? {
        return Err(o.error);
      }
      assert a[..] == Contents()[..size] + a[size..];
      r := Ok(a[..]);
    }

    /** The elements in order, as the enumerator yields them. */
    method Enumerate() returns (s: seq<T>)
      requires Valid()
      ensures s == Contents()
    {
      ghost var c := Contents();
      var cap := buf.Length;
      s := [];
      var i: nat, j: nat := head, 0;
      while j < size
        invariant j <= size
        invariant head + j == i || head + j == i + cap
        invariant i <= cap
        invariant s == c[..j]
      {
        if i == cap {
          i := 0;
        }
        assert i == Phys(cap, head, j);
        s := s + [buf[i]];
        assert c[..j + 1] == c[..j] + [c[j]];
        i, j := i + 1, j + 1;
      }
      assert c[..j] == c;
    }

    /** The first contiguous segment of the contents. */
    method ArrayOne() returns (r: Result<seq<T>>)
      requires Valid()
      ensures r.Err? <==> Contents() == []
      ensures r.Err? ==> r.error == SizeIsNull
      ensures r.Ok? ==> r.value == Contents()[..SegmentOneLength()]
    {
      if IsEmpty() {
        return Err(SizeIsNull);
      }
      if IsLinearized() {
        r := Linearize();
        assert Contents()[..size] == Contents();
        return;
      }
      var cap := buf.Length;
      var a := new T[cap - head];
      var i, j := head, 0;
      while i < cap
        invariant head <= i <= cap && j == i - head
        invariant a[..j] == buf[head..i]
      {
        a[j] := buf[i];
        assert a[..j + 1] == a[..j] + [a[j]];
        i, j := i + 1, j + 1;
      }
      assert a[..] == a[..j];
      r := Ok(a[..]);
    }

    /** The second contiguous segment: none when the contents do not wrap. */
    method ArrayTwo() returns (r: Result<Option<seq<T>>>)
      requires Valid()
      ensures r.Err? <==> Contents() == []
      ensures r.Err? ==> r.error == SizeIsNull
      ensures r.Ok? ==> (r.value.None? <==> IsLinearized())
      ensures r.Ok? && r.value.Some? ==> r.value.value == Contents()[SegmentOneLength()..]
    {
      if IsEmpty() {
        return Err(SizeIsNull);
      }
      if IsLinearized() {
        return Ok(None);
      }
      var a := new T[tail];
      for i := 0 to tail
        invariant a[..i] == buf[..i]
      {
        a[i] := buf[i];
        assert a[..i + 1] == a[..i] + [a[i]];
      }
      assert a[..] == a[..tail];
      r := Ok(Some(a[..]));
    }

    /** Grows the capacity: the contents move, in order, to the start of a new
        array of value slots. Asking for the current capacity changes nothing;
        asking for less is refused. */
    method SetCapacity(value: int) returns (o: Outcome)
      requires Valid()
      modifies this
      ensures Valid() && size == old(size) && allowOverWrite == old(allowOverWrite)
      ensures Contents() == old(Contents())
      ensures o.Fail? <==> value < old(buf.Length)
      ensures o.Fail? ==> o.error == ValueLessThanCapacity
      ensures o.Fail? || value == old(buf.Length) ==> buf == old(buf) && head == old(head) && tail == old(tail)
      ensures o.Pass? && value != old(buf.Length) ==>
        fresh(buf) && buf.Length == value && head == 0 && tail == size
    {
      if value == buf.Length {
        return Pass;
      }
      if value < buf.Length {
        return Fail(ValueLessThanCapacity);
      }
      ghost var c := Contents();
      var a := new T[value];
      var copied := CopyTo(a, 0, size);
      assert a[..size] == c;
      buf := a;
      head, tail := 0, size;
      ViewUnwrapped(buf[..], 0, size);
      o := Pass;
    }

    // -------------------------------------------------------------------------
    // Bulk insertion and removal
    // -------------------------------------------------------------------------

    /** Inserts the elements of xs from startIndex on, up to count of them; without
        overwriting, only as many as there is room for. Returns how many it inserted. */
    method InsertRange(xs: seq<T>, startIndex: int, count: int) returns (r: Result<nat>)
      requires Valid()
      modifies this, buf
      ensures Valid() && buf == old(buf) && allowOverWrite == old(allowOverWrite)
      ensures r.Err? <==> startIndex < 0 || (allowOverWrite && buf.Length == 0 && RangeInput(xs, startIndex, count) != [])
      ensures r.Err? ==> r.error == (if startIndex < 0 then InsertArrayIndexIsLessThanNull else IndexOutOfRange)
      ensures r.Err? ==> head == old(head) && size == old(size) && tail == old(tail) && buf[..] == old(buf[..])
      ensures r.Ok? ==> var ys := RangeInput(xs, startIndex, count);
        && r.value == (if allowOverWrite then |ys| else Min(|ys|, buf.Length - old(size)))
        && Contents() == PushAll(old(Contents()), ys[..r.value], buf.Length)
        && Contents() == Latest(old(Contents()) + ys[..r.value], buf.Length)
    {
      if 0 > startIndex {
        return Err(InsertArrayIndexIsLessThanNull);
      }
      var ys := RangeInput(xs, startIndex, count);
      var cap := buf.Length;
      var n := if allowOverWrite then |ys| else Min(|ys|, cap - size);
      if cap == 0 && 0 < n {
        return Err(IndexOutOfRange);
      }
      ghost var c := Contents();
      InsertEach(ys[..n]);
      PushAllIsLatest(c, ys[..n], cap);
      r := Ok(n);
    }

    /** The loop of the bulk Insert: inserts the elements of ys one by one, when
        they fit or the buffer may overwrite. */
    method InsertEach(ys: seq<T>)
      requires Valid() && (buf.Length == 0 ==> ys == [])
      requires allowOverWrite || size + |ys| <= buf.Length
      modifies this, buf
      ensures Valid() && buf == old(buf) && allowOverWrite == old(allowOverWrite)
      ensures Contents() == Latest(old(Contents()) + ys, buf.Length)
    {
      ghost var c := Contents();
      var i := 0;
      while i < |ys|
        invariant 0 <= i <= |ys|
        invariant Valid() && buf == old(buf) && allowOverWrite == old(allowOverWrite)
        invariant Contents() == Latest(c + ys[..i], buf.Length)
        invariant !allowOverWrite ==> size == |c| + i
      {
        var o := Insert(ys[i]);
        LatestStep(c, ys, i, buf.Length, Contents());
        i := i + 1;
      }
      assert ys[..i] == ys;
    }

    /** Inserts every element of xs. */
    method InsertAll(xs: seq<T>) returns (r: Result<nat>)
      requires Valid()
      modifies this, buf
      ensures Valid() && buf == old(buf) && allowOverWrite == old(allowOverWrite)
      ensures r.Err? <==> allowOverWrite && buf.Length == 0 && xs != []
      ensures r.Err? ==> r.error == IndexOutOfRange && Contents() == old(Contents())
      ensures r.Ok? && allowOverWrite ==> r.value == |xs| && Contents() == Latest(old(Contents()) + xs, buf.Length)
      ensures r.Ok? && !allowOverWrite ==> var n := Min(|xs|, buf.Length - old(size));
        r.value == n && Contents() == old(Contents()) + xs[..n]
    {
      ghost var c := Contents();
      r := InsertRange(xs, 0, |xs|);
      assert RangeInput(xs, 0, |xs|) == xs;
      if r.Ok? && !allowOverWrite {
        PushAllAppends(c, xs[..r.value], buf.Length);
      }
    }

    /** Moves the first elements, in order, into dest from arrayIndex on (as many
        as count, the size and the room after arrayIndex allow) and removes them
        from the buffer. Returns how many it moved. */
    method GetRange(dest: array?<T>, arrayIndex: int, count: int) returns (r: Result<nat>)
      requires Valid() && dest != buf
      modifies this, dest
      ensures Valid() && buf == old(buf) && tail == old(tail) && allowOverWrite == old(allowOverWrite)
      ensures r.Err? <==> dest == null || arrayIndex < 0 || dest.Length <= arrayIndex
      ensures r.Err? ==> r.error == (if dest == null then CopyToArrayIsNull
                                     else if arrayIndex < 0 then CopyToArrayIndexIsLessThanNull
                                     else CopyToArrayIndexIsMoreThanLength)
      ensures r.Err? ==> head == old(head) && size == old(size)
      ensures r.Err? && dest != null ==> dest[..] == old(dest[..])
      ensures r.Ok? ==> var n := r.value;
        && n == CopyCount(count, old(size), dest.Length - arrayIndex)
        && arrayIndex + n <= dest.Length
        && dest[..] == old(dest[..arrayIndex]) + old(Contents())[..n] + old(dest[arrayIndex + n..])
        && Contents() == old(Contents())[n..]
    {
      if null == dest {
        return Err(CopyToArrayIsNull);
      }
      if 0 > arrayIndex {
        return Err(CopyToArrayIndexIsLessThanNull);
      }
      if dest.Length <= arrayIndex {
        return Err(CopyToArrayIndexIsMoreThanLength);
      }
      var n := CopyCount(count, size, dest.Length - arrayIndex);
      MoveOut(dest, arrayIndex, n);
      r := Ok(n);
    }

    /** The loop of GetRange: moves the n oldest elements into dest from
        arrayIndex on and drops them from the buffer. */
    method MoveOut(dest: array<T>, arrayIndex: nat, n: nat)
      requires Valid() && dest != buf && n <= size && arrayIndex + n <= dest.Length
      modifies this, dest
      ensures Valid() && buf == old(buf) && tail == old(tail) && allowOverWrite == old(allowOverWrite)
      ensures buf[..] == old(buf[..])
      ensures dest[..] == old(dest[..arrayIndex]) + old(Contents())[..n] + old(dest[arrayIndex + n..])
      ensures Contents() == old(Contents())[n..]
    {
      ghost var c := Contents();
      ghost var h := head;
      var cap := buf.Length;
      var j: nat := arrayIndex;
      while j < arrayIndex + n
        invariant arrayIndex <= j <= arrayIndex + n
        invariant buf == old(buf) && size == old(size) && tail == old(tail) && allowOverWrite == old(allowOverWrite)
        invariant buf[..] == old(buf[..])
        invariant WellFormed(cap, head, 0)
        invariant h + (j - arrayIndex) == head || h + (j - arrayIndex) == head + cap
        invariant forall t :: 0 <= t < dest.Length ==>
          dest[t] == if arrayIndex <= t < j then c[t - arrayIndex] else old(dest[t])
      {
        assert head == Phys(cap, h, j - arrayIndex);
        dest[j] := buf[head];
        head := head + 1;
        if cap == head {
          head := 0;
        }
        j := j + 1;
      }
      ghost var want := old(dest[..arrayIndex]) + c[..n] + old(dest[arrayIndex + n..]);
      assert forall t :: 0 <= t < dest.Length ==> dest[..][t] == want[t];
      ViewDropPrefix(buf[..], h, size, n, head);
      size := size - n;
    }

    /** Removes the first occurrence of x; the elements after it close up, in order. */
    method Remove(x: T) returns (b: bool)
      requires Valid()
      modifies this, buf
      ensures Valid() && buf == old(buf) && allowOverWrite == old(allowOverWrite)
      ensures b <==> x in old(Contents())
      ensures !b ==> head == old(head) && size == old(size) && tail == old(tail) && buf[..] == old(buf[..])
      ensures b ==> Contents() == RemoveAt(old(Contents()), FirstIndex(old(Contents()), x))
    {
      var found := Contains(x);
      if !found {
        return false;
      }
      ghost var c := Contents();
      var j, i := Find(x);
      var o;
      if j == 0 {
        // the oldest element: move head past it
        o := PopFront();
        assert RemoveAt(c, 0) == c[1..];
      } else {
        CloseUp(j, i);
        ViewDropLast(buf[..], head, size, size - 1);
        // the newest slot now repeats its predecessor: drop it
        o := PopBack();
      }
      b := true;
    }

    /** The search half of Remove: the logical position of the first occurrence
        of x, and the slot holding it. */
    method Find(x: T) returns (j: nat, i: nat)
      requires Valid() && x in Contents()
      ensures j < size && j == FirstIndex(Contents(), x) && i == Phys(buf.Length, head, j)
    {
      ghost var c := Contents();
      var cap := buf.Length;
      i, j := head, 0;
      while true
        invariant j <= FirstIndex(c, x)
        invariant head + j == i || head + j == i + cap
        invariant i <= cap
        invariant x !in c[..j]
        decreases size - j
      {
        if cap == i {
          i := 0;
        }
        assert i == Phys(cap, head, j);
        if x == buf[i] {
          break;
        }
        assert c[..j + 1] == c[..j] + [c[j]];
        i, j := i + 1, j + 1;
      }
      FirstIndexUnique(c, x, j);
    }

    /** The shifting half of Remove: every element after logical position j
        moves one position towards the front; the last position keeps its value. */
    method CloseUp(j: nat, i: nat)
      requires Valid() && j < size && i == Phys(buf.Length, head, j)
      modifies buf
      ensures View(buf[..], head, size - 1) == RemoveAt(old(Contents()), j)
    {
      ghost var c := Contents();
      ShiftStart(buf[..], head, size, j);
      var cap := buf.Length;
      var p: nat, t: nat := i, j;
      while t + 1 < size
        invariant j <= t < size
        invariant head + t == p || head + t == p + cap
        invariant p < cap
        invariant ShiftedDown(buf[..], head, c, j, t)
      {
        var q: nat := if cap == p + 1 then 0 else p + 1;
        assert p == Phys(cap, head, t) && q == Phys(cap, head, t + 1);
        ghost var s := buf[..];
        buf[p] := buf[q];
        ShiftStep(s, head, c, j, t, p, q, buf[..]);
        p, t := q, t + 1;
      }
      ShiftDone(buf[..], head, c, j);
    }

    // -------------------------------------------------------------------------
    // Resizing
    // -------------------------------------------------------------------------

    /** Sets the number of elements: shrinking drops the newest ones, growing
        appends copies of item. The capacity stays. */
    method ReSize(newSize: int, item: T) returns (o: Outcome)
      requires Valid()
      modifies this, buf
      ensures Valid() && buf == old(buf) && head == old(head) && allowOverWrite == old(allowOverWrite)
      ensures o.Fail? <==> newSize > buf.Length || newSize < 0
      ensures o.Fail? ==> o.error == (if newSize > buf.Length then CapacityLessThanSize else SizeLessThanZero)
      ensures o.Fail? ==> size == old(size) && tail == old(tail) && buf[..] == old(buf[..])
      ensures o.Pass? && newSize <= old(size) ==> Contents() == old(Contents())[..newSize]
      ensures o.Pass? && newSize > old(size) ==> Contents() == old(Contents()) + Fill(newSize - old(size), item)
    {
      if newSize > buf.Length {
        return Fail(CapacityLessThanSize);
      }
      if 0 > newSize {
        return Fail(SizeLessThanZero);
      }
      if newSize == size {
        return Pass;
      }
      if newSize < size {
        DropNewest(size - newSize);
      } else {
        AppendCopies(newSize - size, item);
      }
      o := Pass;
    }

    /** The shrinking half of ReSize: steps the tail back over the k newest elements. */
    method DropNewest(k: nat)
      requires Valid() && k <= size
      modifies this
      ensures Valid() && buf == old(buf) && head == old(head) && allowOverWrite == old(allowOverWrite)
      ensures size == old(size) - k && Contents() == old(Contents())[..old(size) - k]
    {
      var cap := buf.Length;
      for j := 0 to k
        invariant buf == old(buf) && head == old(head) && size == old(size)
        invariant allowOverWrite == old(allowOverWrite)
        invariant TailAgrees(cap, head, size - j, tail)
      {
        TailBack(cap, head, size - j, tail);
        if 0 == tail {
          tail := cap;
        }
        tail := tail - 1;
      }
      ViewDropLast(buf[..], head, size, size - k);
      size := size - k;
    }

    /** The growing half of ReSize: writes k copies of item after the newest element. */
    method AppendCopies(k: nat, item: T)
      requires Valid() && size + k <= buf.Length
      modifies this, buf
      ensures Valid() && buf == old(buf) && head == old(head) && allowOverWrite == old(allowOverWrite)
      ensures size == old(size) + k && Contents() == old(Contents()) + Fill(k, item)
    {
      ghost var c := Contents();
      for j := 0 to k
        invariant Valid() && buf == old(buf) && head == old(head) && allowOverWrite == old(allowOverWrite)
        invariant size == old(size) + j && Contents() == c + Fill(j, item)
      {
        Append(item);
        FillAppend(j, item, c, Contents());
      }
    }

    /** Sets the number of elements from the front: shrinking drops the oldest
        ones, growing prepends copies of item. The capacity stays. */
    method RReSize(newSize: int, item: T) returns (o: Outcome)
      requires Valid()
      modifies this, buf
      ensures Valid() && buf == old(buf) && tail == old(tail) && allowOverWrite == old(allowOverWrite)
      ensures o.Fail? <==> newSize > buf.Length || newSize < 0
      ensures o.Fail? ==> o.error == (if newSize > buf.Length then CapacityLessThanSize else SizeLessThanZero)
      ensures o.Fail? ==> head == old(head) && size == old(size) && buf[..] == old(buf[..])
      ensures o.Pass? && newSize <= old(size) ==> Contents() == old(Contents())[old(size) - newSize..]
      ensures o.Pass? && newSize > old(size) ==> Contents() == Fill(newSize - old(size), item) + old(Contents())
    {
      if newSize > buf.Length {
        return Fail(CapacityLessThanSize);
      }
      if 0 > newSize {
        return Fail(SizeLessThanZero);
      }
      if newSize == size {
        return Pass;
      }
      if newSize < size {
        DropOldest(size - newSize);
      } else {
        PrependCopies(newSize - size, item);
      }
      o := Pass;
    }

    /** The shrinking half of RReSize: moves the head past the k oldest elements. */
    method DropOldest(k: nat)
      requires Valid() && k <= size
      modifies this
      ensures Valid() && buf == old(buf) && tail == old(tail) && allowOverWrite == old(allowOverWrite)
      ensures size == old(size) - k && Contents() == old(Contents())[k..]
    {
      if k == 0 {
        return;
      }
      var cap := buf.Length;
      ghost var h := head;
      for j := 0 to k
        invariant buf == old(buf) && tail == old(tail) && size == old(size)
        invariant allowOverWrite == old(allowOverWrite)
        invariant head < cap
        invariant h + j == head || h + j == head + cap
      {
        head := head + 1;
        if cap == head {
          head := 0;
        }
      }
      ViewDropPrefix(buf[..], h, size, k, head);
      size := size - k;
    }

    /** The growing half of RReSize: writes k copies of item before the oldest element. */
    method PrependCopies(k: nat, item: T)
      requires Valid() && size + k <= buf.Length
      modifies this, buf
      ensures Valid() && buf == old(buf) && tail == old(tail) && allowOverWrite == old(allowOverWrite)
      ensures size == old(size) + k && Contents() == Fill(k, item) + old(Contents())
    {
      ghost var c := Contents();
      for j := 0 to k
        invariant Valid() && buf == old(buf) && tail == old(tail) && allowOverWrite == old(allowOverWrite)
        invariant size == old(size) + j && Contents() == Fill(j, item) + c
      {
        Prepend(item);
        FillPrepend(j, item, c, Contents());
      }
    }

    // -------------------------------------------------------------------------
    // Reordering
    // -------------------------------------------------------------------------

    /** Exchanges the slots p and q through a temporary. */
    method Swap(p: nat, q: nat)
      requires p < buf.Length && q < buf.Length
      modifies buf
      ensures buf[..] == old(buf[..])[p := old(buf[..])[q]][q := old(buf[..])[p]]
    {
      var tmp := buf[p];
      buf[p] := buf[q];
      buf[q] := tmp;
    }

    /** Reverses the order of the elements in place, swapping from both ends. */
    method Reverse()
      requires Valid()
      modifies buf
      ensures Contents() == Reversed(old(Contents()))
    {
      ghost var c := Contents();
      ReversalStart(buf[..], head, size);
      var cap := buf.Length;
      var half := size / 2;
      assert half + half <= size <= half + half + 1;
      var i: nat, j: nat, k: nat := head, tail, 0;
      while k < half
        invariant k <= half
        invariant i <= cap && j <= cap
        invariant head + k == i || head + k == i + cap
        invariant 0 < size ==> head + size - k == j || head + size - k == j + cap
        invariant PartlyReversed(buf[..], head, c, k)
      {
        if cap == i {
          i := 0;
        }
        if 0 == j {
          j := cap;
        }
        assert i == Phys(cap, head, k) && j - 1 == Phys(cap, head, size - 1 - k);
        ghost var s := buf[..];
        Swap(i, j - 1);
        ReversalStep(s, head, c, k, i, j - 1, buf[..]);
        i, j, k := i + 1, j - 1, k + 1;
      }
      ReversalDone(buf[..], head, c, k);
    }

    /** The in-place rotation of the array slots first..last so that the slot at
        middle comes first (the classic forward swap rotation). Head, size and
        tail stay; when first..last is exactly an unwrapped contents range, the
        contents rotate by middle - first. With first == middle the swap loop
        never runs, whatever the three indices are. */
    method Rotate(first: int, middle: int, last: int)
      requires Valid()
      requires first == middle || (0 <= first <= middle < last <= buf.Length)
      modifies buf
      ensures first == middle ==> buf[..] == old(buf[..])
      ensures 0 <= first <= middle <= last <= buf.Length ==>
        buf[..] == old(buf[..first]) + Rotated(old(buf[first..last]), middle - first) + old(buf[last..])
      ensures first == head && last == head + size ==> Contents() == Rotated(old(Contents()), middle - first)
    {
      ghost var s0 := buf[..];
      if first == middle {
        assert Rotated(Contents(), 0) == Contents();
        if 0 <= first <= last <= buf.Length {
          assert Rotated(s0[first..last], 0) == s0[first..last];
          assert s0[..first] + s0[first..last] + s0[last..] == s0;
        }
        return;
      }
      RotateSlots(buf, first, middle, last);
      if first == head && last == head + size {
        ViewRotated(s0, buf[..], head, size, first, middle, last);
      }
    }

    /** On a full buffer, makes the element count places on the oldest (the
        earlier ones move to the back); otherwise does nothing. */
    method Skip(count: int)
      requires Valid()
      modifies this
      ensures Valid() && buf == old(buf) && size == old(size) && allowOverWrite == old(allowOverWrite)
      ensures old(size) == buf.Length && 0 < buf.Length ==>
        Contents() == Rotated(old(Contents()), count % buf.Length)
      ensures !(old(size) == buf.Length && 0 < buf.Length) ==> head == old(head) && tail == old(tail)
    {
      if size != buf.Length || 0 == buf.Length {
        return;
      }
      var k := count % buf.Length;
      ViewShift(buf[..], head, k);
      head := Phys(buf.Length, head, k);
      tail := head;
    }
  }

  /** One pass of Rotate's loop body: swap slots f and n, then advance both;
      next wraps back to middle at last, else middle follows next once first
      meets it. */
  method RotateSwap<T>(a: array<T>, ghost s0: seq<T>, ghost r: seq<T>, ghost first: nat, last: nat,
                       f: nat, m: nat, n: nat)
    returns (m': nat, n': nat)
    requires RotationState(s0, r, first, last, a[..], f, m, n) && f != n
    modifies a
    ensures RotationState(s0, r, first, last, a[..], f + 1, m', n')
  {
    RotationBounds(s0, r, first, last, a[..], f, m, n);
    ghost var s := a[..];
    var tmp := a[f];
    a[f] := a[n];
    a[n] := tmp;
    assert a[..] == s[f := s[n]][n := s[f]];
    m', n' := m, n + 1;
    if n' == last {
      n' := m;
    } else if f + 1 == m {
      m' := n';
    }
    RotationAdvance(s0, r, first, last, s, f, m, n, a[..], m', n');
  }

  /** The swap loop of Rotate on an in-range slot range of a: afterwards
      [first, last) holds its rotation by middle - first and the other slots
      are unchanged. */
  method RotateSlots<T>(a: array<T>, first: nat, middle: nat, last: nat)
    requires first <= middle <= last <= a.Length && (middle == last ==> first == middle)
    modifies a
    ensures a[..] == old(a[..])[..first] + Rotated(old(a[..])[first..last], middle - first) + old(a[..])[last..]
  {
    ghost var s0 := a[..];
    ghost var r := Rotated(s0[first..last], middle - first);
    RotationStart(s0, first, middle, last);
    var f: nat, m: nat, n: nat := first, middle, middle;
    while f != n
      invariant RotationState(s0, r, first, last, a[..], f, m, n)
      decreases last - f
    {
      m, n := RotateSwap(a, s0, r, first, last, f, m, n);
      f := f + 1;
    }
    RotationDone(s0, r, first, last, a[..], f, m, n);
  }
}
