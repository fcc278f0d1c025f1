/** The packet ring buffer of the CRSF bridge (circ_buf.c, circ_buf.h): a fixed array of
    `max` slots with a write index `head`, a read index `tail` and a `full` flag telling
    the two cases `head == tail` apart. Writing into a full buffer overwrites the oldest
    item.

    `Ring` keeps the fields of `struct circular_buf`; the caller's storage is the slot
    sequence, one element per item (the byte size of an item plays no part in the index
    arithmetic). `Abs` reads a ring as the FIFO sequence of its items, oldest first, and
    every operation is proved against that sequence.
 */
module CircBuf {
  import opened Options

  datatype Ring<T> = Ring(slots: seq<T>, head: nat, tail: nat, full: bool)

  /** `cbuf_capacity`. */
  function Capacity<T>(r: Ring<T>): nat
  {
    |r.slots|
  }

  /** The shape every operation keeps: indices inside the array (both 0 for an array of no
      slots), and a full buffer has its indices equal. */
  ghost predicate Valid<T>(r: Ring<T>)
  {
    && (if |r.slots| == 0 then r.head == 0 && r.tail == 0 && !r.full
        else r.head < |r.slots| && r.tail < |r.slots|)
    && (r.full ==> r.head == r.tail)
  }

  /** `i % m` for `0 <= i < 2 * m`, written without division. */
  function Wrap(i: nat, m: nat): nat
    requires i < 2 * m
  {
    if i < m then i else i - m
  }

  /** `cbuf_size`: all slots when full, otherwise the distance from tail to head. */
  function Size<T>(r: Ring<T>): (n: nat)
    requires Valid(r)
    ensures n <= Capacity(r)
    ensures r.full ==> n == Capacity(r)
    ensures !r.full && Capacity(r) > 0 ==> n < Capacity(r) && Wrap(r.tail + n, Capacity(r)) == r.head
  {
    if r.full then |r.slots|
    else if r.head >= r.tail then r.head - r.tail
    else |r.slots| + r.head - r.tail
  }

  /** The item `i` places after the tail. */
  function Item<T>(r: Ring<T>, i: nat): T
    requires Valid(r) && i < Size(r)
  {
    r.slots[Wrap(r.tail + i, |r.slots|)]
  }

  /** The items held, oldest first. */
  ghost function Abs<T>(r: Ring<T>): (items: seq<T>)
    requires Valid(r)
    ensures |items| == Size(r)
    ensures forall i :: 0 <= i < |items| ==> items[i] == Item(r, i)
  {
    seq(Size(r), i requires 0 <= i < Size(r) => Item(r, i))
  }

  /** An index advanced by one, `(i + 1) % max`. */
  function Next(i: nat, max: nat): (j: nat)
    requires i < max
    ensures j == if i + 1 < max then i + 1 else 0
  {
    (i + 1) % max
  }

  /** `cbuf_empty`: no item is held. */
  function Empty<T>(r: Ring<T>): (b: bool)
    requires Valid(r)
    ensures b <==> Size(r) == 0
    ensures b <==> Abs(r) == []
  {
    !r.full && r.head == r.tail
  }

  /** `cbuf_full`: the flag, which is set exactly when every slot holds an item. */
  function Full<T>(r: Ring<T>): (b: bool)
    requires Valid(r)
    ensures b <==> Capacity(r) > 0 && Size(r) == Capacity(r)
  {
    r.full
  }

  /** `cbuf_init`: a ring over the caller's storage, holding nothing. */
  function Init<T>(storage: seq<T>): (r: Ring<T>)
    ensures Valid(r) && Capacity(r) == |storage|
    ensures Size(r) == 0 && Empty(r) && Abs(r) == []
    ensures r.head == 0 && r.tail == 0 && !r.full
  {
    Reset(Ring(storage, 0, 0, false))
  }

  /** `cbuf_reset`: both indices back to 0, nothing held; the storage stays. */
  function Reset<T>(r: Ring<T>): (r': Ring<T>)
    ensures Valid(r') && r'.slots == r.slots
    ensures Size(r') == 0 && Empty(r') && Abs(r') == []
    ensures r'.head == 0 && r'.tail == 0 && !r'.full
  {
    r.(head := 0, tail := 0, full := false)
  }

  /** `cbuf_put`: store at `head` and advance it; when the buffer was full the tail moves
      too, dropping the oldest item. */
  function Put<T>(r: Ring<T>, item: T): (r': Ring<T>)
    requires Valid(r) && Capacity(r) > 0
    ensures Valid(r') && Capacity(r') == Capacity(r)
    ensures Size(r') == if r.full then Size(r) else Size(r) + 1
  {
    var max := |r.slots|;
    var tail := if r.full then Next(r.tail, max) else r.tail;
    var head := Next(r.head, max);
    Ring(r.slots[r.head := item], head, tail, head == tail)
  }

  /** `cbuf_get`: on an empty buffer nothing happens and -1 is returned (`None` here);
      otherwise the item at `tail` is copied out and the tail advances. */
  function Get<T>(r: Ring<T>): (res: (Ring<T>, Option<T>))
    requires Valid(r)
    ensures Valid(res.0) && Capacity(res.0) == Capacity(r)
    ensures res.1.None? <==> Empty(r)
    ensures res.1.None? ==> res.0 == r
    ensures res.1.Some? ==> Size(res.0) == Size(r) - 1 && !res.0.full
  {
    if Empty(r) then (r, None)
    else (r.(full := false, tail := Next(r.tail, |r.slots|)), Some(r.slots[r.tail]))
  }

  /** `cbuf_get_ptr`: the oldest item without removing it, or NULL (`None`) when empty. */
  function GetPtr<T>(r: Ring<T>): (item: Option<T>)
    requires Valid(r)
    ensures item.None? <==> Empty(r)
    ensures item.Some? ==> item.value == Abs(r)[0]
  {
    if Empty(r) then None else Some(r.slots[r.tail])
  }

  /** `cbuf_drop`: as `cbuf_get` without the copy. Its result says whether -1 was returned;
      on success the C function falls off its end and the value is undefined. */
  function Drop<T>(r: Ring<T>): (res: (Ring<T>, bool))
    requires Valid(r)
    ensures res.1 <==> Empty(r)
    ensures res.0 == Get(r).0
  {
    if Empty(r) then (r, true) else (r.(full := false, tail := Next(r.tail, |r.slots|)), false)
  }

  // ---- the FIFO the ring implements ------------------------------------------------------

  /** Putting into a buffer with room appends the item. */
  lemma PutAppends<T>(r: Ring<T>, item: T)
    requires Valid(r) && Capacity(r) > 0 && !r.full
    ensures Abs(Put(r, item)) == Abs(r) + [item]
  {
    var r' := Put(r, item);
    var max := |r.slots|;
    var n := Size(r);
    assert r'.tail == r.tail;
    forall i | 0 <= i < n + 1
      ensures Abs(r')[i] == (Abs(r) + [item])[i]
    {
      if i < n {
        assert Wrap(r.tail + i, max) != r.head;
      }
    }
  }

  /** Putting into a full buffer drops the oldest item and appends the new one. */
  lemma PutOverwritesOldest<T>(r: Ring<T>, item: T)
    requires Valid(r) && Capacity(r) > 0 && r.full
    ensures Abs(Put(r, item)) == Abs(r)[1..] + [item]
  {
    var r' := Put(r, item);
    var max := |r.slots|;
    assert r'.tail == Wrap(r.tail + 1, max);
    forall i | 0 <= i < max
      ensures Abs(r')[i] == (Abs(r)[1..] + [item])[i]
    {
      if i < max - 1 {
        assert Wrap(r'.tail + i, max) == Wrap(r.tail + i + 1, max) != r.head;
      } else {
        assert Wrap(r'.tail + i, max) == r.head;
      }
    }
  }

  /** Getting from a non-empty buffer yields the oldest item and removes it. */
  lemma GetTakesOldest<T>(r: Ring<T>)
    requires Valid(r) && !Empty(r)
    ensures Get(r).1 == Some(Abs(r)[0])
    ensures Abs(Get(r).0) == Abs(r)[1..]
  {
    var r' := Get(r).0;
    var max := |r.slots|;
    assert r'.tail == Wrap(r.tail + 1, max);
    forall i | 0 <= i < Size(r')
      ensures Abs(r')[i] == Abs(r)[1..][i]
    {
      assert Wrap(r'.tail + i, max) == Wrap(r.tail + i + 1, max);
    }
  }

  /** Items come out in the order they went in: into an empty buffer with room for them,
      two puts followed by two gets give the two items back, first one first. */
  lemma FirstInFirstOut<T>(r: Ring<T>, x: T, y: T)
    requires Valid(r) && Empty(r) && Capacity(r) >= 2
    ensures var full := Put(Put(r, x), y);
      var g1 := Get(full);
      var g2 := Get(g1.0);
      g1.1 == Some(x) && g2.1 == Some(y) && Empty(g2.0)
  {
    var r1 := Put(r, x);
    PutAppends(r, x);
    assert !r1.full;
    var r2 := Put(r1, y);
    PutAppends(r1, y);
    assert Abs(r2) == [x, y];
    GetTakesOldest(r2);
    var g1 := Get(r2);
    GetTakesOldest(g1.0);
  }

  // ---- a mutable wrapper, as the bridge uses it ------------------------------------------

  /** The buffer as an object whose ghost `Contents` is the FIFO it holds. */
  class Buffer<T> {
    var ring: Ring<T>
    ghost var Contents: seq<T>

    ghost predicate Inv()
      reads this
    {
      Valid(ring) && Contents == Abs(ring)
    }

    constructor (storage: seq<T>)
      ensures Inv() && Contents == [] && Capacity(ring) == |storage|
    {
      ring := Init(storage);
      Contents := [];
    }

    method PutItem(item: T)
      requires Inv() && Capacity(ring) > 0
      modifies this
      ensures Inv() && Capacity(ring) == old(Capacity(ring))
      ensures Contents == if |old(Contents)| == Capacity(ring) then old(Contents)[1..] + [item]
                          else old(Contents) + [item]
    {
      if ring.full {
        PutOverwritesOldest(ring, item);
      } else {
        PutAppends(ring, item);
      }
      ring := Put(ring, item);
      Contents := Abs(ring);
    }

    method GetItem() returns (item: Option<T>)
      requires Inv()
      modifies this
      ensures Inv() && Capacity(ring) == old(Capacity(ring))
      ensures old(Contents) == [] ==> item.None? && Contents == []
      ensures old(Contents) != [] ==> item == Some(old(Contents)[0]) && Contents == old(Contents)[1..]
    {
      if !Empty(ring) {
        GetTakesOldest(ring);
      }
      var res := Get(ring);
      ring, item := res.0, res.1;
      Contents := Abs(ring);
    }
  }
}
