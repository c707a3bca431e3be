/** The ring buffer of the serial receiver, on values and as the class the firmware updates in place. */
module RingBuffers {

  import opened Bytes

  /** Indices past the end wrap around once. */
  function Wrap(i: nat, size: nat): (r: nat)
    requires i < 2 * size
    ensures r < size
  {
    if i < size then i else i - size
  }

  lemma ModIsWrap(i: nat, size: nat)
    requires 0 < size && i < 2 * size
    ensures i % size == Wrap(i, size)
  {
    if i < size {
    } else {
      assert i == 1 * size + (i - size);
    }
  }

  datatype Ring = Ring(base: seq<byte>, first: nat, last: nat, full: bool) {

    predicate InRange() {
      2 <= |base| && first < |base| && last < |base|
    }

    /** What every complete operation keeps: the flag is only up where the two indices meet. */
    predicate Valid() {
      InRange() && (full ==> first == last)
    }

    /** The number of stored items. The flag counts only where the two indices meet. */
    function Live(): (n: nat)
      requires InRange()
      ensures n <= |base|
    {
      if first == last then (if full then |base| else 0)
      else if first < last then last - first
      else last + |base| - first
    }

    /** The stored items, oldest first. */
    function Contents(): (s: seq<byte>)
      requires InRange()
      ensures |s| == Live()
    {
      seq(Live(), i requires 0 <= i < Live() => base[Wrap(first + i, |base|)])
    }

    function Push(val: byte): (r: Ring)
      requires InRange()
      ensures r.InRange() && |r.base| == |base|
    {
      if full then this
      else
        var next := (last + 1) % |base|;
        Ring(base[last := val], first, next, first == next)
    }

    /** `ringbuffer_pop`, its third statement: `first` moves on, the flag is still as it was. */
    function Advance(): (r: Ring)
      requires InRange()
      ensures r.InRange()
    {
      this.(first := (first + 1) % |base|)
    }

    /** `ringbuffer_pop`, its last statement. */
    function ClearFull(): Ring {
      this.(full := false)
    }

    lemma PushAppends(val: byte)
      requires InRange() && !full
      ensures Push(val).Valid() && |Push(val).base| == |base|
      ensures Push(val).Contents() == Contents() + [val]
    {
      ModIsWrap(last + 1, |base|);
      var s, t := Push(val).Contents(), Contents() + [val];
      assert |s| == |t| == Live() + 1;
      assert last == Wrap(first + Live(), |base|);
      forall i | 0 <= i < |s|
        ensures s[i] == t[i]
      {
        assert s[i] == Push(val).base[Wrap(first + i, |base|)];
      }
    }

    lemma AdvanceDrops()
      requires Valid() && Live() > 0
      ensures Advance().InRange() && |Advance().base| == |base|
      ensures Advance().Contents() == Contents()[1..]
      ensures full ==> Advance().first != last
      ensures Advance().ClearFull().Contents() == Advance().Contents()
    {
      ModIsWrap(first + 1, |base|);
      var s, t := Advance().Contents(), Contents()[1..];
      assert |s| == |t| == Live() - 1;
      forall i | 0 <= i < |s|
        ensures s[i] == t[i]
      {
        assert s[i] == base[Wrap(Wrap(first + 1, |base|) + i, |base|)];
        assert t[i] == base[Wrap(first + (i + 1), |base|)];
      }
      Advance().ClearFullKeeps();
    }

    lemma ClearFullKeeps()
      requires InRange() && (first == last ==> !full)
      ensures ClearFull().Contents() == Contents()
    {
    }
  }

  /** The structure that `ringbuffer_t` points to. The master's and the client's differ in `flush` alone. */
  class RingBuffer {
    const base: array<byte>
    const size: nat
    var first: nat
    var last: nat
    var full: bool

    ghost function State(): Ring
      reads this, base
      requires size <= base.Length
    {
      Ring(base[..size], first, last, full)
    }

    ghost predicate Valid()
      reads this, base
    {
      size <= base.Length && State().Valid()
    }

    ghost function Contents(): seq<byte>
      reads this, base
      requires Valid()
    {
      State().Contents()
    }

    constructor (buf: array<byte>, bufSize: nat)
      requires 2 <= bufSize <= buf.Length
      ensures Valid() && base == buf && size == bufSize && Contents() == []
    {
      base, size := buf, bufSize;
      first, last, full := 0, 0, false;
    }

    method Used() returns (n: nat)
      requires Valid()
      ensures n == |Contents()|
    {
      if full {
        return size;
      }
      n := (last + size - first) % size;
      ModIsWrap(last + size - first, size);
    }

    method IsEmpty() returns (r: bool)
      requires Valid()
      ensures r <==> Contents() == []
    {
      r := !full && first == last;
    }

    method IsFull() returns (r: bool)
      requires Valid()
      ensures r <==> |Contents()| == size
    {
      r := full && first == last;
    }

    /** `ringbuffer_pop` with no interrupt in between. */
    method Pop() returns (r: Option<byte>)
      requires Valid()
      modifies this
      ensures Valid()
      ensures old(Contents()) == [] ==> r == None && Contents() == []
      ensures old(Contents()) != [] ==>
        r == Some(old(Contents())[0]) && Contents() == old(Contents())[1..]
    {
      var empty := IsEmpty();
      if empty {
        return None;
      }
      State().AdvanceDrops();
      assert Contents()[0] == State().base[Wrap(first, size)];
      r := Some(base[first]);
      first := (first + 1) % size;
      full := false;
      assert State() == old(State()).Advance().ClearFull();
    }

    /** `ringbuffer_push`: a full buffer refuses the byte. */
    method Push(val: byte) returns (ok: bool)
      requires Valid()
      modifies this, base
      ensures Valid()
      ensures ok == (|old(Contents())| < size)
      ensures Contents() == if ok then old(Contents()) + [val] else old(Contents())
      ensures base[size..] == old(base[size..])
    {
      if full {
        return false;
      }
      State().PushAppends(val);
      base[last] := val;
      last := (last + 1) % size;
      if first == last {
        full := true;
      }
      assert base[..size] == old(base[..size])[old(last) := val];
      assert State() == old(State()).Push(val);
      ok := true;
    }

    /** The master's `ringbuffer_flush` goes back to index 0. */
    method Flush()
      requires Valid()
      modifies this
      ensures Valid() && Contents() == []
    {
      first, last, full := 0, 0, false;
    }

    /** The client's `ringbuffer_flush` stays where the next byte would go. */
    method FlushInPlace()
      requires Valid()
      modifies this
      ensures Valid() && Contents() == [] && last == old(last)
    {
      first := last;
      full := false;
    }
  }

  /** `ringbuffer_new`: no buffer, or one below two bytes, is refused. */
  method RingBufferNew(buf: array?<byte>, bufSize: nat) returns (rb: RingBuffer?)
    requires buf != null ==> bufSize <= buf.Length
    ensures rb == null <==> buf == null || bufSize < 2
    ensures rb != null ==>
      fresh(rb) && rb.Valid() && rb.base == buf && rb.size == bufSize && rb.Contents() == []
  {
    if buf == null || bufSize < 2 {
      return null;
    }
    rb := new RingBuffer(buf, bufSize);
  }
}
