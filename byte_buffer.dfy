/**
 * The part of `java.nio.ByteBuffer` the core relies on: a fixed-capacity,
 * zero-filled backing array with a write/read position. A relative `put`
 * that does not fit throws `BufferOverflowException` before writing
 * anything; a relative `get` that does not fit throws
 * `BufferUnderflowException`. Both are modelled as an `ok` result of false
 * with the buffer unchanged.
 */
module ByteBuffers {
  import opened Common

  class ByteBuffer {
    const data: array<byte>
    var position: nat

    ghost predicate Valid()
      reads this
    {
      position <= data.Length
    }

    /** `ByteBuffer.allocate(capacity)`. */
    constructor Allocate(capacity: nat)
      ensures Valid() && fresh(data)
      ensures data.Length == capacity && position == 0
      ensures data[..] == Zeros(capacity)
    {
      data := new byte[capacity](_ => 0);
      position := 0;
    }

    /** The buffer holds `w` from the start, the position is just after it, zeros follow. */
    ghost predicate Holds(w: seq<byte>)
      reads this, data
    {
      position == |w| <= data.Length && data[..] == w + Zeros(data.Length - |w|)
    }

    /** `put(src)`: copies `src` at the position, or fails without writing. */
    method Put(src: seq<byte>) returns (ok: bool)
      requires Valid()
      modifies this, data
      ensures Valid()
      ensures ok == (old(position) + |src| <= data.Length)
      ensures ok ==> position == old(position) + |src|
      ensures ok ==> data[..] == old(data[..])[..old(position)] + src + old(data[..])[old(position) + |src|..]
      ensures !ok ==> position == old(position) && data[..] == old(data[..])
    {
      ok := position + |src| <= data.Length;
      if !ok {
        return;
      }
      var i := 0;
      while i < |src|
        invariant 0 <= i <= |src|
        invariant forall k :: 0 <= k < old(position) ==> data[k] == old(data[k])
        invariant forall k :: 0 <= k < i ==> data[old(position) + k] == src[k]
        invariant forall k :: old(position) + i <= k < data.Length ==> data[k] == old(data[k])
        invariant position == old(position)
      {
        data[position + i] := src[i];
        i := i + 1;
      }
      position := position + |src|;
      assert data[..] == old(data[..])[..old(position)] + src + old(data[..])[old(position) + |src|..];
    }

    /** `put(b)` for a single byte. */
    method PutByte(b: byte) returns (ok: bool)
      requires Valid()
      modifies this, data
      ensures Valid()
      ensures ok == (old(position) < data.Length)
      ensures ok ==> position == old(position) + 1 && data[..] == old(data[..])[old(position) := b]
      ensures !ok ==> position == old(position) && data[..] == old(data[..])
    {
      ok := position < data.Length;
      if ok {
        data[position] := b;
        position := position + 1;
      }
    }

    /** `rewind()`: the position goes back to zero, contents are kept. */
    method Rewind()
      requires Valid()
      modifies this
      ensures Valid() && position == 0
      ensures data[..] == old(data[..])
    {
      position := 0;
    }

    /** `get(dst)` into a fresh array of length `n`. */
    method Get(n: nat) returns (ok: bool, dst: seq<byte>)
      requires Valid()
      modifies this
      ensures Valid()
      ensures ok == (old(position) + n <= data.Length)
      ensures ok ==> dst == data[old(position)..old(position) + n] && position == old(position) + n
      ensures !ok ==> dst == Zeros(n) && position == old(position)
    {
      ok := position + n <= data.Length;
      if ok {
        dst := data[position..position + n];
        position := position + n;
      } else {
        dst := Zeros(n);
      }
    }

    /** `array()`: the whole backing array, whatever the position. */
    method BackingArray() returns (a: seq<byte>)
      ensures a == data[..]
    {
      a := data[..];
    }
  }

  /** Putting `src` into a buffer that holds `w` leaves it holding `w + src`. */
  lemma PutOntoZeros(w: seq<byte>, src: seq<byte>, capacity: nat)
    requires |w| + |src| <= capacity
    ensures var before := w + Zeros(capacity - |w|);
      before[..|w|] + src + before[|w| + |src|..] == (w + src) + Zeros(capacity - |w + src|)
  {
    var before := w + Zeros(capacity - |w|);
    assert before[..|w|] == w;
    assert before[|w| + |src|..] == Zeros(capacity - |w + src|);
  }

  /** A `put` that fits, on a buffer that holds `w`, leaves it holding `w + src`. */
  method Append(buf: ByteBuffer, ghost w: seq<byte>, src: seq<byte>)
    requires buf.Valid() && buf.Holds(w) && |w| + |src| <= buf.data.Length
    modifies buf, buf.data
    ensures buf.Valid() && buf.Holds(w + src)
  {
    var ok := buf.Put(src);
    PutOntoZeros(w, src, buf.data.Length);
  }
}
