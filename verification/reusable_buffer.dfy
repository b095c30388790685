// reusabel_buffer<SIZE> (AsioNet/AsioNet/reusabel_buffer.hpp): a fixed
// array of SIZE bytes with a movable start (`offset`) and a used length.
// Frames are built by writing the payload at `offset` and then moving the
// offset back over the header written in front of it.

module ReusableBuffer {
  import opened NetUtils

  class Buffer {
    const size: nat
    const bytes: array<byte>
    var offset: nat
    var length: nat

    ghost predicate Valid()
      reads this
    {
      bytes.Length == size && offset <= size
    }

    /** A pooled buffer as get_shared()->reset() hands it out; its bytes are whatever was there. */
    constructor (size: nat, initial: seq<byte>)
      requires |initial| == size
      ensures Valid() && this.size == size && fresh(bytes)
      ensures offset == 0 && length == 0 && bytes[..] == initial
    {
      this.size := size;
      bytes := new byte[size](i requires 0 <= i < size => initial[i]);
      offset := 0;
      length := 0;
      new;
      assert bytes[..] == initial;
    }

    /** The bytes a sender transmits: `length` bytes from `offset`. */
    ghost function View(): seq<byte>
      reads this, bytes
      requires Valid() && offset + length <= size
    {
      bytes[offset..offset + length]
    }

    /** reset: offset and length back to zero, the bytes kept. */
    method Reset()
      requires Valid()
      modifies this
      ensures Valid() && offset == 0 && length == 0
      ensures unchanged(bytes)
    {
      offset := 0;
      length := 0;
    }

    /** available_capacity: the room from offset to the end of the storage. */
    function AvailableCapacity(): (r: nat)
      reads this
      requires Valid()
      ensures r + offset == size
    {
      size - offset
    }

    /** operator[] as an assignment target: byte offset + idx of the storage. */
    method SetAt(idx: nat, v: byte)
      requires Valid() && offset + idx < size
      modifies bytes
      ensures bytes[..] == old(bytes[..])[offset + idx := v]
    {
      bytes[offset + idx] := v;
    }

    /** A memcpy of m to the offset followed by set_length(|m|): the buffer then holds exactly m. */
    method Fill(m: seq<byte>)
      requires Valid() && offset + |m| <= size
      modifies this`length, bytes
      ensures Valid() && length == |m| && offset + length <= size && View() == m
      ensures bytes[..] == old(bytes[..offset]) + m + old(bytes[offset + |m|..])
    {
      CopyInto(bytes, offset, m);
      length := |m|;
      assert bytes[offset..offset + |m|] == m;
    }

    /** resize: sets the used length and nothing else. */
    method Resize(s: nat)
      requires Valid()
      modifies this`length
      ensures length == s && Valid()
    {
      length := s;
    }
  }
}
