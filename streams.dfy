/**
 * `System.IO.MemoryStream`, as far as the controllers use it: a growable
 * byte buffer with a read/write position.
 */
module Streams {
  import opened Runtime

  class MemoryStream {
    /** The stream's contents (`ToArray()`). */
    var buffer: seq<byte>
    /** `Position`. */
    var position: nat

    ghost predicate Valid()
      reads this
    {
      position <= |buffer|
    }

    /** `new MemoryStream()` and `new MemoryStream(capacity)`: empty, at position 0. */
    constructor ()
      ensures Valid() && buffer == [] && position == 0
    {
      buffer := [];
      position := 0;
    }

    /** `Write(source)`, which is what copying an uploaded file into the stream
        does: overwrite from the position on, growing the buffer as needed, and
        leave the position after the written bytes. */
    method Write(source: seq<byte>)
      requires Valid()
      modifies this
      ensures Valid()
      ensures position == old(position) + |source|
      ensures buffer[..old(position)] == old(buffer)[..old(position)]
      ensures buffer[old(position)..position] == source
      ensures buffer[position..] == if position < |old(buffer)| then old(buffer)[position..] else []
    {
      var rest := if position + |source| < |buffer| then buffer[position + |source|..] else [];
      buffer := buffer[..position] + source + rest;
      position := position + |source|;
    }

    /** `Read(dest, offset, count)`: copy up to `count` bytes from the position
        into `dest` from `offset` on, in place; the rest of `dest` is untouched. */
    method Read(dest: array<byte>, offset: nat, count: nat) returns (n: nat)
      requires Valid() && offset + count <= dest.Length
      modifies this, dest
      ensures Valid() && buffer == old(buffer)
      ensures n == if count <= |buffer| - old(position) then count else |buffer| - old(position)
      ensures position == old(position) + n
      ensures dest[..offset] == old(dest[..offset])
      ensures dest[offset..offset + n] == buffer[old(position)..position]
      ensures dest[offset + n..] == old(dest[offset + n..])
    {
      n := if count <= |buffer| - position then count else |buffer| - position;
      var from := position;
      forall i | 0 <= i < n {
        dest[offset + i] := buffer[from + i];
      }
      position := position + n;
    }
  }
}
