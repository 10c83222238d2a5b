/** Python binary file objects, as far as the commands use them: a reader
    whose `read(n)` returns up to n bytes from the current position and whose
    `read()` returns the rest, and a writer that appends. */
module Streams {
  import opened Types

  class ByteReader {
    const data: seq<byte>
    var pos: nat

    ghost predicate Valid()
      reads this
    {
      pos <= |data|
    }

    constructor (data: seq<byte>)
      ensures Valid() && this.data == data && pos == 0
    {
      this.data := data;
      pos := 0;
    }

    /** `read(n)`: short only at the end of the file. */
    method Read(n: nat) returns (chunk: seq<byte>)
      requires Valid()
      modifies this
      ensures Valid()
      ensures pos == if old(pos) + n <= |data| then old(pos) + n else |data|
      ensures chunk == data[old(pos)..pos]
    {
      var end := if pos + n <= |data| then pos + n else |data|;
      chunk := data[pos..end];
      pos := end;
    }

    /** `read()`: everything from the current position on. */
    method ReadAll() returns (chunk: seq<byte>)
      requires Valid()
      modifies this
      ensures Valid() && pos == |data|
      ensures chunk == data[old(pos)..]
    {
      chunk := data[pos..];
      pos := |data|;
    }
  }

  class ByteWriter {
    var contents: seq<byte>

    constructor ()
      ensures contents == []
    {
      contents := [];
    }

    /** `write(b)`: appends b to what the file holds. */
    method Write(b: seq<byte>)
      modifies this
      ensures contents == old(contents) + b
    {
      contents := contents + b;
    }
  }
}
