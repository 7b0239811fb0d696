/**
 The buffer between a stream and the parsers that read from it: it grows by what the stream
 delivers and shrinks by what a parser has consumed.
 */
module StreamBuffer {

  /** What one read delivers at most, and whether the stream then says that more data are
      available at once. */
  datatype Chunk = Chunk(data: string, more: bool)

  /** The bytes of the chunks, in order. */
  function Bytes(chunks: seq<Chunk>): string {
    if chunks == [] then "" else chunks[0].data + Bytes(chunks[1..])
  }

  /** How often the chunks can be read from, at most. */
  function Reads(chunks: seq<Chunk>): nat {
    if chunks == [] then 0 else 1 + |chunks[0].data| + Reads(chunks[1..])
  }

  /** A stream that delivers its bytes in chunks of any sizes, empty ones included. */
  class ChunkedStream {
    var chunks: seq<Chunk>
    var available: bool

    constructor (chunks: seq<Chunk>)
      ensures this.chunks == chunks
    {
      this.chunks, available := chunks, false;
    }

    predicate IsEof()
      reads this
    {
      chunks == []
    }

    ghost function Rest(): string
      reads this
    {
      Bytes(chunks)
    }

    method Read(buffer: array<char>, offset: nat, count: nat) returns (rc: nat)
      requires offset + count <= buffer.Length && count > 0 && !IsEof()
      modifies this, buffer
      ensures rc <= count
      ensures buffer[..offset] == old(buffer[..offset])
      ensures buffer[offset..offset + rc] + Rest() == old(Rest())
      ensures Reads(chunks) < Reads(old(chunks))
    {
      var data := chunks[0].data;
      rc := if |data| <= count then |data| else count;
      forall i | 0 <= i < rc {
        buffer[offset + i] := data[i];
      }
      assert buffer[offset..offset + rc] == data[..rc];
      if rc == |data| {
        available := chunks[0].more;
        chunks := chunks[1..];
      } else {
        available := true;
        chunks := [Chunk(data[rc..], chunks[0].more)] + chunks[1..];
        assert data == data[..rc] + data[rc..];
        assert data[..rc] + (data[rc..] + Bytes(chunks[1..])) == data + Bytes(chunks[1..]);
      }
    }
  }

  class StreamReadContext {
    var buffer: array<char>
    var size: nat
    var mustRead: bool
    var eof: bool

    constructor ()
      ensures Valid() && fresh(buffer) && Data() == "" && mustRead && !eof
    {
      buffer := new char[0];
      size, mustRead, eof := 0, true, false;
    }

    ghost predicate Valid()
      reads this
    {
      size <= buffer.Length
    }

    /** The bytes read from the stream and not dropped yet. */
    ghost function Data(): string
      reads this, buffer
      requires Valid()
    {
      buffer[..size]
    }

    /** Makes room for 4096 more bytes, as `realloc` does. */
    method Grow()
      requires Valid()
      modifies this`buffer
      ensures Valid() && fresh(buffer) && buffer.Length == size + 4096
      ensures Data() == old(Data())
    {
      var grown := new char[size + 4096];
      forall i | 0 <= i < size {
        grown[i] := buffer[i];
      }
      assert grown[..size] == buffer[..size];
      buffer := grown;
    }

    method ReadOnce(stream: ChunkedStream) returns (rc: nat)
      requires Valid() && buffer.Length == size + 4096 && !stream.IsEof()
      modifies this`size, buffer, stream
      ensures Valid() && Data() + stream.Rest() == old(Data() + stream.Rest())
      ensures old(Data()) <= Data() && |Data()| == |old(Data())| + rc && rc <= 4096
      ensures Reads(stream.chunks) < Reads(old(stream.chunks))
    {
      rc := stream.Read(buffer, size, 4096);
      assert buffer[..size + rc] == buffer[..size] + buffer[size..size + rc];
      size := size + rc;
    }

    /** Appends what the stream delivers now, until it has nothing more at once or 64 KB have
        come; false at the end of the stream. */
    method FillFromStream(stream: ChunkedStream) returns (more: bool)
      requires Valid()
      modifies this`buffer, this`size, buffer, stream
      ensures Valid() && (buffer == old(buffer) || fresh(buffer))
      ensures Data() + stream.Rest() == old(Data() + stream.Rest())
      ensures old(Data()) <= Data()
      ensures more <==> Data() != old(Data()) || !stream.IsEof()
      ensures more ==> Reads(stream.chunks) < Reads(old(stream.chunks))
      ensures stream.IsEof() || !stream.available || |Data()| >= |old(Data())| + 64 * 1024
      ensures |Data()| < |old(Data())| + 64 * 1024 + 4096
    {
      hide Bytes, Reads;
      var count := 0;
      var again := true;
      while again
        invariant Valid() && (buffer == old(buffer) || fresh(buffer))
        invariant Data() + stream.Rest() == old(Data() + stream.Rest())
        invariant old(Data()) <= Data() && |Data()| == |old(Data())| + count
        invariant Reads(stream.chunks) <= Reads(old(stream.chunks))
        invariant if again then count < 64 * 1024 else count < 64 * 1024 + 4096
        invariant again || stream.IsEof() || !stream.available || count >= 64 * 1024
        invariant Reads(stream.chunks) == Reads(old(stream.chunks)) ==> count == 0 && (again || stream.IsEof())
        decreases again, Reads(stream.chunks)
      {
        Grow();
        if stream.IsEof() {
          again := false;
        } else {
          var rc := ReadOnce(stream);
          count := count + rc;
          again := count < 64 * 1024 && stream.available;
        }
      }
      more := !(count == 0 && stream.IsEof());
    }

    /** Drops bytes from the front and moves the others down. */
    method DropData(count: nat)
      requires Valid() && count <= size
      modifies this`size, buffer
      ensures Valid() && Data() == old(Data())[count..]
    {
      forall i | 0 <= i < size - count {
        buffer[i] := buffer[count + i];
      }
      size := size - count;
    }
  }
}
