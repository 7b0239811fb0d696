/**
 A byte queue in one buffer: the unread bytes start at an offset that moves on with every
 read, and are moved back to the front, into a smaller buffer, from time to time.
 */
module Fifo {

  const BLOCK_SIZE: nat := 512

  /** The number of values of `size_t`. */
  const SIZE_VALUES: nat := 0x1_0000_0000_0000_0000

  /** The subtraction of two `size_t`, which wraps around. */
  function SizeMinus(a: nat, b: nat): (r: nat)
    requires a < SIZE_VALUES && b < SIZE_VALUES
  {
    (a - b) % SIZE_VALUES
  }

  /** When the subtraction wraps around, the comparison `Optimize` makes with it holds. */
  lemma SizeMinusMeans(offset: nat, dataSize: nat)
    requires offset < SIZE_VALUES && dataSize < SIZE_VALUES - 1024
    ensures SizeMinus(offset, dataSize) > 1024 <==> offset < dataSize || offset > dataSize + 1024
  {
    if offset < dataSize {
      assert SizeMinus(offset, dataSize) == offset - dataSize + SIZE_VALUES;
    } else {
      assert SizeMinus(offset, dataSize) == offset - dataSize;
    }
  }

  /** The gap in front of the unread bytes is closed if it is larger than a tenth of them, and
      smaller than them or larger by more than 1024. */
  predicate WorthMoving(offset: nat, dataSize: nat) {
    offset > dataSize / 10 && (offset < dataSize || offset > dataSize + 1024)
  }

  /** The next larger multiple of the block size. */
  function NextBlock(n: nat): (r: nat)
    ensures n < r <= n + BLOCK_SIZE && r % BLOCK_SIZE == 0
  {
    (n / BLOCK_SIZE + 1) * BLOCK_SIZE
  }

  lemma SameSlice(a: array<char>, b: array<char>, n: nat, i: nat, j: nat)
    requires n <= a.Length && n <= b.Length && a[..n] == b[..n] && i <= j <= n
    ensures a[i..j] == b[i..j]
  {
    assert a[i..j] == a[..n][i..j] && b[i..j] == b[..n][i..j];
  }

  class FIFO {
    var buffer: array<char>
    var dataSize: nat
    var allocSize: nat
    var offset: nat
    ghost var peak: nat                // the largest number of unread bytes ever

    constructor ()
      ensures Valid() && fresh(buffer) && Contents() == "" && peak == 0
    {
      buffer := new char[0];
      dataSize, allocSize, offset, peak := 0, 0, 0, 0;
    }

    /** The offset runs ahead of the number of unread bytes by at most 1024, and the buffer is
        never larger than twice the largest number of unread bytes and 1536. */
    ghost predicate Valid()
      reads this
    {
      && buffer.Length == allocSize
      && offset + dataSize <= allocSize < SIZE_VALUES - 1024
      && offset <= dataSize + 1024
      && dataSize <= peak && allocSize <= 2 * peak + 1536
    }

    ghost function Contents(): string
      requires offset + dataSize <= buffer.Length
      reads this, buffer
    {
      buffer[offset..offset + dataSize]
    }

    /** Whether the buffer could hold that many more bytes at all. */
    predicate HasRoom(count: nat)
      reads this
    {
      offset + dataSize + count + BLOCK_SIZE < SIZE_VALUES - 1024
    }

    /** Reallocates the buffer, keeping the bytes that fit. */
    method ResizeBuffer(newSize: nat, decrease: bool)
      requires buffer.Length == allocSize && offset + dataSize <= allocSize
      requires offset + dataSize <= newSize
      modifies this`buffer, this`allocSize
      ensures buffer.Length == allocSize && (buffer == old(buffer) || fresh(buffer))
      ensures newSize <= allocSize
      ensures allocSize == if !decrease && old(allocSize) >= newSize then old(allocSize) else NextBlock(newSize)
      ensures Contents() == old(Contents())
    {
      if allocSize >= newSize && !decrease {
        return;
      }
      var rounded := NextBlock(newSize);
      if rounded == allocSize {
        return;
      }
      var kept := if rounded < allocSize then rounded else allocSize;
      var newBuffer := Copy(rounded, kept);
      SameSlice(newBuffer, buffer, kept, offset, offset + dataSize);
      buffer := newBuffer;
      allocSize := rounded;
    }

    method Copy(size: nat, kept: nat) returns (copy: array<char>)
      requires kept <= buffer.Length && kept <= size
      ensures fresh(copy) && copy.Length == size && copy[..kept] == buffer[..kept]
    {
      copy := new char[size];
      forall i | 0 <= i < kept {
        copy[i] := buffer[i];
      }
    }

    /** Moves the unread bytes to the front and shrinks the buffer, if it is worth it. */
    method Optimize()
      requires buffer.Length == allocSize && offset + dataSize <= allocSize < SIZE_VALUES - 1024
      requires dataSize <= peak && allocSize <= 2 * peak + 1536
      modifies this`buffer, this`allocSize, this`offset, buffer
      ensures Valid() && (buffer == old(buffer) || fresh(buffer)) && Contents() == old(Contents())
      ensures var moved := WorthMoving(old(offset), dataSize);
        && offset == (if moved then 0 else old(offset))
        && allocSize == (if moved && dataSize > 0 then NextBlock(dataSize) else old(allocSize))
    {
      hide SizeMinus;
      SizeMinusMeans(offset, dataSize);
      if offset > dataSize / 10 && SizeMinus(offset, dataSize) > 1024 {
        MoveToFront();
        if dataSize > 0 {
          ResizeBuffer(dataSize, true);
        }
      }
    }

    /** Moves the unread bytes over themselves. */
    method MoveToFront()
      requires offset + dataSize <= buffer.Length
      modifies this`offset, buffer
      ensures offset == 0 && buffer[..dataSize] == old(Contents())
    {
      forall i | 0 <= i < dataSize {
        buffer[i] := buffer[offset + i];
      }
      offset := 0;
    }

    /** Takes bytes out of the queue, and copies them unless there is no buffer for them. */
    method Read(target: array?<char>, count: nat) returns (n: nat)
      requires Valid() && target != buffer
      requires target != null ==> count <= target.Length
      modifies this`buffer, this`allocSize, this`offset, this`dataSize, buffer, target
      ensures Valid() && (buffer == old(buffer) || fresh(buffer))
      ensures n == if count < |old(Contents())| then count else |old(Contents())|
      ensures target != null ==> target[..n] == old(Contents())[..n]
      ensures target != null ==> target[n..] == old(target[n..])
      ensures Contents() == old(Contents())[n..]
      ensures offset + dataSize <= old(offset + dataSize)
      ensures var moved := WorthMoving(old(offset) + n, dataSize);
        && offset == (if moved then 0 else old(offset) + n)
        && allocSize == (if moved && dataSize > 0 then NextBlock(dataSize) else old(allocSize))
    {
      n := if count > dataSize then dataSize else count;
      if target != null {
        CopyOut(target, n);
      }
      dataSize := dataSize - n;
      offset := offset + n;
      assert Contents() == old(Contents())[n..];
      Optimize();
    }

    method CopyOut(target: array<char>, n: nat)
      requires offset + dataSize <= buffer.Length && target != buffer
      requires n <= dataSize && n <= target.Length
      modifies target
      ensures target[..n] == Contents()[..n] && target[n..] == old(target[n..])
    {
      forall i | 0 <= i < n {
        target[i] := buffer[offset + i];
      }
    }

    method CopyIn(source: array<char>, count: nat)
      requires offset + dataSize + count <= buffer.Length && source != buffer && count <= source.Length
      modifies buffer
      ensures buffer[offset..offset + dataSize + count] == old(Contents()) + source[..count]
    {
      var end := offset + dataSize;
      forall i | 0 <= i < count {
        buffer[end + i] := source[i];
      }
      assert buffer[end..end + count] == source[..count];
      assert buffer[offset..end] == old(Contents());
      assert buffer[offset..end + count] == buffer[offset..end] + buffer[end..end + count];
    }

    method Write(source: array<char>, count: nat)
      requires Valid() && source != buffer && count <= source.Length && HasRoom(count)
      modifies this, buffer
      ensures Valid() && (buffer == old(buffer) || fresh(buffer))
      ensures Contents() == old(Contents()) + old(source[..count])
      ensures offset + dataSize == old(offset + dataSize) + count
      ensures allocSize == if old(allocSize) >= offset + dataSize then old(allocSize) else NextBlock(offset + dataSize)
      ensures peak == if |Contents()| > old(peak) then |Contents()| else old(peak)
    {
      ResizeBuffer(offset + dataSize + count, false);
      CopyIn(source, count);
      dataSize := dataSize + count;
      if dataSize > peak {
        peak := dataSize;
      }
    }
  }

  datatype Op = Put(bytes: string) | Take(count: nat)

  function Written(ops: seq<Op>): string {
    if ops == [] then "" else (if ops[0].Put? then ops[0].bytes else "") + Written(ops[1..])
  }

  /** The bytes taken and left are those from before and those written. */
  predicate Conserves(taken: string, left: string, before: string, written: string) {
    taken + left == before + written
  }

  lemma NothingDone(before: string)
    ensures Conserves("", before, before, "")
  {
    assert "" + before == before == before + "";
  }

  lemma PutFirst(taken: string, left: string, before: string, bytes: string, rest: string)
    requires Conserves(taken, left, before + bytes, rest)
    ensures Conserves(taken, left, before, bytes + rest)
  {
    assert (before + bytes) + rest == before + (bytes + rest);
  }

  lemma TakeFirst(taken: string, left: string, before: string, n: nat, rest: string)
    requires n <= |before| && Conserves(taken, left, before[n..], rest)
    ensures Conserves(before[..n] + taken, left, before, "" + rest)
  {
    assert before == before[..n] + before[n..];
    assert (before[..n] + taken) + left == before[..n] + (taken + left);
    assert before[..n] + (before[n..] + rest) == before + ("" + rest);
  }

  /** One write or one read, with a buffer of its own. */
  method PerformOne(fifo: FIFO, op: Op) returns (taken: string)
    requires fifo.Valid() && (op.Put? ==> fifo.HasRoom(|op.bytes|))
    modifies fifo, fifo.buffer
    ensures fifo.Valid() && (fifo.buffer == old(fifo.buffer) || fresh(fifo.buffer))
    ensures fifo.offset + fifo.dataSize <= old(fifo.offset + fifo.dataSize) + if op.Put? then |op.bytes| else 0
    ensures op.Put? ==> taken == "" && fifo.Contents() == old(fifo.Contents()) + op.bytes
    ensures op.Take? ==>
      var before := old(fifo.Contents()); var n := if op.count < |before| then op.count else |before|;
      taken == before[..n] && fifo.Contents() == before[n..]
  {
    hide WorthMoving, NextBlock;
    match op {
      case Put(bytes) =>
        var source := new char[|bytes|](i requires 0 <= i < |bytes| => bytes[i]);
        assert source[..|bytes|] == bytes;
        fifo.Write(source, |bytes|);
        taken := "";
      case Take(count) =>
        var n := if count < fifo.dataSize then count else fifo.dataSize;
        var target := new char[n];
        n := fifo.Read(target, n);
        taken := target[..n];
    }
  }

  /** Whatever the order of writes and reads, the bytes read, followed by those still unread,
      are the bytes written. */
  method Perform(fifo: FIFO, ops: seq<Op>) returns (taken: string)
    requires fifo.Valid() && fifo.HasRoom(|Written(ops)|)
    modifies fifo, fifo.buffer
    ensures fifo.Valid() && Conserves(taken, fifo.Contents(), old(fifo.Contents()), Written(ops))
    decreases |ops|
  {
    hide Conserves;
    ghost var before := fifo.Contents();
    if ops == [] {
      NothingDone(before);
      return "";
    }
    var first := PerformOne(fifo, ops[0]);
    var others := Perform(fifo, ops[1..]);
    taken := first + others;
    if ops[0].Put? {
      PutFirst(others, fifo.Contents(), before, ops[0].bytes, Written(ops[1..]));
      assert "" + others == others;
    } else {
      TakeFirst(others, fifo.Contents(), before, |first|, Written(ops[1..]));
    }
  }
}
