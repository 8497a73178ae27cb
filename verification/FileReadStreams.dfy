/** The buffered file stream behaves as the plain sequence of characters of the file, then NUL for ever. */
module FileReadStreams {
  import opened Bytes

  /** Where a reader that has taken n characters stands. */
  function Position(content: Text, n: nat): nat {
    if n < |content| then n else |content|
  }

  class FileReadStream {
    /** The file, and how much of it fread has delivered. */
    const content: Text
    var filePos: nat

    const buffer: array<byte>
    var bufferLast: int
    var current: nat
    var readCount: nat
    var count: nat
    var eof: bool

    /** Number of characters taken. */
    ghost var taken: nat

    ghost predicate Valid()
      reads this, buffer
    {
      && buffer.Length >= 4 && filePos == count + readCount <= |content| && readCount <= buffer.Length
      && buffer[..readCount] == content[count..filePos]
      && current <= bufferLast
      && if eof then
           && filePos == |content| && bufferLast == readCount < buffer.Length && buffer[readCount] == NUL
           && (taken == count + current || (current == bufferLast && taken > count + current))
         else
           readCount == buffer.Length && bufferLast == readCount - 1 && taken == count + current
    }

    constructor (content: Text, bufferSize: nat)
      requires bufferSize >= 4
      ensures Valid() && this.content == content && taken == 0 && fresh(buffer) && buffer.Length == bufferSize
    {
      this.content := content;
      filePos, bufferLast, current, readCount, count, eof, taken := 0, -1, 0, 0, 0, false, 0;
      buffer := new byte[bufferSize](_ => NUL);
      new;
      Fill();
    }

    /** Fills the buffer from the file, up to its size or the end of the file. */
    method Fread() returns (n: nat)
      requires filePos <= |content|
      modifies this`filePos, buffer
      ensures n == if |content| - old(filePos) < buffer.Length then |content| - old(filePos) else buffer.Length
      ensures filePos == old(filePos) + n && buffer[..n] == content[old(filePos)..filePos]
    {
      n := if |content| - filePos < buffer.Length then |content| - filePos else buffer.Length;
      for k := 0 to n
        invariant filePos == old(filePos) && filePos + n <= |content| && n <= buffer.Length
        invariant forall j | 0 <= j < k :: buffer[j] == content[filePos + j]
      {
        buffer[k] := content[filePos + k];
      }
      filePos := filePos + n;
    }

    /** The refill of Read: a short read marks the end of the file, and a NUL follows its last character. */
    method Fill()
      requires !eof && buffer.Length >= 4 && filePos == count + readCount <= |content| && taken == count + readCount
      modifies this, buffer
      ensures Valid() && taken == old(taken) && current == 0
    {
      count := count + readCount;
      readCount := Fread();
      bufferLast := readCount - 1;
      current := 0;
      if readCount < buffer.Length {
        ghost var got := buffer[..readCount];
        buffer[readCount] := NUL;
        assert buffer[..readCount] == got;
        bufferLast := bufferLast + 1;
        eof := true;
      }
    }

    method Read()
      requires Valid()
      modifies this, buffer
      ensures Valid() && taken == old(taken) + 1
    {
      taken := taken + 1;
      if current < bufferLast {
        current := current + 1;
      } else if !eof {
        Fill();
      }
    }

    function Peek(): (c: byte)
      requires Valid()
      reads this, buffer
      ensures c == Bytes.Peek(content, taken)
    {
      assert current < readCount ==> buffer[..readCount][current] == content[count..filePos][current];
      buffer[current]
    }

    method Take() returns (c: byte)
      requires Valid()
      modifies this, buffer
      ensures Valid() && taken == old(taken) + 1 && c == Bytes.Peek(content, old(taken))
    {
      c := Peek();
      Read();
    }

    function Tell(): (p: nat)
      requires Valid()
      reads this, buffer
      ensures p == Position(content, taken)
    {
      count + current
    }

    /** Four characters ahead, if the buffer holds them; only then are they those of the file. */
    method Peek4() returns (ok: bool, four: Text)
      requires Valid()
      ensures ok ==> taken + 4 <= |content| && four == content[taken..taken + 4]
      ensures |content| <= buffer.Length && taken == 0 ==> ok == (|content| >= 4)
    {
      if current + 4 - (if eof then 0 else 1) <= bufferLast {
        four := buffer[current..current + 4];
        forall k | 0 <= k < 4 ensures four[k] == content[taken + k] {
          assert buffer[..readCount][current + k] == content[count..filePos][current + k];
        }
        return true, four;
      }
      return false, [];
    }
  }

  /** The first n characters of a file read through a buffer of any size: the file, then NULs, and the position told. */
  method ReadThrough(content: Text, bufferSize: nat, n: nat) returns (r: Text, position: nat)
    requires bufferSize >= 4
    ensures |r| == n && forall i | 0 <= i < n :: r[i] == Bytes.Peek(content, i)
    ensures position == Position(content, n)
  {
    hide Bytes.Peek, Position, FileReadStream.Valid;
    var stream := new FileReadStream(content, bufferSize);
    r := [];
    for i := 0 to n
      invariant fresh(stream) && fresh(stream.buffer) && stream.Valid() && stream.content == content && stream.taken == i
      invariant |r| == i && forall j | 0 <= j < i :: r[j] == Bytes.Peek(content, j)
    {
      var c := stream.Take();
      r := r + [c];
    }
    position := stream.Tell();
  }
}
