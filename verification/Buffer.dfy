/**
 The byte buffer of source/server.hpp: an array with a read index and a write index, whose
 readable part is a queue of bytes.
 */
module ByteBuffer {
  import opened Strings

  const DEFAULT_SIZE := 1024

  class Buffer {
    var data: array<char>
    var readIdx: nat
    var writeIdx: nat

    /** One cell always stays free behind the write index. */
    ghost predicate Valid()
      reads this
    {
      readIdx <= writeIdx < data.Length
    }

    ghost function Contents(): (s: string)
      requires Valid()
      reads this, data
      ensures |s| == writeIdx - readIdx
    {
      data[readIdx..writeIdx]
    }

    constructor ()
      ensures Valid() && fresh(data) && Contents() == "" && data.Length == 1024
    {
      data := new char[DEFAULT_SIZE](_ => '\0');
      readIdx, writeIdx := 0, 0;
    }

    function PostIdle(): int
      reads this
    {
      data.Length - writeIdx
    }

    function ReadableSize(): int
      reads this
    {
      writeIdx - readIdx
    }

    /** The source asserts the upper bound only: a negative length steps back over bytes that were
        already handed out. */
    method MoveReadOffset(len: int)
      requires Valid() && readIdx + len >= 0 && len <= ReadableSize()
      modifies this`readIdx
      ensures Valid() && readIdx == old(readIdx) + len
      ensures if len >= 0 then Contents() == old(Contents())[len..] else Contents()[-len..] == old(Contents())
    {
      readIdx := readIdx + len;
    }

    /** The source aborts the process unless `len < PostIdle()`. */
    method MoveWriteOffset(len: int)
      requires Valid() && 0 <= len < PostIdle()
      modifies this`writeIdx
      ensures Valid() && writeIdx == old(writeIdx) + len
    {
      writeIdx := writeIdx + len;
    }

    method Clear()
      requires Valid()
      modifies this`readIdx, this`writeIdx
      ensures Valid() && Contents() == ""
    {
      readIdx, writeIdx := 0, 0;
    }

    /** Compaction or growth: either makes room for `len` bytes and one more, and neither changes
        the contents. The array only grows when the room in front does not help. */
    method EnsureWrite(len: nat)
      requires Valid()
      modifies this, data
      ensures Valid() && Contents() == old(Contents()) && PostIdle() > len
      ensures data.Length == old(data.Length)
                             + if old(readIdx + PostIdle()) > len || old(PostIdle()) > len then 0 else 2 * len
      ensures data == old(data) || fresh(data)
    {
      if PostIdle() > len {
        return;
      }
      if readIdx + PostIdle() > len {
        var size := ReadableSize();
        forall i | 0 <= i < size {
          data[i] := data[readIdx + i];
        }
        readIdx, writeIdx := 0, size;
        assert Contents() == old(Contents());
      } else {
        var was := data;
        var grown := new char[was.Length + 2 * len](_ => '\0');
        forall i | 0 <= i < was.Length {
          grown[i] := was[i];
        }
        data := grown;
        assert Contents() == old(Contents());
      }
    }

    /** Copies `bytes` behind the contents, without making them readable. */
    method Write(bytes: string)
      requires Valid()
      modifies this, data
      ensures Valid() && Contents() == old(Contents()) && PostIdle() > |bytes|
      ensures data == old(data) || fresh(data)
      ensures data[writeIdx..writeIdx + |bytes|] == bytes
    {
      EnsureWrite(|bytes|);
      var at, target := writeIdx, data;
      ghost var before := Contents();
      forall i | 0 <= i < |bytes| {
        target[at + i] := bytes[i];
      }
      assert Contents() == before;
    }

    /** Enqueue. The preconditions it meets show that the abort is never reached. */
    method WriteAndPush(bytes: string)
      requires Valid()
      modifies this, data
      ensures Valid() && Contents() == old(Contents()) + bytes
      ensures data == old(data) || fresh(data)
    {
      Write(bytes);
      ghost var before := Contents();
      MoveWriteOffset(|bytes|);
      assert data[readIdx..writeIdx] == data[readIdx..writeIdx - |bytes|] + data[writeIdx - |bytes|..writeIdx];
    }

    method WriteAndPushBuffer(other: Buffer)
      requires Valid() && other.Valid() && other != this && other.data != data
      modifies this, data
      ensures Valid() && Contents() == old(Contents()) + old(other.Contents())
      ensures data == old(data) || fresh(data)
    {
      WriteAndPush(other.data[other.readIdx..other.writeIdx]);
    }

    /** The bytes a `Read` into an array of `len` cells copies out. */
    method Read(len: nat) returns (out: string)
      requires Valid()
      ensures out == Contents()[..if len < ReadableSize() then len else ReadableSize()]
    {
      var length := if ReadableSize() < len then ReadableSize() else len;
      out := data[readIdx..readIdx + length];
    }

    method ReadAndPop(len: nat) returns (out: string)
      requires Valid()
      modifies this`readIdx
      ensures |out| == if len < old(ReadableSize()) then len else old(ReadableSize())
      ensures Valid() && out == old(Contents())[..|out|] && Contents() == old(Contents())[|out|..]
    {
      out := Read(len);
      MoveReadOffset(|out|);
    }

    method FindCRLF() returns (pos: int)
      requires Valid()
      ensures pos == IndexOf(Contents(), '\n')
    {
      pos := IndexOf(data[readIdx..writeIdx], '\n');
    }

    method GetLine() returns (line: string)
      requires Valid()
      ensures line == LineOf(Contents())
    {
      var pos := FindCRLF();
      if pos < 0 {
        return "";
      }
      var buf := Read(pos + 1);
      return CString(buf);
    }

    /** What is returned and what is left always make up the old contents. */
    method GetLineAndPop() returns (line: string)
      requires Valid()
      modifies this`readIdx
      ensures Valid() && line == LineOf(old(Contents()))
      ensures Contents() == old(Contents())[|line|..] && line + Contents() == old(Contents())
    {
      line := GetLine();
      MoveReadOffset(|line|);
    }
  }
}
