/**
 The ring buffer of class/buffer.hpp: a queue of bytes in an array with wrap-around and growth.
 One cell stays free, so equal indices mean empty.
 */
module Ring {
  import opened Strings

  /** An index taken around the end of an array of size `n`. */
  function Around(x: nat, n: nat): (i: nat)
    requires n > 0
    ensures i < n && (x < 2 * n ==> i == if x < n then x else x - n)
  {
    x % n
  }

  /** The bytes from `r` to `w`, around the end if need be. */
  function Window(cells: seq<char>, r: nat, w: nat): (s: string)
    requires r < |cells| && w < |cells|
    ensures |s| == if r <= w then w - r else w + |cells| - r
  {
    if r <= w then cells[r..w] else cells[r..] + cells[..w]
  }

  class CircleBuffer {
    var buffer: array<char>
    var readIdx: nat
    var writeIdx: nat

    ghost predicate Valid()
      reads this
    {
      readIdx < buffer.Length && writeIdx < buffer.Length
    }

    ghost function Contents(): string
      requires Valid()
      reads this, buffer
    {
      Window(buffer[..], readIdx, writeIdx)
    }

    constructor (size: nat)
      ensures Valid() && Contents() == "" && buffer.Length == size + 1 && fresh(buffer)
      ensures readIdx == 0 && writeIdx == 0
    {
      buffer := new char[size + 1](_ => '\0');
      readIdx, writeIdx := 0, 0;
    }

    predicate IsEmpty()
      reads this
    {
      readIdx == writeIdx
    }

    function Size(): (n: int)
      requires Valid()
      reads this
      ensures n == if readIdx <= writeIdx then writeIdx - readIdx else writeIdx + buffer.Length - readIdx
    {
      Around(writeIdx + buffer.Length - readIdx, buffer.Length)
    }

    predicate Wrapped()
      reads this
    {
      writeIdx < readIdx
    }

    /** Whether `Write` of so many bytes enlarges the array. */
    predicate Grows(length: nat)
      requires Valid()
      reads this
    {
      buffer.Length - 1 - Size() < length
    }

    /** Dequeue at most `maxlen` bytes. */
    method Read(maxlen: nat) returns (out: string)
      requires Valid()
      modifies this`readIdx
      ensures Valid() && |out| == if maxlen < |old(Contents())| then maxlen else |old(Contents())|
      ensures out == old(Contents())[..|out|] && Contents() == old(Contents())[|out|..]
      ensures readIdx == Around(old(readIdx) + |out|, buffer.Length)
    {
      hide Window, Around;
      if IsEmpty() {
        return "";
      }
      var length := if maxlen < Size() then maxlen else Size();
      ghost var r := readIdx;
      ReadSplits(buffer[..], r, writeIdx, length);
      if readIdx < writeIdx {
        out := buffer[readIdx..readIdx + length];
        readIdx := Around(readIdx + length, buffer.Length);
      } else {
        var suffix := buffer.Length - readIdx;
        if length <= suffix {
          out := buffer[readIdx..readIdx + length];
          readIdx := Around(readIdx + length, buffer.Length);
        } else {
          out := buffer[readIdx..] + buffer[..length - suffix];
          readIdx := length - suffix;
        }
      }
      assert readIdx == Around(r + length, buffer.Length);
    }

    /** `_buffer.resize`. */
    method Resize(capacity: nat)
      requires capacity >= buffer.Length
      modifies this`buffer
      ensures fresh(buffer) && buffer.Length == capacity
      ensures forall i :: 0 <= i < old(buffer.Length) ==> buffer[i] == old(buffer[i])
    {
      var was := buffer;
      var grown := new char[capacity](_ => '\0');
      forall i | 0 <= i < was.Length {
        grown[i] := was[i];
      }
      buffer := grown;
    }

    /** The branch of `Write` for contents that do not wrap: the block may be split at the end. */
    method PutForward(data: string)
      requires Valid() && readIdx < writeIdx && Size() + |data| < buffer.Length
      modifies this`writeIdx, buffer
      ensures Valid() && Contents() == old(Contents()) + data
      ensures writeIdx == Around(old(writeIdx) + |data|, buffer.Length)
    {
      hide Window, Around;
      var n := |data|;
      ghost var cells := buffer[..];
      var suffix := buffer.Length - writeIdx;
      if n <= suffix {
        Copy(buffer, writeIdx, data);
        AppendInside(cells, readIdx, writeIdx, data);
        writeIdx := Around(writeIdx + n, buffer.Length);
      } else {
        CopyAround(buffer, writeIdx, data[..suffix], data[suffix..]);
        AppendAround(cells, readIdx, writeIdx, data[..suffix], data[suffix..]);
        assert data[..suffix] + data[suffix..] == data;
        writeIdx := n - suffix;
      }
    }

    /** The branch for an empty or wrapped buffer: the block is copied in one piece. */
    method PutInside(data: string)
      requires Valid() && writeIdx <= readIdx && writeIdx + |data| <= buffer.Length
      modifies this`writeIdx, buffer
      ensures Valid() && writeIdx == Around(old(writeIdx) + |data|, buffer.Length)
      ensures Size() == old(Size()) + |data| ==> Contents() == old(Contents()) + data
    {
      hide Window, Around;
      ghost var cells, w := buffer[..], writeIdx;
      Copy(buffer, writeIdx, data);
      writeIdx := Around(writeIdx + |data|, buffer.Length);
      if (w == readIdx && |data| < buffer.Length) || w + |data| < readIdx {
        AppendInside(cells, readIdx, w, data);
      }
    }

    /** Enqueue. An empty buffer must have room for the bytes before its end, or the source writes
        past it. The bytes are appended if and only if the array is not enlarged while the
        contents wrap around its end: then they are torn apart. */
    method Write(data: string)
      requires Valid()
      requires IsEmpty() && !Grows(|data|) ==> writeIdx + |data| <= buffer.Length
      modifies this, buffer
      ensures Valid() && (buffer == old(buffer) || fresh(buffer))
      ensures Contents() == old(Contents()) + data <==> !old(Wrapped() && Grows(|data|))
      ensures buffer.Length == old(buffer.Length) + if old(Grows(|data|)) then 2 * |data| else 0
      ensures writeIdx == Around(old(writeIdx) + |data|, buffer.Length) && readIdx == old(readIdx)
    {
      hide Window, Around;
      ghost var cells := buffer[..];
      if Grows(|data|) {
        Resize(buffer.Length + 2 * |data|);
      }
      GrowthKeeps(cells, buffer[..], readIdx, writeIdx);
      if readIdx < writeIdx {
        PutForward(data);
      } else {
        PutInside(data);
      }
    }
  }

  /** A ring that loses its contents: four bytes in, three out, two more around the end, and then a
      block that makes it grow while it is wrapped. */
  method Torn() returns (ring: CircleBuffer)
    ensures ring.Valid() && ring.Contents() != "d" + "ef" + "ghij"
  {
    ring := new CircleBuffer(4);
    ring.Write("abcd");
    assert ring.writeIdx == 4;
    var out := ring.Read(3);
    assert ring.readIdx == 3 && ring.Contents() == "d";
    ring.Write("ef");
    assert ring.writeIdx == 1 && ring.Contents() == "d" + "ef";
    ring.Write("ghij");
  }

  /** `std::copy` of a whole block into an array. */
  method Copy(target: array<char>, at: nat, block: string)
    requires at + |block| <= target.Length
    modifies target
    ensures target[..] == old(target[..])[..at] + block + old(target[..])[at + |block|..]
  {
    forall i | 0 <= i < |block| {
      target[at + i] := block[i];
    }
  }

  /** Two copies: `x` up to the end of the array, `y` to its start. */
  method CopyAround(target: array<char>, at: nat, x: string, y: string)
    requires at + |x| == target.Length && |y| <= at
    modifies target
    ensures target[..] == y + (old(target[..])[..at] + x)[|y|..]
  {
    Copy(target, at, x);
    assert target[..] == old(target[..])[..at] + x;
    Copy(target, 0, y);
  }

  lemma GrowthKeeps(cells: seq<char>, wide: seq<char>, r: nat, w: nat)
    requires r < |cells| <= |wide| && w < |cells| && forall i :: 0 <= i < |cells| ==> wide[i] == cells[i]
    ensures r <= w ==> Window(wide, r, w) == Window(cells, r, w)
    ensures |wide| == |cells| ==> wide == cells
  {
  }

  /** A block that fits behind contents that do not wrap, before the end of the array. */
  lemma AppendBehind(cells: seq<char>, r: nat, w: nat, data: string)
    requires r <= w < |cells| && w + |data| <= |cells| && w - r + |data| < |cells|
    ensures var cells' := cells[..w] + data + cells[w + |data|..];
            Window(cells', r, Around(w + |data|, |cells|)) == Window(cells, r, w) + data
  {
    hide Around;
    var n := |data|;
    var cells' := cells[..w] + data + cells[w + n..];
    assert cells'[r..w + n] == cells[r..w] + data;
    if w + n == |cells| {
      assert cells'[r..] + cells'[..0] == cells[r..w] + data;
    }
  }

  /** A block that fits behind contents that wrap, before the read index. */
  lemma AppendBefore(cells: seq<char>, r: nat, w: nat, data: string)
    requires w + |data| < r < |cells|
    ensures var cells' := cells[..w] + data + cells[w + |data|..];
            Window(cells', r, Around(w + |data|, |cells|)) == Window(cells, r, w) + data
  {
    hide Around;
    var cells' := cells[..w] + data + cells[w + |data|..];
    assert cells'[r..] == cells[r..] && cells'[..w + |data|] == cells[..w] + data by {
      PutBetween(cells, w, data, r);
    }
    Assoc(cells[r..], cells[..w], data);
  }

  lemma PutBetween(cells: seq<char>, w: nat, data: string, r: nat)
    requires w + |data| <= r <= |cells|
    ensures var cells' := cells[..w] + data + cells[w + |data|..];
            |cells'| == |cells| && cells'[r..] == cells[r..] && cells'[..w + |data|] == cells[..w] + data
  {
  }

  lemma AppendInside(cells: seq<char>, r: nat, w: nat, data: string)
    requires r < |cells| && w < |cells| && w + |data| <= |cells|
    requires if r <= w then w - r + |data| < |cells| else w + |data| < r
    ensures var cells' := cells[..w] + data + cells[w + |data|..];
            Window(cells', r, Around(w + |data|, |cells|)) == Window(cells, r, w) + data
  {
    hide Around, Window;
    if r <= w {
      AppendBehind(cells, r, w, data);
    } else {
      AppendBefore(cells, r, w, data);
    }
  }

  /** A block `x + y` that is split at the end of the array: `x` fills it up, `y` goes to its start. */
  lemma AppendAround(cells: seq<char>, r: nat, w: nat, x: string, y: string)
    requires |y| < r < w < |cells| && w + |x| == |cells|
    ensures var half := cells[..w] + x;
            |y + half[|y|..]| == |cells| && Window(y + half[|y|..], r, |y|) == Window(cells, r, w) + (x + y)
  {
    var half := cells[..w] + x;
    var cells' := y + half[|y|..];
    assert cells'[r..] == half[r..] == cells[r..w] + x;
    assert cells'[..|y|] == y;
    assert cells[r..w] + x + y == cells[r..w] + (x + y);
  }

  lemma ReadSplits(cells: seq<char>, r: nat, w: nat, n: nat)
    requires r < |cells| && w < |cells| && n <= |Window(cells, r, w)|
    ensures var s := Window(cells, r, w);
            var r' := Around(r + n, |cells|);
            && s[n..] == Window(cells, r', w)
            && s[..n] == if r + n <= |cells| then cells[r..r + n] else cells[r..] + cells[..r + n - |cells|]
  {
    var s := Window(cells, r, w);
    if r <= w {
      assert s[n..] == cells[r + n..w];
    } else if r + n < |cells| {
      assert s[n..] == cells[r + n..] + cells[..w];
    } else {
      assert s[n..] == cells[r + n - |cells|..w];
      assert s[..n] == cells[r..] + cells[..r + n - |cells|];
      assert r + n == |cells| ==> cells[r..] + cells[..0] == cells[r..r + n];
    }
  }
}
