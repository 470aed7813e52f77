/**
 The growable network buffer: a byte array with a reader and a writer index and some
 room in front for headers. Every operation is specified on the readable bytes, so the
 class refines a plain byte sequence through compaction, growth and shrinking.
 */
module NetBuffer {
  import opened Bytes

  const CHEAP_PREPEND: nat := 8
  const INITIAL_SIZE: nat := 1024

  /** std::copy inside one array, front to back: right only when it moves towards the front. */
  method CopyDown(a: array<Byte>, from: nat, to: nat, n: nat)
    requires to <= from && from + n <= a.Length
    modifies a
    ensures a[to..to + n] == old(a[from..from + n])
    ensures a[..to] == old(a[..to])
    ensures a[to + n..] == old(a[to + n..])
  {
    for i := 0 to n
      invariant a[to..to + i] == old(a[from..from + i])
      invariant a[..to] == old(a[..to])
      invariant forall k | to + i <= k < a.Length :: a[k] == old(a[k])
    {
      a[to + i] := a[from + i];
    }
  }

  /** std::copy from outside into the array. */
  method CopyIn(a: array<Byte>, at: nat, src: seq<Byte>)
    requires at + |src| <= a.Length
    modifies a
    ensures a[..] == old(a[..at]) + src + old(a[at + |src|..])
  {
    for i := 0 to |src|
      invariant forall k | 0 <= k < a.Length ::
                  a[k] == if at <= k < at + i then src[k - at] else old(a[k])
    {
      a[at + i] := src[i];
    }
  }

  lemma FrontKept(grown: seq<Byte>, s: seq<Byte>, a: nat, b: nat)
    requires |s| <= |grown| && grown[..|s|] == s && a <= b <= |s|
    ensures grown[a..b] == s[a..b]
  {
    assert grown[..|s|][a..b] == grown[a..b];
  }

  lemma SliceOfSlice(s: seq<Byte>, a: nat, b: nat, i: nat, j: nat)
    requires a <= b <= |s| && i <= j <= b - a
    ensures s[a..b][i..j] == s[a + i..a + j]
  {
    forall k | 0 <= k < j - i
      ensures s[a..b][i..j][k] == s[a + i..a + j][k]
    {
    }
  }

  /** The window [r, w) of a sequence whose first r elements end in a fresh copy of `mid`. */
  lemma WindowAfterPrepend(s: seq<Byte>, t: seq<Byte>, mid: seq<Byte>, r: nat, w: nat)
    requires |mid| <= r <= w <= |s|
    requires t == s[..r - |mid|] + mid + s[r..]
    ensures t[r - |mid|..w] == mid + s[r..w]
  {
  }

  class Buffer {
    var data: array<Byte>
    var readerIndex: nat
    var writerIndex: nat

    /** The class invariant. An empty buffer always sits at CHEAP_PREPEND. */
    ghost predicate Valid()
      reads this
    {
      && readerIndex <= writerIndex <= data.Length
      && CHEAP_PREPEND + INITIAL_SIZE <= data.Length
      && (readerIndex == writerIndex ==> readerIndex == CHEAP_PREPEND)
    }

    /** The readable bytes. */
    ghost function Contents(): (s: seq<Byte>)
      requires Valid()
      reads this, data
      ensures |s| == ReadableBytes()
    {
      data[readerIndex..writerIndex]
    }

    function ReadableBytes(): nat
      requires readerIndex <= writerIndex
      reads this
    {
      writerIndex - readerIndex
    }

    function WritableBytes(): nat
      requires writerIndex <= data.Length
      reads this
    {
      data.Length - writerIndex
    }

    function PrependableBytes(): nat
      reads this
    {
      readerIndex
    }

    /** The bytes at peek() + at. */
    function Peek(at: nat, len: nat): (bytes: seq<Byte>)
      requires Valid()
      requires at + len <= ReadableBytes()
      reads this, data
      ensures bytes == Contents()[at..at + len]
    {
      SliceOfSlice(data[..], readerIndex, writerIndex, at, at + len);
      data[readerIndex + at..readerIndex + at + len]
    }

    constructor ()
      ensures Valid() && fresh(data)
      ensures Contents() == []
      ensures WritableBytes() == 1024
      ensures PrependableBytes() == 8
    {
      data := new Byte[CHEAP_PREPEND + INITIAL_SIZE](_ => 0);
      readerIndex := CHEAP_PREPEND;
      writerIndex := CHEAP_PREPEND;
    }

    /** Where the indices stand after room for `len` bytes was made and `written` of them
        were used: nothing moves while the room suffices, the array grows only if the slack
        in front and behind together is too small, and otherwise the bytes move to the
        front of the same array. */
    twostate predicate RoomMade(len: nat, written: nat)
      requires old(Valid())
      reads this
    {
      if old(WritableBytes()) >= len then
        data == old(data) && readerIndex == old(readerIndex) && writerIndex == old(writerIndex) + written
      else if old(WritableBytes() + PrependableBytes()) < len + CHEAP_PREPEND then
        && data.Length == old(writerIndex) + len
        && readerIndex == old(readerIndex) && writerIndex == old(writerIndex) + written
      else
        && data == old(data)
        && readerIndex == CHEAP_PREPEND < old(readerIndex)
        && writerIndex == CHEAP_PREPEND + old(ReadableBytes()) + written
    }

    method MakeSpace(len: nat)
      requires Valid()
      requires WritableBytes() < len
      modifies this, data
      ensures Valid()
      ensures data == old(data) || fresh(data)
      ensures WritableBytes() >= len
      ensures Contents() == old(Contents())
      ensures RoomMade(len, 0)
    {
      if WritableBytes() + PrependableBytes() < len + CHEAP_PREPEND {
        // buffer_.resize(writerIndex_ + len)
        var grown := new Byte[writerIndex + len](_ => 0);
        CopyIn(grown, 0, data[..]);
        FrontKept(grown[..], data[..], readerIndex, writerIndex);
        data := grown;
      } else {
        // the source asserts this before it compacts
        assert CHEAP_PREPEND < readerIndex;
        var readable := ReadableBytes();
        CopyDown(data, readerIndex, CHEAP_PREPEND, readable);
        readerIndex := CHEAP_PREPEND;
        writerIndex := readerIndex + readable;
      }
    }

    method EnsureWritableBytes(len: nat)
      requires Valid()
      modifies this, data
      ensures Valid()
      ensures data == old(data) || fresh(data)
      ensures WritableBytes() >= len
      ensures Contents() == old(Contents())
      ensures RoomMade(len, 0)
    {
      if WritableBytes() < len {
        MakeSpace(len);
      }
    }

    /** Writing through BeginWrite() touches no readable byte. */
    method WriteAtEnd(bytes: seq<Byte>)
      requires Valid()
      requires |bytes| <= WritableBytes()
      modifies data
      ensures Valid()
      ensures data[writerIndex..writerIndex + |bytes|] == bytes
      ensures Contents() == old(Contents())
    {
      CopyIn(data, writerIndex, bytes);
    }

    /** Makes the bytes that were written behind the writer index readable. */
    method HasWritten(len: nat)
      requires Valid()
      requires len <= WritableBytes()
      modifies this`writerIndex
      ensures Valid()
      ensures writerIndex == old(writerIndex) + len
      ensures Contents() == old(Contents()) + old(data[writerIndex..writerIndex + len])
    {
      writerIndex := writerIndex + len;
    }

    method Append(bytes: seq<Byte>)
      requires Valid()
      modifies this, data
      ensures Valid()
      ensures data == old(data) || fresh(data)
      ensures Contents() == old(Contents()) + bytes
      ensures RoomMade(|bytes|, |bytes|)
    {
      EnsureWritableBytes(|bytes|);
      WriteAtEnd(bytes);
      HasWritten(|bytes|);
    }

    method RetrieveAll()
      requires Valid()
      modifies this`readerIndex, this`writerIndex
      ensures Valid()
      ensures Contents() == []
    {
      readerIndex := CHEAP_PREPEND;
      writerIndex := CHEAP_PREPEND;
    }

    method Retrieve(len: nat)
      requires Valid()
      requires len <= ReadableBytes()
      modifies this`readerIndex, this`writerIndex
      ensures Valid()
      ensures Contents() == old(Contents())[len..]
    {
      if len < ReadableBytes() {
        readerIndex := readerIndex + len;
      } else {
        RetrieveAll();
      }
    }

    method RetrieveAsString(len: nat) returns (result: seq<Byte>)
      requires Valid()
      requires len <= ReadableBytes()
      modifies this`readerIndex, this`writerIndex
      ensures Valid()
      ensures result + Contents() == old(Contents())
      ensures |result| == len
    {
      result := Peek(0, len);
      Retrieve(len);
    }

    method Prepend(bytes: seq<Byte>)
      requires Valid()
      requires |bytes| <= PrependableBytes()
      modifies this`readerIndex, data
      ensures Valid()
      ensures Contents() == bytes + old(Contents())
      ensures readerIndex == old(readerIndex) - |bytes|
    {
      ghost var before := data[..];
      readerIndex := readerIndex - |bytes|;
      CopyIn(data, readerIndex, bytes);
      WindowAfterPrepend(before, data[..], bytes, old(readerIndex), writerIndex);
    }

    method AppendInt32(x: int)
      requires Valid()
      modifies this, data
      ensures Valid()
      ensures data == old(data) || fresh(data)
      ensures Contents() == old(Contents()) + EncodeInt32(x)
      ensures RoomMade(4, 4)
    {
      Append(EncodeInt32(x));
    }

    method PeekInt32() returns (x: int)
      requires Valid()
      requires ReadableBytes() >= 4
      ensures x == DecodeInt32(Contents()[0..4])
    {
      x := DecodeInt32(Peek(0, 4));
    }

    method ReadInt32() returns (x: int)
      requires Valid()
      requires ReadableBytes() >= 4
      modifies this`readerIndex, this`writerIndex
      ensures Valid()
      ensures EncodeInt32(x) + Contents() == old(Contents())
    {
      x := PeekInt32();
      EncodeDecode(Contents()[0..4]);
      Retrieve(4);
    }

    method PrependInt32(x: int)
      requires Valid()
      requires 4 <= PrependableBytes()
      modifies this`readerIndex, data
      ensures Valid()
      ensures Contents() == EncodeInt32(x) + old(Contents())
      ensures readerIndex == old(readerIndex) - 4
    {
      Prepend(EncodeInt32(x));
    }

    /** Moves the readable bytes into a fresh buffer with the given room behind them. */
    method Shrink(reserve: nat)
      requires Valid()
      modifies this
      ensures Valid() && fresh(data)
      ensures Contents() == old(Contents())
      ensures readerIndex == CHEAP_PREPEND
      ensures WritableBytes() >= reserve
      ensures data.Length <= CHEAP_PREPEND + INITIAL_SIZE
              || data.Length == CHEAP_PREPEND + ReadableBytes() + reserve
    {
      var other := new Buffer();
      other.EnsureWritableBytes(ReadableBytes() + reserve);
      other.Append(data[readerIndex..writerIndex]);
      // Swap(other)
      data, other.data := other.data, data;
      readerIndex, other.readerIndex := other.readerIndex, readerIndex;
      writerIndex, other.writerIndex := other.writerIndex, writerIndex;
    }
  }
}
