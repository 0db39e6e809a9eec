/**
 The growable byte buffer (`ByteBuf`). Its abstract value is `Contents()`, the readable bytes;
 every method says what it does to them.
 */
module ByteBuffers {
  import opened Words
  import opened Bytes

  datatype Result<+T> = Ok(value: T) | OutOfRange

  // ---- Growth policy ----

  function Doubled(cap: nat, need: nat): (r: nat)
    requires cap > 0
    ensures r >= need && r >= cap
    decreases need - cap
  {
    if cap >= need then cap else Doubled(2 * cap, need)
  }

  /** The capacity after room for `need` bytes has been ensured. */
  function Grown(cap: nat, need: nat): nat {
    if need <= cap then cap else Doubled(if cap == 0 then 64 else 2 * cap, need)
  }

  /** The bytes a reallocation of the whole block copies when `need` bytes are asked for. */
  function CopyCost(cap: nat, need: nat): nat {
    if need <= cap then 0 else cap
  }

  function Sum(lens: seq<nat>): nat {
    if lens == [] then 0 else lens[0] + Sum(lens[1..])
  }

  /** The bytes recopied by a run of appends of the given lengths, from `written` bytes in a block of `cap`. */
  function TotalRecopied(cap: nat, written: nat, lens: seq<nat>): nat
    decreases |lens|
  {
    if lens == [] then 0
    else
      var need := written + lens[0];
      CopyCost(cap, need) + TotalRecopied(Grown(cap, need), need, lens[1..])
  }

  lemma {:induction false} RecopiedBound(cap: nat, written: nat, lens: seq<nat>)
    ensures TotalRecopied(cap, written, lens) == 0
         || TotalRecopied(cap, written, lens) + cap < 2 * (written + Sum(lens))
    decreases |lens|
  {
    if lens != [] {
      var need := written + lens[0];
      RecopiedBound(Grown(cap, need), need, lens[1..]);
    }
  }

  lemma {:induction false} DoubledIs(cap: nat, need: nat) returns (k: nat)
    requires cap > 0
    ensures Doubled(cap, need) == cap * Pow2(k)
    ensures k > 0 ==> cap * Pow2(k - 1) < need
    decreases need - cap
  {
    if cap >= need {
      k := 0;
    } else {
      var j := DoubledIs(2 * cap, need);
      k := j + 1;
      OneMoreDoubling(cap, j);
      if j > 0 {
        OneMoreDoubling(cap, j - 1);
      }
      hide Pow2;
    }
  }

  lemma OneMoreDoubling(cap: nat, j: nat)
    ensures cap * Pow2(0) == cap && cap * Pow2(j + 1) == 2 * cap * Pow2(j)
  {
  }

  /** A block grows to the least of its doublings that is large enough, and an empty one to the least of those of 64. */
  lemma GrownIsLeastDoubling(cap: nat, need: nat) returns (k: nat)
    requires need > cap
    ensures var base := if cap == 0 then 64 else 2 * cap;
            Grown(cap, need) == base * Pow2(k) >= need && (k > 0 ==> base * Pow2(k - 1) < need)
  {
    k := DoubledIs(if cap == 0 then 64 else 2 * cap, need);
  }

  /** Appending is amortised: a fresh buffer of any capacity recopies less than twice what is appended. */
  lemma AppendsRecopyLessThanTwice(cap: nat, lens: seq<nat>)
    ensures TotalRecopied(cap, 0, lens) < 2 * Sum(lens) || (Sum(lens) == 0 && TotalRecopied(cap, 0, lens) == 0)
  {
    RecopiedBound(cap, 0, lens);
  }

  // ---- The buffer ----

  class ByteBuf {
    var data: array<byte>
    var capacity: nat
    var readerIndex: nat
    var writerIndex: nat
    ghost var recopied: nat  // bytes copied so far by `Expand`

    ghost predicate Valid()
      reads this
    {
      readerIndex <= writerIndex <= capacity == data.Length
    }

    /** The readable bytes. */
    ghost function Contents(): bytes
      reads this, data
      requires Valid()
    {
      data[readerIndex..writerIndex]
    }

    constructor (initialCapacity: nat)
      ensures Valid() && fresh(data)
      ensures Contents() == [] && capacity == initialCapacity && readerIndex == 0 && recopied == 0
    {
      data := new byte[initialCapacity];
      capacity := initialCapacity;
      readerIndex, writerIndex, recopied := 0, 0, 0;
    }

    constructor CopyOf(src: bytes)
      ensures Valid() && fresh(data)
      ensures Contents() == src && capacity == |src| && readerIndex == 0 && recopied == 0
    {
      data := new byte[|src|](i requires 0 <= i < |src| => src[i]);
      capacity := |src|;
      readerIndex, writerIndex, recopied := 0, |src|, 0;
    }

    constructor Copy(other: ByteBuf)
      requires other.Valid()
      ensures Valid() && fresh(data)
      ensures Contents() == other.Contents()
      ensures capacity == other.capacity && readerIndex == other.readerIndex
    {
      var d := new byte[other.capacity];
      forall i | 0 <= i < other.writerIndex {
        d[i] := other.data[i];
      }
      data := d;
      capacity := other.capacity;
      readerIndex, writerIndex, recopied := other.readerIndex, other.writerIndex, 0;
    }

    method ReadByte() returns (r: Result<byte>)
      requires Valid()
      modifies this`readerIndex
      ensures Valid()
      ensures old(Contents()) == [] ==> r == OutOfRange && Contents() == []
      ensures old(Contents()) != [] ==> r == Ok(old(Contents())[0]) && Contents() == old(Contents())[1..]
    {
      if writerIndex - readerIndex < 1 {
        return OutOfRange;
      }
      r := Ok(data[readerIndex]);
      readerIndex := readerIndex + 1;
    }

    method ReadBytes(len: nat) returns (r: Result<bytes>)
      requires Valid()
      modifies this`readerIndex
      ensures Valid()
      ensures |old(Contents())| < len ==> r == OutOfRange && Contents() == old(Contents())
      ensures len <= |old(Contents())| ==> r == Ok(old(Contents())[..len]) && Contents() == old(Contents())[len..]
    {
      if writerIndex - readerIndex < len {
        return OutOfRange;
      }
      r := Ok(data[readerIndex..readerIndex + len]);
      assert data[readerIndex..readerIndex + len] == Contents()[..len];
      readerIndex := readerIndex + len;
      assert Contents() == old(Contents())[len..];
    }

    method WriteByte(b: byte)
      requires Valid()
      modifies this, data
      ensures Valid() && (data == old(data) || fresh(data))
      ensures Contents() == old(Contents()) + [b]
      ensures readerIndex == old(readerIndex)
      ensures capacity == Grown(old(capacity), old(writerIndex) + 1)
      ensures recopied == old(recopied) + CopyCost(old(capacity), old(writerIndex) + 1)
    {
      EnsureWritable(1);
      data[writerIndex] := b;
      writerIndex := writerIndex + 1;
    }

    method WriteBytes(src: bytes)
      requires Valid()
      modifies this, data
      ensures Valid() && (data == old(data) || fresh(data))
      ensures Contents() == old(Contents()) + src
      ensures readerIndex == old(readerIndex)
      ensures capacity == Grown(old(capacity), old(writerIndex) + |src|)
      ensures recopied == old(recopied) + CopyCost(old(capacity), old(writerIndex) + |src|)
    {
      EnsureWritable(|src|);
      var w := writerIndex;
      forall i | w <= i < w + |src| {
        data[i] := src[i - w];
      }
      writerIndex := w + |src|;
      assert data[readerIndex..w] == old(Contents());
      Filled(data[..], readerIndex, w, src);
    }

    method SetReaderIndex(index: nat) returns (ok: bool)
      requires Valid()
      modifies this`readerIndex
      ensures Valid()
      ensures ok == (index <= writerIndex)
      ensures ok ==> Contents() == data[index..writerIndex]
      ensures !ok ==> Contents() == old(Contents())
    {
      ok := index <= writerIndex;
      if ok {
        readerIndex := index;
      }
    }

    /** The index is checked against the capacity only: below the reader it is accepted and the buffer is spoilt. */
    method SetWriterIndex(index: nat) returns (ok: bool)
      requires Valid()
      modifies this`writerIndex
      ensures ok == (index <= capacity)
      ensures Valid() <==> !ok || readerIndex <= index
      ensures ok ==> writerIndex == index
      ensures ok && Valid() ==> Contents() == data[readerIndex..index]
      ensures !ok ==> Contents() == old(Contents())
    {
      ok := index <= capacity;
      if ok {
        writerIndex := index;
      }
    }

    method Reserve(newCapacity: nat)
      requires Valid()
      modifies this
      ensures Valid() && (data == old(data) || fresh(data))
      ensures Contents() == old(Contents()) && readerIndex == old(readerIndex)
      ensures capacity == if newCapacity > old(capacity) then newCapacity else old(capacity)
    {
      if newCapacity > capacity {
        Expand(newCapacity);
      }
    }

    method EnsureWritable(len: nat)
      requires Valid()
      modifies this
      ensures Valid() && (data == old(data) || fresh(data))
      ensures Contents() == old(Contents())
      ensures readerIndex == old(readerIndex) && writerIndex == old(writerIndex)
      ensures writerIndex + len <= capacity == Grown(old(capacity), writerIndex + len)
      ensures recopied == old(recopied) + CopyCost(old(capacity), writerIndex + len)
    {
      if writerIndex + len > capacity {
        var newCap := capacity * 2;
        if newCap == 0 {
          newCap := 64;
        }
        while newCap < writerIndex + len
          invariant newCap > 0 && newCap >= 2 * capacity
          invariant Doubled(newCap, writerIndex + len) == Grown(capacity, writerIndex + len)
          decreases writerIndex + len - newCap
        {
          newCap := newCap * 2;
        }
        Expand(newCap);
      }
    }

    method Clear()
      modifies this`readerIndex, this`writerIndex
      requires Valid()
      ensures Valid() && Contents() == [] && readerIndex == 0
    {
      readerIndex, writerIndex := 0, 0;
    }

    /**
     Positions are absolute: they count from the start of the block, not from the reader. The test adds
     them in 64 bits, so that a sum that wraps may be let through; the copy then leaves the block.
     */
    method Slice(index: uint64, len: uint64) returns (r: SliceResult)
      requires Valid()
      ensures r.Refused? <==> (index + len) % TWO_64 > writerIndex
      ensures r.Sliced? <==> index + len < TWO_64 && index + len <= writerIndex
      ensures r.Sliced? ==> fresh(r.buf) && fresh(r.buf.data) && r.buf.Valid()
      ensures r.Sliced? ==> r.buf.Contents() == data[index..index + len]
    {
      if (index + len) % TWO_64 > writerIndex {
        return Refused;
      }
      if index + len >= TWO_64 {
        return OutsideBlock;
      }
      var buf := new ByteBuf(len);
      forall i | 0 <= i < len {
        buf.data[i] := data[index + i];
      }
      buf.writerIndex := len;
      r := Sliced(buf);
    }

    /** Cuts the block itself; what is then readable starts at position 0 of the old block. */
    method Trim(maxCap: nat)
      requires Valid()
      modifies this
      ensures Valid() && (data == old(data) || fresh(data))
      ensures old(capacity) <= maxCap ==> Contents() == old(Contents()) && capacity == old(capacity)
      ensures old(capacity) > maxCap ==>
                capacity == maxCap && readerIndex == 0 &&
                Contents() == Trimmed(old(data[..]), old(readerIndex), old(writerIndex), maxCap)
    {
      if capacity > maxCap {
        var keep := if writerIndex - readerIndex < maxCap then writerIndex - readerIndex else maxCap;
        var d := new byte[maxCap];
        forall i | 0 <= i < maxCap {
          d[i] := data[i];
        }
        data := d;
        capacity := maxCap;
        readerIndex, writerIndex := 0, keep;
      }
    }

    method Shrink()
      requires Valid()
      modifies this, data
      ensures Valid() && (data == old(data) || fresh(data))
      ensures Contents() == old(Contents()) && readerIndex == 0
      ensures capacity == if old(capacity) - |old(Contents())| > 1024 &&
                             old(capacity) - |old(Contents())| > |old(Contents())| * 2
                          then |old(Contents())| + 64 else old(capacity)
    {
      var readable := writerIndex - readerIndex;
      if readerIndex > 0 {
        var r := readerIndex;
        forall i | 0 <= i < readable {
          data[i] := data[r + i];
        }
        readerIndex, writerIndex := 0, readable;
      }
      assert data[..readable] == old(Contents());
      var waste := capacity - readable;
      if waste > 1024 && waste > readable * 2 {
        var d := new byte[readable + 64];
        forall i | 0 <= i < readable {
          d[i] := data[i];
        }
        data := d;
        capacity := readable + 64;
      }
    }

    method Discard(len: nat)
      requires Valid()
      modifies this`readerIndex
      ensures Valid()
      ensures Contents() == if len >= |old(Contents())| then [] else old(Contents())[len..]
    {
      if len >= writerIndex - readerIndex {
        readerIndex := writerIndex;
      } else {
        readerIndex := readerIndex + len;
      }
    }

    method Equals(other: ByteBuf) returns (eq: bool)
      requires Valid() && other.Valid()
      ensures eq <==> Contents() == other.Contents()
    {
      if writerIndex - readerIndex != other.writerIndex - other.readerIndex {
        return false;
      }
      eq := data[readerIndex..writerIndex] == other.data[other.readerIndex..other.writerIndex];
    }

    method Swap(other: ByteBuf)
      requires Valid() && other.Valid()
      modifies this, other
      ensures Valid() && other.Valid()
      ensures data == old(other.data) && other.data == old(data)
      ensures Contents() == old(other.Contents()) && other.Contents() == old(Contents())
    {
      data, other.data := other.data, data;
      capacity, other.capacity := other.capacity, capacity;
      readerIndex, other.readerIndex := other.readerIndex, readerIndex;
      writerIndex, other.writerIndex := other.writerIndex, writerIndex;
    }

    method Expand(newCapacity: nat)
      requires Valid() && newCapacity >= capacity
      modifies this
      ensures Valid() && fresh(data)
      ensures capacity == newCapacity && Contents() == old(Contents())
      ensures readerIndex == old(readerIndex) && writerIndex == old(writerIndex)
      ensures recopied == old(recopied) + old(capacity)
    {
      var d := new byte[newCapacity];
      forall i | 0 <= i < capacity {
        d[i] := data[i];
      }
      recopied := recopied + capacity;
      data := d;
      capacity := newCapacity;
    }
  }

  lemma Filled(block: bytes, r: nat, w: nat, src: bytes)
    requires r <= w <= w + |src| <= |block|
    requires forall i | w <= i < w + |src| :: block[i] == src[i - w]
    ensures block[r..w + |src|] == block[r..w] + src
  {
  }

  datatype SliceResult = Sliced(buf: ByteBuf) | Refused | OutsideBlock

  predicate SliceRefused(index: uint64, len: uint64, writer: uint64) {
    (index + len) % TWO_64 > writer
  }

  /**
   The test refuses exactly the positions not written if and only if the sum does not wrap, or is too
   large even so.
   */
  lemma SliceTestIsRightIff(index: uint64, len: uint64, writer: uint64)
    ensures (SliceRefused(index, len, writer) <==> index + len > writer)
       <==> index + len < TWO_64 || index + len - TWO_64 > writer
  {
  }

  /** At an input: one byte at the last position there is passes for an empty buffer. */
  lemma SliceTestIsPassed()
    ensures !SliceRefused(TWO_64 - 1, 1, 0)
  {
  }

  /** What `Trim` leaves readable when it cuts a block down to `maxCap`. */
  function Trimmed(block: bytes, r: nat, w: nat, maxCap: nat): bytes
    requires r <= w <= |block| && maxCap < |block|
  {
    block[..if w - r < maxCap then w - r else maxCap]
  }

  /**
   Trimming keeps a prefix of the readable bytes whatever they are, exactly when the reader is at 0 or
   nothing is kept.
   */
  lemma TrimKeepsReadableIff(r: nat, w: nat, cap: nat, maxCap: nat)
    requires r <= w <= cap && maxCap < cap
    ensures (forall block: bytes | |block| == cap :: Trimmed(block, r, w, maxCap) <= block[r..w])
       <==> r == 0 || r == w || maxCap == 0
  {
    if r == 0 || r == w || maxCap == 0 {
      forall block: bytes | |block| == cap
        ensures Trimmed(block, r, w, maxCap) <= block[r..w]
      {
        if r == 0 {
          assert block[0..w] == block[..w];
        }
      }
    } else {
      var block: bytes := seq(cap, i => if i == r then 1 else 0);
      assert Trimmed(block, r, w, maxCap)[0] == 0;
      assert block[r..w][0] == 1;
    }
  }
}
