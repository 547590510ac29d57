/** `PerfGroupReader`: one growable byte buffer, reused for groups of every size. */
module GroupReader {
  import opened Prelude
  import opened GroupRecord

  /** What `read(2)` did: failed, or placed these bytes at the start of the buffer. */
  datatype KernelRead = ReadFailed(errno: int) | Filled(bytes: seq<byte>)

  datatype ReadError = Io(errno: int) | Cast(cast: CastError)

  function NecessaryBufferSize(count: nat): nat {
    HEADER_SIZE + ENTRY_SIZE * count
  }

  function MaxOf(counts: seq<nat>): nat {
    if counts == [] then 0
    else
      var m := MaxOf(counts[..|counts| - 1]);
      if counts[|counts| - 1] > m then counts[|counts| - 1] else m
  }

  lemma {:induction false} MaxIsLargest(counts: seq<nat>)
    requires counts != []
    ensures MaxOf(counts) in counts && forall c :: c in counts ==> c <= MaxOf(counts)
  {
    var n := |counts| - 1;
    assert counts == counts[..n] + [counts[n]];
    if n == 0 {
    } else {
      MaxIsLargest(counts[..n]);
    }
  }

  /** Buffer contents after `written` was placed at the start of `before`. */
  function Overlaid(written: seq<byte>, before: seq<byte>): seq<byte> {
    if |written| >= |before| then written[..|before|] else written + before[|written|..]
  }

  /** `read(2)` never writes past the size it is given. */
  function Clip(bytes: seq<byte>, size: nat): seq<byte> {
    if |bytes| <= size then bytes else bytes[..size]
  }

  /** The buffer once it has room for a group: `memory` is what newly allocated memory
      would hold over the group's stretch, and shows only past the old end. */
  function Grown(before: seq<byte>, memory: seq<byte>): (after: seq<byte>)
    ensures |after| == if |before| >= |memory| then |before| else |memory|
    ensures before <= after
  {
    if |before| >= |memory| then before else before + memory[|before|..]
  }

  /** The buffer after one read of a group, successful or not. */
  function Landed(before: seq<byte>, memory: seq<byte>, kernel: KernelRead): (after: seq<byte>)
    ensures |after| >= |memory|
  {
    match kernel
    case ReadFailed(_) => Grown(before, memory)
    case Filled(bytes) => Overlaid(Clip(bytes, |memory|), Grown(before, memory))
  }

  /** What the allocator hands out for a group of `count` events. */
  function FreshBytes(count: nat, memory: nat -> byte): (bs: seq<byte>)
    ensures |bs| == NecessaryBufferSize(count)
    ensures forall i :: 0 <= i < |bs| ==> bs[i] == memory(i)
  {
    seq(NecessaryBufferSize(count), i requires 0 <= i < NecessaryBufferSize(count) => memory(i))
  }

  class PerfGroupReader {
    var data: array?<byte>
    var address: nat
    ghost var requests: seq<nat>

    /** The capacity is that of the largest group asked for so far, and the allocation is
        aligned as its layout says. */
    ghost predicate Valid()
      reads this
    {
      && (data == null <==> requests == [])
      && (data != null ==> data.Length == NecessaryBufferSize(MaxOf(requests)) && Aligned(address))
    }

    /** The bytes held, none before the first read. */
    ghost function Contents(): seq<byte>
      reads this, data
    {
      if data == null then [] else data[..]
    }

    constructor ()
      ensures Valid() && requests == [] && data == null
    {
      data := null;
      address := 0;
      requests := [];
    }

    /** Grows the buffer, keeping its contents, when the group needs more room. New memory
        lies at any aligned address and holds whatever it holds. */
    method EnsureSized(count: nat, memory: nat -> byte)
      requires Valid()
      modifies this
      ensures Valid() && requests == old(requests) + [count]
      ensures data != null && NecessaryBufferSize(count) <= data.Length
      ensures data == old(data) || fresh(data)
      ensures Contents() == Grown(old(Contents()), FreshBytes(count, memory))
      ensures old(data) != null && NecessaryBufferSize(count) <= old(data.Length) ==>
                data == old(data) && address == old(address)
    {
      var minSize, blank := NecessaryBufferSize(count), FreshBytes(count, memory);
      ghost var before, grown := Contents(), requests + [count];
      assert grown[..|grown| - 1] == requests;
      if data != null {
        if minSize > data.Length {
          var bigger := new byte[minSize](i requires 0 <= i < minSize => blank[i]);
          forall i | 0 <= i < data.Length {
            bigger[i] := data[i];
          }
          data := bigger;
          address := AnyAligned();
        }
      } else {
        data := new byte[minSize](i requires 0 <= i < minSize => blank[i]);
        address := AnyAligned();
      }
      requests := grown;
      assert Contents() == Grown(before, blank);
    }

    /** `read(2)` of at most `size` bytes into the buffer. */
    method Fill(size: nat, bytes: seq<byte>)
      requires data != null && size <= data.Length
      modifies data
      ensures data[..] == Overlaid(Clip(bytes, size), old(data[..]))
    {
      var w := Clip(bytes, size);
      forall i | 0 <= i < |w| {
        data[i] := w[i];
      }
    }

    /** Reads a group of `count` events. A failed read is reported as such; any other
        decodes the first `NecessaryBufferSize(count)` bytes of the buffer, however few
        of them the kernel wrote (only a debug assertion compares the two lengths). The
        casts never fail. */
    method ReadGroup(count: nat, memory: nat -> byte, kernel: KernelRead) returns (r: Result<Record, ReadError>)
      requires Valid()
      modifies this, data
      ensures Valid() && requests == old(requests) + [count]
      ensures data != null && (data == old(data) || fresh(data))
      ensures NecessaryBufferSize(count) <= data.Length
      // what the kernel wrote is in place, every other byte is what was there before
      ensures Contents() == Landed(old(Contents()), FreshBytes(count, memory), kernel)
      ensures kernel.ReadFailed? ==> r == Err(Io(kernel.errno))
      ensures kernel.Filled? ==> r == Ok(DecodeRecord(data[..NecessaryBufferSize(count)], count))
      // a complete read returns exactly what was written
      ensures kernel.Filled? && |kernel.bytes| == NecessaryBufferSize(count) ==>
                r == Ok(DecodeRecord(kernel.bytes, count))
    {
      hide DecodeRecord, MaxOf;
      EnsureSized(count, memory);
      var size := NecessaryBufferSize(count);
      match kernel {
        case ReadFailed(errno) =>
          r := Err(Io(errno));
        case Filled(bytes) =>
          Fill(size, bytes);
          assert |bytes| == size ==> data[..size] == bytes;
          CastOk(address, data[..size], count);
          match CastRecord(address, data[..size], count) {
            case Err(c) =>
              r := Err(Cast(c));
            case Ok(record) =>
              r := Ok(record);
          }
      }
    }
  }

  /** An allocation with the header's layout lies at an aligned address; which one is the
      allocator's choice. */
  method AnyAligned() returns (address: nat)
    ensures Aligned(address)
  {
    assert Aligned(0);
    address :| Aligned(address);
  }

  /** A record read whole into a buffer of any contents decodes to itself. */
  lemma {:induction false} WholeReadDecodes(r: Record, before: seq<byte>)
    requires |before| == NecessaryBufferSize(|r.entries|)
    ensures DecodeRecord(Overlaid(EncodeRecord(r), before), |r.entries|) == r
  {
    DecodeEncodeRecord(r);
    assert Overlaid(EncodeRecord(r), before) == EncodeRecord(r);
  }

  /** The first `k` bytes of a record decode to that record over every possible earlier
      buffer content exactly when they are all of its bytes: after any short read some
      earlier content shows through. */
  lemma {:induction false} NoStaleByteIffWhole(r: Record, k: nat)
    requires k <= |EncodeRecord(r)|
    ensures k == |EncodeRecord(r)| <==>
              forall before: seq<byte> :: |before| == NecessaryBufferSize(|r.entries|) ==>
                DecodeRecord(Overlaid(EncodeRecord(r)[..k], before), |r.entries|) == r
  {
    hide DecodeRecord;
    var bs := EncodeRecord(r);
    if k == |bs| {
      assert bs[..k] == bs;
      forall before: seq<byte> | |before| == NecessaryBufferSize(|r.entries|)
        ensures DecodeRecord(Overlaid(bs[..k], before), |r.entries|) == r
      {
        WholeReadDecodes(r, before);
      }
    } else {
      var before := bs[k := if bs[k] == 0 then 1 else 0];
      var after := Overlaid(bs[..k], before);
      assert after[k] != bs[k];
      DecodeEncodeRecord(r);
      if DecodeRecord(after, |r.entries|) == r {
        DecodeInjective(after, bs, |r.entries|);
        assert false;
      }
    }
  }

  /** A read that returns end-of-file (0 bytes) hands out the previous record of the
      same size again. */
  lemma {:induction false} EmptyReadRepeats(r: Record)
    ensures DecodeRecord(Overlaid([], EncodeRecord(r)), |r.entries|) == r
  {
    DecodeEncodeRecord(r);
    assert Overlaid([], EncodeRecord(r)) == EncodeRecord(r);
  }

  /** A read, byte by byte: the first bytes are those the kernel delivered, as far as they go
      and as the group is long; every other byte is what was there, or, past the old end, what
      the allocator gave. */
  lemma {:induction false} LandedAt(before: seq<byte>, memory: seq<byte>, kernel: KernelRead, i: nat)
    requires i < |before| || i < |memory|
    ensures var after := Landed(before, memory, kernel);
            && |after| == (if |before| < |memory| then |memory| else |before|)
            && after[i] == (if kernel.Filled? && i < |kernel.bytes| && i < |memory| then kernel.bytes[i]
                            else if i < |before| then before[i] else memory[i])
  {
  }
}
