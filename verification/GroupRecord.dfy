/** The record that a group read fills in: three 64-bit header words, then a value and
    an id for each event (`PERF_FORMAT_GROUP | ID | TOTAL_TIME_ENABLED | _RUNNING`).
    Words are little-endian. */
module GroupRecord {
  import opened Prelude

  const HEADER_SIZE := 24
  const ENTRY_SIZE := 16

  datatype Entry = Entry(value: u64, id: u64)

  datatype Record = Record(nr: u64, timeEnabled: u64, timeRunning: u64, entries: seq<Entry>)

  /** The `n` low-order octets of `x`, lowest first. */
  function EncodeWord(x: nat, n: nat): (bs: seq<byte>)
    ensures |bs| == n
  {
    if n == 0 then [] else [(x % 256) as byte] + EncodeWord(x / 256, n - 1)
  }

  function DecodeWord(bs: seq<byte>): nat {
    if bs == [] then 0 else bs[0] as nat + 256 * DecodeWord(bs[1..])
  }

  function Power256(n: nat): nat {
    if n == 0 then 1 else 256 * Power256(n - 1)
  }

  lemma {:induction false} DecodeEncodeWord(x: nat, n: nat)
    requires x < Power256(n)
    ensures DecodeWord(EncodeWord(x, n)) == x
  {
    if n == 0 {
    } else {
      DecodeEncodeWord(x / 256, n - 1);
      assert EncodeWord(x, n)[1..] == EncodeWord(x / 256, n - 1);
    }
  }

  lemma {:induction false} DecodeWordBound(bs: seq<byte>)
    ensures DecodeWord(bs) < Power256(|bs|)
  {
    if bs == [] {
    } else {
      DecodeWordBound(bs[1..]);
    }
  }

  lemma {:induction false} U64IsEightBytes()
    ensures Power256(8) == U64_LIMIT
  {
    assert Power256(4) == 0x1_0000_0000;
    assert Power256(8) == 256 * (256 * (256 * (256 * Power256(4))));
  }

  function EncodeU64(x: u64): (bs: seq<byte>)
    ensures |bs| == 8
  {
    EncodeWord(x, 8)
  }

  function DecodeU64(bs: seq<byte>): u64
    requires |bs| == 8
  {
    DecodeWordBound(bs);
    U64IsEightBytes();
    DecodeWord(bs)
  }

  lemma {:induction false} DecodeEncodeU64(x: u64)
    ensures DecodeU64(EncodeU64(x)) == x
  {
    U64IsEightBytes();
    DecodeEncodeWord(x, 8);
  }

  function EncodeEntry(e: Entry): (bs: seq<byte>)
    ensures |bs| == ENTRY_SIZE
  {
    EncodeU64(e.value) + EncodeU64(e.id)
  }

  function DecodeEntry(bs: seq<byte>): Entry
    requires |bs| == ENTRY_SIZE
  {
    Entry(DecodeU64(bs[..8]), DecodeU64(bs[8..]))
  }

  lemma {:induction false} DecodeEncodeEntry(e: Entry)
    ensures DecodeEntry(EncodeEntry(e)) == e
  {
    DecodeEncodeU64(e.value);
    DecodeEncodeU64(e.id);
    assert EncodeEntry(e)[..8] == EncodeU64(e.value) && EncodeEntry(e)[8..] == EncodeU64(e.id);
  }

  function EncodeEntries(es: seq<Entry>): (bs: seq<byte>)
    ensures |bs| == ENTRY_SIZE * |es|
  {
    if es == [] then [] else EncodeEntry(es[0]) + EncodeEntries(es[1..])
  }

  function DecodeEntries(bs: seq<byte>, n: nat): (es: seq<Entry>)
    requires |bs| == ENTRY_SIZE * n
    ensures |es| == n
  {
    if n == 0 then [] else [DecodeEntry(bs[..ENTRY_SIZE])] + DecodeEntries(bs[ENTRY_SIZE..], n - 1)
  }

  lemma {:induction false} DecodeEncodeEntries(es: seq<Entry>)
    ensures DecodeEntries(EncodeEntries(es), |es|) == es
  {
    if es == [] {
    } else {
      hide EncodeEntry, DecodeEntry;
      DecodeEncodeEntry(es[0]);
      DecodeEncodeEntries(es[1..]);
      assert EncodeEntries(es)[..ENTRY_SIZE] == EncodeEntry(es[0]);
      assert EncodeEntries(es)[ENTRY_SIZE..] == EncodeEntries(es[1..]);
    }
  }

  /** The bytes a reader of the descriptor receives. */
  function EncodeRecord(r: Record): (bs: seq<byte>)
    ensures |bs| == HEADER_SIZE + ENTRY_SIZE * |r.entries|
  {
    EncodeU64(r.nr) + EncodeU64(r.timeEnabled) + EncodeU64(r.timeRunning) + EncodeEntries(r.entries)
  }

  function DecodeRecord(bs: seq<byte>, n: nat): (r: Record)
    requires |bs| == HEADER_SIZE + ENTRY_SIZE * n
    ensures |r.entries| == n
  {
    Record(DecodeU64(bs[..8]), DecodeU64(bs[8..16]), DecodeU64(bs[16..24]), DecodeEntries(bs[HEADER_SIZE..], n))
  }

  /** Decoding a group's own record gives it back. */
  lemma {:induction false} DecodeEncodeRecord(r: Record)
    ensures DecodeRecord(EncodeRecord(r), |r.entries|) == r
  {
    hide EncodeU64, DecodeU64, EncodeEntries, DecodeEntries;
    DecodeEncodeU64(r.nr);
    DecodeEncodeU64(r.timeEnabled);
    DecodeEncodeU64(r.timeRunning);
    DecodeEncodeEntries(r.entries);
    var bs := EncodeRecord(r);
    assert bs[..8] == EncodeU64(r.nr) && bs[8..16] == EncodeU64(r.timeEnabled);
    assert bs[16..24] == EncodeU64(r.timeRunning) && bs[24..] == EncodeEntries(r.entries);
  }

  datatype CastError = HeaderAlignment | HeaderSize | EntryAlignment | EntrySize

  /** Both structures consist of 64-bit words. */
  const ALIGNMENT := 8

  predicate Aligned(address: nat) {
    address % ALIGNMENT == 0
  }

  /** `ref_from_prefix` for the header, then `ref_from_bytes_with_elems` for exactly `n`
      entries in what remains, on bytes that start at `address`. */
  function CastRecord(address: nat, bs: seq<byte>, n: nat): Result<Record, CastError> {
    if !Aligned(address) then Err(HeaderAlignment)
    else if |bs| < HEADER_SIZE then Err(HeaderSize)
    else if !Aligned(address + HEADER_SIZE) then Err(EntryAlignment)
    else if |bs| - HEADER_SIZE != ENTRY_SIZE * n then Err(EntrySize)
    else Ok(DecodeRecord(bs, n))
  }

  /** The casts succeed exactly on an aligned buffer of the group's size (the second can
      never fail for alignment alone), and then see the record that the bytes spell. */
  lemma {:induction false} CastOk(address: nat, bs: seq<byte>, n: nat)
    ensures CastRecord(address, bs, n).Ok? <==> Aligned(address) && |bs| == HEADER_SIZE + ENTRY_SIZE * n
    ensures CastRecord(address, bs, n) != Err(EntryAlignment)
    ensures forall r: Record :: |r.entries| == n && Aligned(address) ==>
              CastRecord(address, EncodeRecord(r), n) == Ok(r)
  {
    hide EncodeRecord, DecodeRecord;
    forall r: Record | |r.entries| == n && Aligned(address)
      ensures CastRecord(address, EncodeRecord(r), n) == Ok(r)
    {
      DecodeEncodeRecord(r);
    }
  }

  /** Different bytes never decode to the same record. */
  lemma {:induction false} DecodeInjective(a: seq<byte>, b: seq<byte>, n: nat)
    requires |a| == |b| == HEADER_SIZE + ENTRY_SIZE * n
    requires DecodeRecord(a, n) == DecodeRecord(b, n)
    ensures a == b
  {
    hide EncodeU64, DecodeU64, EncodeEntries, DecodeEntries;
    EncodeDecodeU64(a[..8]);
    EncodeDecodeU64(b[..8]);
    EncodeDecodeU64(a[8..16]);
    EncodeDecodeU64(b[8..16]);
    EncodeDecodeU64(a[16..24]);
    EncodeDecodeU64(b[16..24]);
    EncodeDecodeEntries(a[24..], n);
    EncodeDecodeEntries(b[24..], n);
    assert a == a[..8] + a[8..16] + a[16..24] + a[24..];
    assert b == b[..8] + b[8..16] + b[16..24] + b[24..];
  }

  /** Bytes spell a record, up to its first word, exactly when they agree with its
      encoding from byte 8 on. */
  lemma {:induction false} SameButFirstWord(bs: seq<byte>, r: Record)
    requires |bs| == HEADER_SIZE + ENTRY_SIZE * |r.entries|
    ensures DecodeRecord(bs, |r.entries|).(nr := r.nr) == r <==> bs[8..] == EncodeRecord(r)[8..]
  {
    hide DecodeU64, DecodeEntries, EncodeRecord;
    var n, enc := |r.entries|, EncodeRecord(r);
    var mixed := enc[..8] + bs[8..];
    DecodeEncodeRecord(r);
    assert mixed[..8] == enc[..8] && mixed[8..16] == bs[8..16] && mixed[16..24] == bs[16..24];
    assert mixed[24..] == bs[24..];
    assert DecodeRecord(mixed, n) == DecodeRecord(bs, n).(nr := r.nr);
    if DecodeRecord(mixed, n) == r {
      DecodeInjective(mixed, enc, n);
      assert bs[8..] == mixed[8..];
    }
    if bs[8..] == enc[8..] {
      assert mixed == enc;
    }
  }

  lemma {:induction false} EncodeDecodeWord(bs: seq<byte>)
    ensures EncodeWord(DecodeWord(bs), |bs|) == bs
  {
    if bs == [] {
    } else {
      var x := DecodeWord(bs);
      EncodeDecodeWord(bs[1..]);
      assert x % 256 == bs[0] as nat && x / 256 == DecodeWord(bs[1..]);
      assert bs == [bs[0]] + bs[1..];
    }
  }

  lemma {:induction false} EncodeDecodeU64(bs: seq<byte>)
    requires |bs| == 8
    ensures EncodeU64(DecodeU64(bs)) == bs
  {
    EncodeDecodeWord(bs);
  }

  lemma {:induction false} EncodeDecodeEntries(bs: seq<byte>, n: nat)
    requires |bs| == ENTRY_SIZE * n
    ensures EncodeEntries(DecodeEntries(bs, n)) == bs
  {
    if n == 0 {
    } else {
      hide EncodeU64, DecodeU64;
      var head, tail := bs[..ENTRY_SIZE], bs[ENTRY_SIZE..];
      EncodeDecodeU64(head[..8]);
      EncodeDecodeU64(head[8..]);
      EncodeDecodeEntries(tail, n - 1);
      assert head == head[..8] + head[8..] && bs == head + tail;
      var es := DecodeEntries(bs, n);
      assert es[1..] == DecodeEntries(tail, n - 1);
    }
  }

  // ---- The layout, byte by byte ----------------------------------------------------

  /** The 64-bit word that begins at a byte, its lowest byte first. */
  function WordAt(bs: seq<byte>, at: nat): int
    requires at + 8 <= |bs|
  {
    bs[at] as int + 0x100 * bs[at + 1] as int + 0x1_0000 * bs[at + 2] as int + 0x100_0000 * bs[at + 3] as int
    + 0x1_0000_0000 * bs[at + 4] as int + 0x100_0000_0000 * bs[at + 5] as int
    + 0x1_0000_0000_0000 * bs[at + 6] as int + 0x100_0000_0000_0000 * bs[at + 7] as int
  }

  lemma {:induction false} WordIs(bs: seq<byte>)
    requires |bs| == 8
    ensures WordAt(bs, 0) == DecodeWord(bs)
  {
    assert DecodeWord(bs[7..]) == bs[7] as nat;
    assert bs[6..][1..] == bs[7..] && DecodeWord(bs[6..]) == bs[6] as nat + 256 * DecodeWord(bs[7..]);
    assert bs[5..][1..] == bs[6..] && DecodeWord(bs[5..]) == bs[5] as nat + 256 * DecodeWord(bs[6..]);
    assert bs[4..][1..] == bs[5..] && DecodeWord(bs[4..]) == bs[4] as nat + 256 * DecodeWord(bs[5..]);
    assert bs[3..][1..] == bs[4..] && DecodeWord(bs[3..]) == bs[3] as nat + 256 * DecodeWord(bs[4..]);
    assert bs[2..][1..] == bs[3..] && DecodeWord(bs[2..]) == bs[2] as nat + 256 * DecodeWord(bs[3..]);
    assert bs[1..][1..] == bs[2..] && DecodeWord(bs[1..]) == bs[1] as nat + 256 * DecodeWord(bs[2..]);
  }

  /** The word in the middle of some bytes. */
  lemma {:induction false} WordInside(bs: seq<byte>, at: nat, x: u64)
    requires at + 8 <= |bs| && bs[at..at + 8] == EncodeU64(x)
    ensures WordAt(bs, at) == x
  {
    hide EncodeWord, DecodeWord;
    var word := bs[at..at + 8];
    WordIs(word);
    U64IsEightBytes();
    DecodeEncodeWord(x, 8);
    assert WordAt(word, 0) == WordAt(bs, at);
  }

  /** Where everything lies in a record: the number of events at byte 0, the time enabled at
      byte 8, the time running at byte 16, then for event `k` its count at byte 24 + 16 * k and
      its id at byte 32 + 16 * k. */
  lemma {:induction false} RecordLayout(r: Record)
    ensures var bs := EncodeRecord(r);
            && |bs| == 24 + 16 * |r.entries|
            && WordAt(bs, 0) == r.nr
            && WordAt(bs, 8) == r.timeEnabled
            && WordAt(bs, 16) == r.timeRunning
            && forall k :: 0 <= k < |r.entries| ==>
                 WordAt(bs, 24 + 16 * k) == r.entries[k].value && WordAt(bs, 32 + 16 * k) == r.entries[k].id
  {
    hide EncodeU64, EncodeEntries, WordAt;
    var bs := EncodeRecord(r);
    assert bs[0..8] == EncodeU64(r.nr) && bs[8..16] == EncodeU64(r.timeEnabled);
    assert bs[16..24] == EncodeU64(r.timeRunning) && bs[24..] == EncodeEntries(r.entries);
    WordInside(bs, 0, r.nr);
    WordInside(bs, 8, r.timeEnabled);
    WordInside(bs, 16, r.timeRunning);
    forall k | 0 <= k < |r.entries|
      ensures WordAt(bs, 24 + 16 * k) == r.entries[k].value && WordAt(bs, 32 + 16 * k) == r.entries[k].id
    {
      EntryInside(r.entries, k);
      assert bs[24 + 16 * k..32 + 16 * k] == bs[24..][16 * k..8 + 16 * k];
      assert bs[32 + 16 * k..40 + 16 * k] == bs[24..][8 + 16 * k..16 + 16 * k];
      WordInside(bs, 24 + 16 * k, r.entries[k].value);
      WordInside(bs, 32 + 16 * k, r.entries[k].id);
    }
  }

  lemma {:induction false} EntryInside(es: seq<Entry>, k: nat)
    requires k < |es|
    ensures EncodeEntries(es)[16 * k..8 + 16 * k] == EncodeU64(es[k].value)
    ensures EncodeEntries(es)[8 + 16 * k..16 + 16 * k] == EncodeU64(es[k].id)
  {
    hide EncodeU64;
    var rest := EncodeEntries(es[1..]);
    assert EncodeEntries(es)[16..] == rest;
    if k == 0 {
    } else {
      EntryInside(es[1..], k - 1);
      assert EncodeEntries(es)[16 * k..8 + 16 * k] == rest[16 * (k - 1)..8 + 16 * (k - 1)];
      assert EncodeEntries(es)[8 + 16 * k..16 + 16 * k] == rest[8 + 16 * (k - 1)..16 + 16 * (k - 1)];
    }
  }
}
