/** The `.idx` scan shared by `Dictionary.loadIdx` (lib/dict.js) and `loadIdx`
    (lib/stardict.js): `wordcount` records, each a headword ended by a zero
    byte, then the big-endian u32 payload offset and the big-endian u32
    payload size. Offsets are always read as 32-bit numbers. */
module IdxFormat {
  import opened Wrappers
  import opened Buffers

  /** One index record: its ordinal, the headword bytes (which the source turns
      into a string with `toString()`), and where its payload lies. */
  datatype IndexEntry = IndexEntry(id: nat, index: seq<byte>, offset: u32, size: u32)

  /** The `l` that `let l = 1; while (buffer[pos + l] !== 0 && pos + l < buffer.length) l += 1;`
      leaves: the scan starts one byte in, so `buffer[pos]` is never tested. */
  function HeadwordLen(buf: seq<byte>, pos: nat): (l: nat)
    ensures l >= 1
    ensures pos < |buf| ==> pos + l <= |buf|
    ensures pos >= |buf| ==> l == 1
    ensures forall k :: pos < k < pos + l ==> buf[k] != 0
    ensures pos + l < |buf| ==> buf[pos + l] == 0
  {
    1 + ZeroRun(buf, pos + 1)
  }

  /** One pass of the loop body at cursor `pos`: the entry pushed and the next
      cursor, or the RangeError of a u32 read past the end of the buffer. */
  function IdxRecord(buf: seq<byte>, pos: nat, id: nat): (r: Result<(IndexEntry, nat), Error>)
    ensures r.Success? <==> pos + HeadwordLen(buf, pos) + 9 <= |buf|
    ensures r.Success? ==> r.value.0.id == id && pos + 10 <= r.value.1 <= |buf|
  {
    var l := HeadwordLen(buf, pos);
    var index := Slice(buf, pos, pos + l);
    match ReadUInt32BE(buf, pos + l + 1)
    case Failure(e) => Failure(e)
    case Success(offset) =>
      match ReadUInt32BE(buf, pos + l + 1 + 4)
      case Failure(e) => Failure(e)
      case Success(size) => Success((IndexEntry(id, index, offset, size), pos + l + 1 + 2 * 4))
  }

  /** The record layout: a headword of `l >= 1` bytes at the cursor whose bytes
      after the first are not zero, its zero terminator, the big-endian offset,
      the big-endian size, and the cursor moved on by `l + 9`. */
  lemma RecordLayout(buf: seq<byte>, pos: nat, id: nat)
    requires IdxRecord(buf, pos, id).Success?
    ensures
      var e, next := IdxRecord(buf, pos, id).value.0, IdxRecord(buf, pos, id).value.1;
      var l := next - pos - 9;
      && l >= 1 && next <= |buf|
      && e.index == buf[pos..pos + l]
      && buf[pos + l] == 0
      && (forall k :: pos < k < pos + l ==> buf[k] != 0)
      && WriteU32BE(e.offset) == buf[pos + l + 1..pos + l + 5]
      && WriteU32BE(e.size) == buf[pos + l + 5..pos + l + 9]
  {
    var l := HeadwordLen(buf, pos);
    WriteReadU32BE(buf, pos + l + 1);
    WriteReadU32BE(buf, pos + l + 5);
  }

  /** The entries pushed by passes `i` to `count - 1`, starting at cursor `pos`. */
  function IdxFrom(buf: seq<byte>, count: nat, i: nat, pos: nat): (r: Result<seq<IndexEntry>, Error>)
    requires i <= count
    ensures r.Success? ==> |r.value| == count - i
    ensures r.Success? ==> forall k :: 0 <= k < |r.value| ==> r.value[k].id == i + k
    decreases count - i
  {
    if i == count then Success([])
    else
      match IdxRecord(buf, pos, i)
      case Failure(e) => Failure(e)
      case Success(step) => Prepend([step.0], IdxFrom(buf, count, i + 1, step.1))
  }

  /** What the loop builds for `count` passes: exactly `count` entries with ids
      0 to count - 1 in file order, or the first RangeError. */
  function IdxEntries(buf: seq<byte>, count: nat): (r: Result<seq<IndexEntry>, Error>)
    ensures r.Success? ==> |r.value| == count && forall k :: 0 <= k < count ==> r.value[k].id == k
    ensures count == 0 ==> r == Success([])
  {
    IdxFrom(buf, count, 0, 0)
  }

  /** The cursor loop of `loadIdx`. */
  method ScanIdx(buffer: seq<byte>, wordcount: nat) returns (r: Result<seq<IndexEntry>, Error>)
    ensures r == IdxEntries(buffer, wordcount)
  {
    var pos: nat := 0;
    var entries: seq<IndexEntry> := [];
    PrependNil(IdxFrom(buffer, wordcount, 0, 0));
    for i := 0 to wordcount
      invariant IdxEntries(buffer, wordcount) == Prepend(entries, IdxFrom(buffer, wordcount, i, pos))
    {
      var record := ReadRecord(buffer, pos, i);
      if record.Failure? {
        PrependFailure(entries, record.error);
        return Failure(record.error);
      }
      var (e, next) := record.value;
      PrependPrepend(entries, [e], IdxFrom(buffer, wordcount, i + 1, next));
      entries := entries + [e];
      pos := next;
    }
    IdxFromDone(buffer, wordcount, pos);
    assert entries + [] == entries;
    return Success(entries);
  }

  /** The body of that loop: the headword scan, which starts one byte past the
      cursor, then the two u32 reads, either of which may throw. */
  method ReadRecord(buffer: seq<byte>, pos: nat, i: nat) returns (r: Result<(IndexEntry, nat), Error>)
    ensures r == IdxRecord(buffer, pos, i)
  {
    var run := FindZero(buffer, pos + 1);
    var l := 1 + run;
    assert l == HeadwordLen(buffer, pos);
    var index := Slice(buffer, pos, pos + l);
    var offset := ReadUInt32BE(buffer, pos + l + 1);
    if offset.Failure? {
      return Failure(offset.error);
    }
    var size := ReadUInt32BE(buffer, pos + l + 1 + 4);
    if size.Failure? {
      return Failure(size.error);
    }
    return Success((IndexEntry(i, index, offset.value, size.value), pos + l + 1 + 2 * 4));
  }

  /** A record whose headword length and fields are known. */
  lemma IdxRecordOf(buf: seq<byte>, pos: nat, i: nat, l: nat, offset: u32, size: u32)
    requires l == HeadwordLen(buf, pos)
    requires ReadUInt32BE(buf, pos + l + 1) == Success(offset)
    requires ReadUInt32BE(buf, pos + l + 1 + 4) == Success(size)
    ensures IdxRecord(buf, pos, i) == Success((IndexEntry(i, Slice(buf, pos, pos + l), offset, size), pos + l + 1 + 2 * 4))
  {
  }

  lemma IdxFromDone(buf: seq<byte>, count: nat, pos: nat)
    ensures IdxFrom(buf, count, count, pos) == Success([])
  {
  }

  /** A headword the scan reads back: at least one byte, and no zero byte after
      the first (the first byte is never tested). */
  predicate Readable(word: seq<byte>)
  {
    |word| >= 1 && forall j :: 1 <= j < |word| ==> word[j] != 0
  }

  /** The bytes a StarDict writer emits for one entry. */
  function EncodeRecord(e: IndexEntry): seq<byte>
  {
    e.index + [0] + WriteU32BE(e.offset) + WriteU32BE(e.size)
  }

  function EncodeIdx(es: seq<IndexEntry>): seq<byte>
  {
    if es == [] then [] else EncodeRecord(es[0]) + EncodeIdx(es[1..])
  }

  /** A readable headword followed by its terminator is measured exactly. */
  lemma HeadwordLenOf(buf: seq<byte>, pos: nat, w: seq<byte>)
    requires Readable(w)
    requires pos + |w| < |buf| && buf[pos..pos + |w|] == w && buf[pos + |w|] == 0
    ensures HeadwordLen(buf, pos) == |w|
  {
    forall k | pos + 1 <= k < pos + |w| ensures buf[k] != 0 {
      assert buf[pos..pos + |w|][k - pos] == buf[k];
    }
    ZeroRunIs(buf, pos + 1, |w| - 1);
  }

  /** Where the fields of an encoded record lie once it is in a buffer. */
  lemma RecordFieldsAt(buf: seq<byte>, pos: nat, e: IndexEntry)
    requires pos + |EncodeRecord(e)| <= |buf| && buf[pos..pos + |EncodeRecord(e)|] == EncodeRecord(e)
    ensures var l := |e.index|;
      && |EncodeRecord(e)| == l + 9
      && buf[pos..pos + l] == e.index && buf[pos + l] == 0
      && buf[pos + l + 1..pos + l + 5] == WriteU32BE(e.offset)
      && buf[pos + l + 5..pos + l + 9] == WriteU32BE(e.size)
  {
    var rec := EncodeRecord(e);
    var l := |e.index|;
    assert rec[..l] == e.index && rec[l] == 0;
    assert rec[l + 1..l + 5] == WriteU32BE(e.offset);
    assert rec[l + 5..l + 9] == WriteU32BE(e.size);
    SubSliceAt(buf, pos, rec, 0, l);
    SubSliceAt(buf, pos, rec, l + 1, l + 5);
    SubSliceAt(buf, pos, rec, l + 5, l + 9);
    assert buf[pos..pos + |rec|][l] == buf[pos + l];
  }

  lemma RecordAt(buf: seq<byte>, pos: nat, e: IndexEntry)
    requires Readable(e.index)
    requires pos + |EncodeRecord(e)| <= |buf| && buf[pos..pos + |EncodeRecord(e)|] == EncodeRecord(e)
    ensures IdxRecord(buf, pos, e.id) == Success((e, pos + |EncodeRecord(e)|))
  {
    var l := |e.index|;
    RecordFieldsAt(buf, pos, e);
    HeadwordLenOf(buf, pos, e.index);
    ReadU32BEAt(buf, pos + l + 1, e.offset);
    ReadU32BEAt(buf, pos + l + 5, e.size);
    IdxRecordOf(buf, pos, e.id, l, e.offset, e.size);
  }

  lemma IdxFromStep(buf: seq<byte>, count: nat, i: nat, pos: nat, e: IndexEntry, next: nat)
    requires i < count && IdxRecord(buf, pos, i) == Success((e, next))
    ensures IdxFrom(buf, count, i, pos) == Prepend([e], IdxFrom(buf, count, i + 1, next))
  {
  }

  lemma IdxFromFails(buf: seq<byte>, count: nat, i: nat, pos: nat, e: Error)
    requires i < count && IdxRecord(buf, pos, i) == Failure(e)
    ensures IdxFrom(buf, count, i, pos) == Failure(e)
  {
  }

  /** Entries numbered on from `i`, each with a headword the scan reads back. */
  predicate Numbered(es: seq<IndexEntry>, i: nat)
  {
    forall k :: 0 <= k < |es| ==> es[k].id == i + k && Readable(es[k].index)
  }

  lemma NumberedTail(es: seq<IndexEntry>, i: nat)
    requires es != [] && Numbered(es, i)
    ensures es[0].id == i && Readable(es[0].index) && Numbered(es[1..], i + 1)
  {
    assert forall k :: 0 <= k < |es| - 1 ==> es[1..][k] == es[k + 1];
  }

  /** An encoded index in a buffer is its first record followed by the rest. */
  lemma EncodedSplit(buf: seq<byte>, es: seq<IndexEntry>, pos: nat)
    requires es != []
    requires pos + |EncodeIdx(es)| <= |buf| && buf[pos..pos + |EncodeIdx(es)|] == EncodeIdx(es)
    ensures var n := pos + |EncodeRecord(es[0])|;
      && buf[pos..n] == EncodeRecord(es[0])
      && n + |EncodeIdx(es[1..])| <= |buf| && buf[n..n + |EncodeIdx(es[1..])|] == EncodeIdx(es[1..])
  {
    var all := EncodeIdx(es);
    var rec := EncodeRecord(es[0]);
    assert all == rec + EncodeIdx(es[1..]);
    SubSliceAt(buf, pos, all, 0, |rec|);
    SubSliceAt(buf, pos, all, |rec|, |all|);
    assert all[0..|rec|] == rec;
    assert all[|rec|..|all|] == EncodeIdx(es[1..]);
  }

  lemma {:induction false} IdxFromEncoded(buf: seq<byte>, es: seq<IndexEntry>, count: nat, i: nat, pos: nat)
    requires i + |es| == count
    requires pos + |EncodeIdx(es)| <= |buf| && buf[pos..pos + |EncodeIdx(es)|] == EncodeIdx(es)
    requires Numbered(es, i)
    ensures IdxFrom(buf, count, i, pos) == Success(es)
    decreases |es|
  {
    if es == [] {
      IdxFromDone(buf, count, pos);
    } else {
      var n := pos + |EncodeRecord(es[0])|;
      EncodedSplit(buf, es, pos);
      NumberedTail(es, i);
      IdxFromCons(buf, count, i, pos, es[0], n);
      IdxFromEncoded(buf, es[1..], count, i + 1, n);
      IdxFromJoin(buf, es, count, i, pos, n);
    }
  }

  /** An encoded record at the cursor is the first entry of the rest of the scan. */
  lemma IdxFromCons(buf: seq<byte>, count: nat, i: nat, pos: nat, e: IndexEntry, n: nat)
    requires i < count && e.id == i && Readable(e.index)
    requires n == pos + |EncodeRecord(e)| && n <= |buf| && buf[pos..n] == EncodeRecord(e)
    ensures IdxFrom(buf, count, i, pos) == Prepend([e], IdxFrom(buf, count, i + 1, n))
  {
    RecordAt(buf, pos, e);
    IdxFromStep(buf, count, i, pos, e, n);
  }

  lemma IdxFromJoin(buf: seq<byte>, es: seq<IndexEntry>, count: nat, i: nat, pos: nat, n: nat)
    requires es != [] && i < count
    requires IdxFrom(buf, count, i, pos) == Prepend([es[0]], IdxFrom(buf, count, i + 1, n))
    requires IdxFrom(buf, count, i + 1, n) == Success(es[1..])
    ensures IdxFrom(buf, count, i, pos) == Success(es)
  {
    assert [es[0]] + es[1..] == es;
  }

  /** A buffer that starts with the records of `es` yields exactly `es`. */
  lemma IdxEntriesEncoded(buf: seq<byte>, es: seq<IndexEntry>)
    requires |EncodeIdx(es)| <= |buf| && buf[..|EncodeIdx(es)|] == EncodeIdx(es)
    requires Numbered(es, 0)
    ensures IdxEntries(buf, |es|) == Success(es)
  {
    assert buf[0..|EncodeIdx(es)|] == buf[..|EncodeIdx(es)|];
    IdxFromEncoded(buf, es, |es|, 0, 0);
  }

  /** Round trip: an index written by a StarDict writer, with every headword
      readable, is read back entry for entry, whatever follows it. */
  lemma IdxRoundTrip(es: seq<IndexEntry>, trailer: seq<byte>)
    requires forall k :: 0 <= k < |es| ==> es[k].id == k && Readable(es[k].index)
    ensures IdxEntries(EncodeIdx(es) + trailer, |es|) == Success(es)
  {
    var enc := EncodeIdx(es);
    assert (enc + trailer)[..|enc|] == enc;
    IdxEntriesEncoded(enc + trailer, es);
  }

  /** The untested first byte: a zero there is taken into the headword. So a
      record with an empty headword is misread, its terminator taken for the
      headword and every later field shifted by one byte; a one-entry index
      holding only such a record throws. */
  lemma FirstHeadwordByteNeverTested()
    ensures IdxEntries([0, 0, 0, 0, 0, 1, 0, 0, 0, 2], 1) == Success([IndexEntry(0, [0], 1, 2)])
    ensures IdxEntries([0, 0, 0, 0, 1, 0, 0, 0, 2], 1) == Failure(OutOfRange(6, 9))
  {
    var a: seq<byte> := [0, 0, 0, 0, 0, 1, 0, 0, 0, 2];
    assert HeadwordLen(a, 0) == 1;
    assert a[2..6] == WriteU32BE(1) && a[6..10] == WriteU32BE(2);
    ReadU32BEAt(a, 2, 1);
    ReadU32BEAt(a, 6, 2);
    IdxRecordOf(a, 0, 0, 1, 1, 2);
    assert Slice(a, 0, 1) == [0];
    var e := IndexEntry(0, [0], 1, 2);
    IdxFromStep(a, 1, 0, 0, e, 10);
    IdxFromDone(a, 1, 10);
    assert [e] + [] == [e];
    var b: seq<byte> := [0, 0, 0, 0, 1, 0, 0, 0, 2];
    assert HeadwordLen(b, 0) == 1;
    assert IdxRecord(b, 0, 0) == Failure(OutOfRange(6, 9));
  }
}
