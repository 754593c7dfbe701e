/** `class Dictionary` (lib/dict.js): the three loads that fill `this.ifo`,
    `this.idx` and `this.data` from the text of the `.ifo` file and the bytes of
    the `.idx` and `.dict` files. */
module Dict {
  import opened Wrappers
  import opened Buffers
  import opened JsNumbers
  import opened IfoText
  import opened IdxFormat
  import opened DictData

  /** What `res.k = res.k && parseInt(res.k, 10)` leaves in `res.k`: undefined
      when the key is missing, the empty string when its value is empty (`&&`
      stops there), and otherwise the parsed number. */
  datatype Coerced = Undefined | EmptyString | Number(n: Num)

  function Coerce(m: map<string, string>, k: string): (c: Coerced)
    ensures c.Undefined? <==> k !in m
    ensures c.EmptyString? <==> k in m && m[k] == []
  {
    if k !in m then Undefined
    else if m[k] == [] then EmptyString
    else Number(ParseInt(m[k]))
  }

  /** `this.ifo`: the parsed `.ifo` map, in which the entries `wordcount` and
      `idxfilesize` are replaced by their coerced values. */
  datatype Ifo = Ifo(strings: map<string, string>, wordcount: Coerced, idxfilesize: Coerced)

  /** `loadIfo`: the shared `.ifo` parse, then the two coercions. A key that
      is missing stays undefined (never 0), and, since no parsed value is
      empty, a present key is always `parseInt`-ed. */
  function IfoOf(text: string): (ifo: Ifo)
    ensures ifo.strings == ParseIfo(text)
    ensures ifo.wordcount.Undefined? <==> "wordcount" !in ParseIfo(text)
    ensures ifo.idxfilesize.Undefined? <==> "idxfilesize" !in ParseIfo(text)
    ensures !ifo.wordcount.EmptyString? && !ifo.idxfilesize.EmptyString?
  {
    var m := ParseIfo(text);
    Ifo(m, Coerce(m, "wordcount"), Coerce(m, "idxfilesize"))
  }

  /** A `wordcount` written in decimal is read back as that number. */
  lemma WordcountDecimal(text: string, n: nat)
    requires "wordcount" in ParseIfo(text) && ParseIfo(text)["wordcount"] == Decimal(n)
    ensures IfoOf(text).wordcount == Number(Int(n))
  {
    ParseIntOfDecimal(n);
  }

  /** The number of passes of `for (let i = 0; i < wordcount; i += 1)`: a
      comparison with undefined or NaN is false, and `""` compares as 0. */
  function Bound(c: Coerced): (t: nat)
    ensures c.Undefined? || c.EmptyString? || c == Number(NaN) ==> t == 0
    ensures c.Number? ==> t == Trips(c.n)
  {
    if c.Number? then Trips(c.n) else 0
  }

  /** `buffer.length !== filesize`: true unless `filesize` is that very number. */
  predicate SizeMismatch(length: nat, filesize: Coerced)
    ensures filesize.Undefined? || filesize.EmptyString? || filesize == Number(NaN) ==> SizeMismatch(length, filesize)
    ensures filesize == Number(Int(length)) ==> !SizeMismatch(length, filesize)
  {
    filesize != Number(Int(length))
  }

  /** `this.ifo.sametypesequence`, undefined when the key is missing. */
  function SameTypeSequence(ifo: Ifo): (r: Option<string>)
    ensures r.Some? <==> "sametypesequence" in ifo.strings
  {
    if "sametypesequence" in ifo.strings then Some(ifo.strings["sametypesequence"]) else None
  }

  /** An element of `this.data`: the index entry and the chunks of its payload. */
  datatype DataRecord = DataRecord(entry: IndexEntry, dat: seq<Chunk>)

  /** The payload of `o`: `dt.slice(o.offset, o.offset + o.size)`. */
  function Payload(dt: seq<byte>, o: IndexEntry): (p: seq<byte>)
    ensures o.offset + o.size <= |dt| ==> p == dt[o.offset..o.offset + o.size]
    ensures o.offset <= |dt| <= o.offset + o.size ==> p == dt[o.offset..]
    ensures o.offset >= |dt| ==> p == []
  {
    Slice(dt, o.offset, o.offset + o.size)
  }

  /** The outcome of `parseDictData` on the payload of every entry. */
  function ParsedPayloads(dt: seq<byte>, idx: seq<IndexEntry>, types: Option<string>): (ps: seq<Result<seq<Chunk>, Error>>)
    ensures |ps| == |idx|
    ensures forall j :: 0 <= j < |idx| ==> ps[j] == Chunks(Payload(dt, idx[j]), types)
  {
    seq(|idx|, j requires 0 <= j < |idx| => Chunks(Payload(dt, idx[j]), types))
  }

  /** The records `_.map` builds for `idx[k..]` from the parsed payloads `ps`,
      or the first error thrown. */
  function RecordsFrom(idx: seq<IndexEntry>, ps: seq<Result<seq<Chunk>, Error>>, k: nat): (r: Result<seq<DataRecord>, Error>)
    requires |ps| == |idx| && k <= |idx|
    ensures r.Success? ==> |r.value| == |idx| - k
    decreases |idx| - k
  {
    if k == |idx| then Success([])
    else
      match ps[k]
      case Failure(e) => Failure(e)
      case Success(dat) => Prepend([DataRecord(idx[k], dat)], RecordsFrom(idx, ps, k + 1))
  }

  /** `loadDict`: the records of all entries, or the first error a payload
      throws. */
  function DictRecords(dt: seq<byte>, idx: seq<IndexEntry>, types: Option<string>): (r: Result<seq<DataRecord>, Error>)
    ensures r.Success? ==> |r.value| == |idx|
  {
    RecordsFrom(idx, ParsedPayloads(dt, idx, types), 0)
  }

  lemma {:induction false} RecordsFromShape(idx: seq<IndexEntry>, ps: seq<Result<seq<Chunk>, Error>>, k: nat)
    requires |ps| == |idx| && k <= |idx| && RecordsFrom(idx, ps, k).Success?
    ensures var ds := RecordsFrom(idx, ps, k).value;
      && |ds| == |idx| - k
      && forall j :: 0 <= j < |ds| ==> ds[j].entry == idx[k + j] && ps[k + j] == Success(ds[j].dat)
    decreases |idx| - k
  {
    if k < |idx| {
      RecordsFromShape(idx, ps, k + 1);
    }
  }

  lemma {:induction false} RecordsFromFails(idx: seq<IndexEntry>, ps: seq<Result<seq<Chunk>, Error>>, k: nat)
    requires |ps| == |idx| && k <= |idx|
    ensures RecordsFrom(idx, ps, k).Failure? <==> exists j :: k <= j < |idx| && ps[j].Failure?
    decreases |idx| - k
  {
    if k < |idx| {
      RecordsFromFails(idx, ps, k + 1);
    }
  }

  /** One record per index entry, in index order, each holding the chunks of
      that entry's payload; and the load fails exactly when some payload
      throws. */
  lemma DictRecordsShape(dt: seq<byte>, idx: seq<IndexEntry>, types: Option<string>)
    ensures DictRecords(dt, idx, types).Failure? <==>
      exists j :: 0 <= j < |idx| && Chunks(Payload(dt, idx[j]), types).Failure?
    ensures DictRecords(dt, idx, types).Success? ==>
      var ds := DictRecords(dt, idx, types).value;
      && |ds| == |idx|
      && forall j :: 0 <= j < |ds| ==> ds[j].entry == idx[j] && Chunks(Payload(dt, idx[j]), types) == Success(ds[j].dat)
  {
    var ps := ParsedPayloads(dt, idx, types);
    RecordsFromFails(idx, ps, 0);
    if RecordsFrom(idx, ps, 0).Success? {
      RecordsFromShape(idx, ps, 0);
    }
  }

  /** With a `sametypesequence` set, loading the payloads never throws. */
  lemma DeclaredRecordsTotal(dt: seq<byte>, idx: seq<IndexEntry>, t: string)
    requires t != []
    ensures DictRecords(dt, idx, Some(t)).Success?
  {
    forall j | 0 <= j < |idx| ensures Chunks(Payload(dt, idx[j]), Some(t)).Success? {
      DeclaredTotal(Payload(dt, idx[j]), t);
    }
    DictRecordsShape(dt, idx, Some(t));
  }

  class Dictionary {
    var ifo: Ifo
    var idx: seq<IndexEntry>
    var data: seq<DataRecord>

    /** The object before any load has run. */
    constructor ()
      ensures ifo == Ifo(map[], Undefined, Undefined) && idx == [] && data == []
    {
      ifo := Ifo(map[], Undefined, Undefined);
      idx := [];
      data := [];
    }

    /** `loadIfo(ifoFile)`, given the file's text. */
    method LoadIfo(text: string)
      modifies this
      ensures ifo == IfoOf(text)
      ensures idx == old(idx) && data == old(data)
    {
      var res := ParseIfo(text);
      var wordcount := Coerce(res, "wordcount");
      var idxfilesize := Coerce(res, "idxfilesize");
      ifo := Ifo(res, wordcount, idxfilesize);
    }

    /** `loadIdx(idxFile)`, given the file's bytes. `mismatch` says whether the
        size warning is printed; it has no effect on the entries. A RangeError
        leaves `this.idx` as it was. */
    method LoadIdx(buffer: seq<byte>) returns (mismatch: bool, err: Option<Error>)
      modifies this
      ensures mismatch <==> SizeMismatch(|buffer|, ifo.idxfilesize)
      ensures ifo == old(ifo) && data == old(data)
      ensures var r := IdxEntries(buffer, Bound(ifo.wordcount));
        && (r.Success? ==> err == None && idx == r.value)
        && (r.Failure? ==> err == Some(r.error) && idx == old(idx))
    {
      mismatch := SizeMismatch(|buffer|, ifo.idxfilesize);
      var entries := ScanIdx(buffer, Bound(ifo.wordcount));
      if entries.Failure? {
        return mismatch, Some(entries.error);
      }
      idx := entries.value;
      err := None;
    }

    /** `loadDict(dictFile)`, given the file's bytes. An error thrown by a
        payload leaves `this.data` as it was. */
    method LoadDict(dt: seq<byte>) returns (err: Option<Error>)
      modifies this
      ensures ifo == old(ifo) && idx == old(idx)
      ensures var r := DictRecords(dt, idx, SameTypeSequence(ifo));
        && (r.Success? ==> err == None && data == r.value)
        && (r.Failure? ==> err == Some(r.error) && data == old(data))
    {
      var entries := idx;
      var types := SameTypeSequence(ifo);
      ghost var ps := ParsedPayloads(dt, entries, types);
      var records: seq<DataRecord> := [];
      PrependNil(RecordsFrom(entries, ps, 0));
      for k := 0 to |entries|
        invariant ifo == old(ifo) && idx == old(idx) && data == old(data)
        invariant DictRecords(dt, entries, types) == Prepend(records, RecordsFrom(entries, ps, k))
      {
        var o := entries[k];
        var dat := ParseDictData(Payload(dt, o), types);
        assert dat == ps[k];
        if dat.Failure? {
          PrependFailure(records, dat.error);
          return Some(dat.error);
        }
        PrependPrepend(records, [DataRecord(o, dat.value)], RecordsFrom(entries, ps, k + 1));
        records := records + [DataRecord(o, dat.value)];
      }
      assert records + [] == records;
      data := records;
      err := None;
    }
  }

  /** `new Dictionary(ifoFile, idxFile, dictFile)` without a resource file: the
      three loads in order; an error thrown by a load is thrown by `new`. */
  method Open(ifoText: string, idxBuffer: seq<byte>, dictBuffer: seq<byte>) returns (r: Result<Dictionary, Error>, mismatch: bool)
    ensures mismatch <==> SizeMismatch(|idxBuffer|, IfoOf(ifoText).idxfilesize)
    ensures var ifo := IfoOf(ifoText);
      match IdxEntries(idxBuffer, Bound(ifo.wordcount))
      case Failure(e) => r == Failure(e)
      case Success(es) =>
        match DictRecords(dictBuffer, es, SameTypeSequence(ifo))
        case Failure(e) => r == Failure(e)
        case Success(ds) =>
          && r.Success? && fresh(r.value)
          && r.value.ifo == ifo && r.value.idx == es && r.value.data == ds
  {
    var d := new Dictionary();
    d.LoadIfo(ifoText);
    var err;
    mismatch, err := d.LoadIdx(idxBuffer);
    if err.Some? {
      return Failure(err.value), mismatch;
    }
    err := d.LoadDict(dictBuffer);
    if err.Some? {
      return Failure(err.value), mismatch;
    }
    return Success(d), mismatch;
  }

  /** A missing `wordcount` gives an empty index and no error. */
  lemma MissingWordcount(text: string, buffer: seq<byte>)
    requires "wordcount" !in ParseIfo(text)
    ensures IdxEntries(buffer, Bound(IfoOf(text).wordcount)) == Success([])
  {
  }
}
