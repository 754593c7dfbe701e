/** `convertDictData` and `parseDictData` (lib/dict.js): cutting the payload of
    one index entry into typed chunks, either with a type byte in front of every
    chunk or with the `sametypesequence` declared in the `.ifo` file. */
module DictData {
  import opened Wrappers
  import opened Buffers

  const MediaText: string := "dictconv: Media file is not supported."
  const ResourceText: string := "dictconv: Resource file is not supported."

  /** The media types: wav sound, picture, and other media data. */
  predicate IsMedia(t: string)
    ensures IsMedia(t) <==> t == "W" || t == "P" || t == "X"
  {
    |t| == 1 && (t[0] == 'W' || t[0] == 'P' || t[0] == 'X')
  }

  /** The resource type `r`. */
  predicate IsResource(t: string)
    ensures IsResource(t) <==> t == "r"
  {
    |t| == 1 && t[0] == 'r'
  }

  /** The HTML type `h`. */
  predicate IsHtml(t: string)
    ensures IsHtml(t) <==> t == "h"
  {
    |t| == 1 && t[0] == 'h'
  }

  /** A chunk's text. `Buffer.toString()` (UTF-8 decoding) and `html2text` are
      not modelled: the text records the bytes and which of the two is applied. */
  datatype Text =
    | Decoded(raw: seq<byte>)
    | HtmlToText(raw: seq<byte>)
    | Placeholder(message: string)

  /** A `{ type, text }` object pushed by `parseDictData`. */
  datatype Chunk = Chunk(tag: string, text: Text)

  /** `convertDictData(buffer, type)`: HTML is turned into plain text; every other
      type, the legacy ones included, is only decoded. */
  function ConvertDictData(buf: seq<byte>, tag: string): (r: Text)
    ensures !r.Placeholder? && r.raw == buf
    ensures r.HtmlToText? <==> tag == "h"
  {
    if IsHtml(tag) then HtmlToText(buf) else Decoded(buf)
  }

  /** The text a non-media chunk of type `t` with body `body` gets. */
  function BodyText(t: string, body: seq<byte>): Text
  {
    if IsResource(t) then Placeholder(ResourceText) else ConvertDictData(body, t)
  }

  predicate ZeroFree(s: seq<byte>)
  {
    forall k :: 0 <= k < |s| ==> s[k] != 0
  }

  /** A chunk's text is a fixed placeholder, or comes from a contiguous run of
      `buf` holding no zero byte. */
  ghost predicate CutFrom(c: Chunk, buf: seq<byte>)
  {
    c.text.Placeholder? || (SliceOf(c.text.raw, buf) && ZeroFree(c.text.raw))
  }

  /** The body starting at `p`: the bytes up to the next zero byte or the end. */
  lemma BodyCut(buf: seq<byte>, p: nat)
    requires p <= |buf|
    ensures var body := Slice(buf, p, p + ZeroRun(buf, p));
      body == buf[p..p + ZeroRun(buf, p)] && SliceOf(body, buf) && ZeroFree(body)
  {
    var body := buf[p..p + ZeroRun(buf, p)];
    forall k | 0 <= k < |body| ensures body[k] != 0 {
      assert body[k] == buf[p + k];
    }
    SliceWithin(buf, p, p + ZeroRun(buf, p));
  }

  /** A text or resource chunk of type `t` whose body starts at `p`: the body
      runs to the next zero byte or the end of the buffer, and the cursor moves
      one past it. Both modes read these chunks alike. */
  function TextStep(buf: seq<byte>, t: string, p: nat): (r: (Chunk, nat))
    ensures r.0.tag == t && r.1 > p
  {
    var l := ZeroRun(buf, p);
    (Chunk(t, BodyText(t, Slice(buf, p, p + l))), p + l + 1)
  }

  // ---------------------------------------------------------------------------
  // Self-describing records: no `sametypesequence`.

  /** One pass of the `while (pos < buffer.length)` loop at cursor `pos`: the
      chunk pushed and the next cursor, or the RangeError of the media length
      read. A media chunk moves the cursor by `4 + l` and then again by `l + 1`. */
  function SelfStep(buf: seq<byte>, pos: nat): (r: Result<(Chunk, nat), Error>)
    requires pos < |buf|
    ensures r.Failure? <==> IsMedia([TagChar(buf[pos])]) && pos + 5 > |buf|
    ensures r.Success? ==> r.value.0.tag == [TagChar(buf[pos])] && r.value.1 > pos
  {
    var tag := [TagChar(buf[pos])];
    var p := pos + 1;
    if IsMedia(tag) then
      match ReadUInt32BE(buf, p)
      case Failure(e) => Failure(e)
      case Success(l) => Success((Chunk(tag, Placeholder(MediaText)), p + 4 + l + l + 1))
    else Success(TextStep(buf, tag, p))
  }

  /** The chunks pushed from cursor `pos` on: one per tag byte read, each tagged
      with that byte as a one-character ASCII string. */
  function SelfChunks(buf: seq<byte>, pos: nat): (r: Result<seq<Chunk>, Error>)
    ensures r.Success? ==> forall i :: 0 <= i < |r.value| ==>
      |r.value[i].tag| == 1 && r.value[i].tag[0] as int < 0x80
    ensures pos >= |buf| ==> r == Success([])
    decreases |buf| - pos
  {
    if pos >= |buf| then Success([])
    else
      match SelfStep(buf, pos)
      case Failure(e) => Failure(e)
      case Success(step) => Prepend([step.0], SelfChunks(buf, step.1))
  }

  // ---------------------------------------------------------------------------
  // Declared records: `sametypesequence` is set.

  /** One pass of the inner `while (pos < buffer.length)` loop for type `t`;
      `more` says whether the type is not the last of the split sequence. A media
      type that is last discards the rest of the buffer. */
  function DeclaredStep(buf: seq<byte>, t: string, more: bool, pos: nat): (r: Result<(Chunk, nat), Error>)
    requires pos < |buf|
    ensures r.Failure? <==> IsMedia(t) && more && pos + 4 > |buf|
    ensures r.Success? ==> r.value.0.tag == t && r.value.1 > pos
    ensures r.Success? && IsMedia(t) && !more ==> r.value.1 > |buf|
  {
    if IsMedia(t) then
      if more then
        match ReadUInt32BE(buf, pos)
        case Failure(e) => Failure(e)
        case Success(l) => Success((Chunk(t, Placeholder(MediaText)), pos + 4 + l + l + 1))
      else Success((Chunk(t, Placeholder(MediaText)), |buf| + 1))
    else Success(TextStep(buf, t, pos))
  }

  /** The chunks the inner loop pushes for type `t` from cursor `pos` on, all
      tagged with `t`. */
  function DeclaredRun(buf: seq<byte>, t: string, more: bool, pos: nat): (r: Result<seq<Chunk>, Error>)
    ensures r.Success? ==> forall i :: 0 <= i < |r.value| ==> r.value[i].tag == t
    ensures pos >= |buf| ==> r == Success([])
    decreases |buf| - pos
  {
    if pos >= |buf| then Success([])
    else
      match DeclaredStep(buf, t, more, pos)
      case Failure(e) => Failure(e)
      case Success(step) => Prepend([step.0], DeclaredRun(buf, t, more, step.1))
  }

  /** The outer `for` loop over the split type sequence `tps`: the first type's
      inner loop runs the cursor to the end of the buffer, so the later types
      push nothing. */
  function DeclaredChunks(buf: seq<byte>, tps: seq<string>): (r: Result<seq<Chunk>, Error>)
    ensures tps == [] ==> r == Success([])
    ensures r.Success? ==> forall i :: 0 <= i < |r.value| ==> r.value[i].tag == tps[0]
  {
    if tps == [] then Success([]) else DeclaredRun(buf, tps[0], |tps| > 1, 0)
  }

  /** What `parseDictData(buffer, types)` returns or throws. `types` is the
      `.ifo` value `sametypesequence`, absent when the key is missing; the
      self-describing form is used when it is absent or empty, and otherwise
      `types.split()`, which has no separator, yields `[types]`. */
  function Chunks(buf: seq<byte>, types: Option<string>): (r: Result<seq<Chunk>, Error>)
    ensures r.Success? && (types.None? || types.value == []) ==>
      forall i :: 0 <= i < |r.value| ==> |r.value[i].tag| == 1
    ensures r.Success? && types.Some? && types.value != [] ==>
      forall i :: 0 <= i < |r.value| ==> r.value[i].tag == types.value
  {
    if types.None? || types.value == [] then SelfChunks(buf, 0)
    else DeclaredChunks(buf, [types.value])
  }

  // ---------------------------------------------------------------------------
  // Every chunk body is a zero-free run of the buffer.

  lemma TextStepCut(buf: seq<byte>, t: string, p: nat)
    requires p <= |buf|
    ensures CutFrom(TextStep(buf, t, p).0, buf)
  {
    BodyCut(buf, p);
  }

  lemma SelfStepCut(buf: seq<byte>, pos: nat)
    requires pos < |buf| && SelfStep(buf, pos).Success?
    ensures CutFrom(SelfStep(buf, pos).value.0, buf)
  {
    var tag := [TagChar(buf[pos])];
    if !IsMedia(tag) {
      SelfText(buf, pos);
      TextStepCut(buf, tag, pos + 1);
    }
  }

  lemma {:induction false} SelfChunksCut(buf: seq<byte>, pos: nat)
    ensures var r := SelfChunks(buf, pos);
      r.Success? ==> forall i :: 0 <= i < |r.value| ==> CutFrom(r.value[i], buf)
    decreases |buf| - pos
  {
    if pos < |buf| && SelfStep(buf, pos).Success? {
      SelfStepCut(buf, pos);
      SelfChunksCut(buf, SelfStep(buf, pos).value.1);
    }
  }

  lemma DeclaredStepCut(buf: seq<byte>, t: string, more: bool, pos: nat)
    requires pos < |buf| && DeclaredStep(buf, t, more, pos).Success?
    ensures CutFrom(DeclaredStep(buf, t, more, pos).value.0, buf)
  {
    if !IsMedia(t) {
      DeclaredText(buf, t, more, pos);
      TextStepCut(buf, t, pos);
    }
  }

  lemma {:induction false} DeclaredRunCut(buf: seq<byte>, t: string, more: bool, pos: nat)
    ensures var r := DeclaredRun(buf, t, more, pos);
      r.Success? ==> forall i :: 0 <= i < |r.value| ==> CutFrom(r.value[i], buf)
    decreases |buf| - pos
  {
    if pos < |buf| && DeclaredStep(buf, t, more, pos).Success? {
      DeclaredStepCut(buf, t, more, pos);
      DeclaredRunCut(buf, t, more, DeclaredStep(buf, t, more, pos).value.1);
    }
  }

  /** Whatever the type sequence, every chunk text `parseDictData` returns is a
      placeholder or a zero-free run of bytes of the buffer. */
  lemma ChunksCut(buf: seq<byte>, types: Option<string>)
    ensures var r := Chunks(buf, types);
      r.Success? ==> forall i :: 0 <= i < |r.value| ==> CutFrom(r.value[i], buf)
  {
    if types.None? || types.value == [] {
      SelfChunksCut(buf, 0);
    } else {
      DeclaredRunCut(buf, types.value, false, 0);
      assert Chunks(buf, types) == DeclaredRun(buf, types.value, false, 0);
    }
  }

  // ---------------------------------------------------------------------------
  // Unfolding one step.

  /** A self-describing step at a non-media tag. */
  lemma SelfText(buf: seq<byte>, pos: nat)
    requires pos < |buf| && !IsMedia([TagChar(buf[pos])])
    ensures SelfStep(buf, pos) == Success(TextStep(buf, [TagChar(buf[pos])], pos + 1))
  {
  }

  lemma SelfChunksStep(buf: seq<byte>, pos: nat, c: Chunk, next: nat)
    requires pos < |buf| && SelfStep(buf, pos) == Success((c, next))
    ensures SelfChunks(buf, pos) == Prepend([c], SelfChunks(buf, next))
  {
  }

  lemma DeclaredRunStep(buf: seq<byte>, t: string, more: bool, pos: nat, c: Chunk, next: nat)
    requires pos < |buf| && DeclaredStep(buf, t, more, pos) == Success((c, next))
    ensures DeclaredRun(buf, t, more, pos) == Prepend([c], DeclaredRun(buf, t, more, next))
  {
  }

  /** A zero-free body followed by a zero byte is cut exactly. */
  lemma BodyAt(buf: seq<byte>, p: nat, body: seq<byte>)
    requires ZeroFree(body)
    requires p + |body| + 1 <= |buf| && buf[p..p + |body| + 1] == body + [0]
    ensures ZeroRun(buf, p) == |body| && Slice(buf, p, p + |body|) == body
  {
    SplitAt(buf, p, body, [0]);
    assert buf[p + |body|..p + |body| + 1][0] == buf[p + |body|];
    forall k | p <= k < p + |body| ensures buf[k] != 0 {
      assert buf[p..p + |body|][k - p] == buf[k];
    }
    ZeroRunIs(buf, p, |body|);
  }

  lemma TextStepAt(buf: seq<byte>, t: string, p: nat, body: seq<byte>)
    requires ZeroFree(body)
    requires p + |body| + 1 <= |buf| && buf[p..p + |body| + 1] == body + [0]
    ensures TextStep(buf, t, p) == (Chunk(t, BodyText(t, body)), p + |body| + 1)
  {
    BodyAt(buf, p, body);
  }

  // ---------------------------------------------------------------------------
  // Self-describing round trip.

  /** A field of a self-describing record: its type byte and its body. */
  datatype Field = Field(tag: byte, body: seq<byte>)

  /** A field a writer ends with a zero byte: its type is not a media type and
      its body holds no zero byte. */
  predicate Terminated(f: Field)
  {
    !IsMedia([TagChar(f.tag)]) && ZeroFree(f.body)
  }

  predicate AllTerminated(fs: seq<Field>)
  {
    forall k :: 0 <= k < |fs| ==> Terminated(fs[k])
  }

  lemma TerminatedTail(fs: seq<Field>)
    requires fs != [] && AllTerminated(fs)
    ensures Terminated(fs[0]) && AllTerminated(fs[1..])
  {
    assert forall k :: 0 <= k < |fs| - 1 ==> fs[1..][k] == fs[k + 1];
  }

  /** The bytes a StarDict writer emits for a field without `sametypesequence`. */
  function EncodeField(f: Field): seq<byte>
  {
    [f.tag] + (f.body + [0])
  }

  function EncodeSelf(fs: seq<Field>): seq<byte>
  {
    if fs == [] then [] else EncodeField(fs[0]) + EncodeSelf(fs[1..])
  }

  /** The chunk a field should be read back as. */
  function FieldChunk(f: Field): Chunk
  {
    var t := [TagChar(f.tag)];
    Chunk(t, BodyText(t, f.body))
  }

  function FieldChunks(fs: seq<Field>): (r: seq<Chunk>)
    ensures |r| == |fs|
  {
    if fs == [] then [] else [FieldChunk(fs[0])] + FieldChunks(fs[1..])
  }

  lemma FieldChunksCons(fs: seq<Field>)
    requires fs != []
    ensures FieldChunks(fs) == [FieldChunk(fs[0])] + FieldChunks(fs[1..])
  {
  }

  lemma SelfStepAt(buf: seq<byte>, pos: nat, f: Field)
    requires Terminated(f)
    requires pos + |EncodeField(f)| <= |buf| && buf[pos..pos + |EncodeField(f)|] == EncodeField(f)
    ensures SelfStep(buf, pos) == Success((FieldChunk(f), pos + |EncodeField(f)|))
  {
    SplitAt(buf, pos, [f.tag], f.body + [0]);
    assert buf[pos..pos + 1][0] == buf[pos];
    TextStepAt(buf, [TagChar(f.tag)], pos + 1, f.body);
    SelfText(buf, pos);
  }

  /** An encoded record in a buffer is its first field followed by the rest. */
  lemma EncodedSelfSplit(buf: seq<byte>, fs: seq<Field>, pos: nat, n: nat)
    requires fs != []
    requires pos <= |buf| && buf[pos..] == EncodeSelf(fs)
    requires n == pos + |EncodeField(fs[0])|
    ensures n <= |buf| && buf[pos..n] == EncodeField(fs[0]) && buf[n..] == EncodeSelf(fs[1..])
  {
    var x, y := EncodeField(fs[0]), EncodeSelf(fs[1..]);
    assert buf[pos..] == x + y;
    assert buf[pos..pos + |x| + |y|] == buf[pos..];
    SplitAt(buf, pos, x, y);
    assert buf[pos + |x|..] == buf[pos + |x|..pos + |x| + |y|];
  }

  /** The first field of an encoded record is read as its chunk. */
  lemma SelfChunksCons(buf: seq<byte>, f: Field, pos: nat, n: nat)
    requires Terminated(f)
    requires pos <= n <= |buf| && buf[pos..n] == EncodeField(f)
    ensures SelfChunks(buf, pos) == Prepend([FieldChunk(f)], SelfChunks(buf, n))
  {
    SelfStepAt(buf, pos, f);
    SelfChunksStep(buf, pos, FieldChunk(f), n);
  }

  lemma {:induction false} SelfChunksEncoded(buf: seq<byte>, fs: seq<Field>, pos: nat)
    requires pos <= |buf| && buf[pos..] == EncodeSelf(fs)
    requires AllTerminated(fs)
    ensures SelfChunks(buf, pos) == Success(FieldChunks(fs))
    decreases |fs|
  {
    if fs == [] {
      SelfChunksEnd(buf, pos);
    } else {
      var n := pos + |EncodeField(fs[0])|;
      EncodedSelfSplit(buf, fs, pos, n);
      TerminatedTail(fs);
      SelfChunksCons(buf, fs[0], pos, n);
      SelfChunksEncoded(buf, fs[1..], n);
      SelfChunksJoin(buf, fs, pos, n);
    }
  }

  lemma SelfChunksEnd(buf: seq<byte>, pos: nat)
    requires pos <= |buf| && buf[pos..] == []
    ensures SelfChunks(buf, pos) == Success([])
  {
    assert |buf[pos..]| == 0;
  }

  lemma SelfChunksJoin(buf: seq<byte>, fs: seq<Field>, pos: nat, n: nat)
    requires fs != []
    requires SelfChunks(buf, pos) == Prepend([FieldChunk(fs[0])], SelfChunks(buf, n))
    requires SelfChunks(buf, n) == Success(FieldChunks(fs[1..]))
    ensures SelfChunks(buf, pos) == Success(FieldChunks(fs))
  {
    FieldChunksCons(fs);
  }

  /** Round trip without `sametypesequence`: fields written by a StarDict writer,
      none of a media type, are read back chunk for chunk, whether the `.ifo`
      key is absent or empty. */
  lemma SelfRoundTrip(fs: seq<Field>)
    requires forall k :: 0 <= k < |fs| ==> Terminated(fs[k])
    ensures Chunks(EncodeSelf(fs), None) == Success(FieldChunks(fs))
    ensures Chunks(EncodeSelf(fs), Some("")) == Success(FieldChunks(fs))
  {
    var buf := EncodeSelf(fs);
    assert buf[0..] == buf;
    SelfChunksEncoded(buf, fs, 0);
  }

  /** A media tag reads its length at the cursor and moves past the payload
      twice: `pos + 1 + 4 + l` and then `l + 1` more. */
  lemma SelfMediaAdvance(buf: seq<byte>, pos: nat)
    requires pos + 5 <= |buf| && IsMedia([TagChar(buf[pos])])
    ensures var l := ReadU32BE(buf, pos + 1);
      SelfStep(buf, pos) == Success((Chunk([TagChar(buf[pos])], Placeholder(MediaText)), pos + 1 + 4 + 2 * l + 1))
  {
  }

  // ---------------------------------------------------------------------------
  // Declared round trip.

  predicate AllZeroFree(bodies: seq<seq<byte>>)
  {
    forall k :: 0 <= k < |bodies| ==> ZeroFree(bodies[k])
  }

  lemma ZeroFreeTail(bodies: seq<seq<byte>>)
    requires bodies != [] && AllZeroFree(bodies)
    ensures ZeroFree(bodies[0]) && AllZeroFree(bodies[1..])
  {
    assert forall k :: 0 <= k < |bodies| - 1 ==> bodies[1..][k] == bodies[k + 1];
  }

  /** The bytes a writer emits for bodies of a declared non-media type: each
      body ended by a zero byte. */
  function EncodeDeclared(bodies: seq<seq<byte>>): seq<byte>
  {
    if bodies == [] then [] else bodies[0] + [0] + EncodeDeclared(bodies[1..])
  }

  /** The chunks the bodies should be read back as. */
  function BodyChunks(t: string, bodies: seq<seq<byte>>): (r: seq<Chunk>)
    ensures |r| == |bodies|
  {
    if bodies == [] then [] else [Chunk(t, BodyText(t, bodies[0]))] + BodyChunks(t, bodies[1..])
  }

  lemma DeclaredStepAt(buf: seq<byte>, t: string, more: bool, pos: nat, body: seq<byte>)
    requires !IsMedia(t) && ZeroFree(body)
    requires pos + |body| + 1 <= |buf| && buf[pos..pos + |body| + 1] == body + [0]
    ensures DeclaredStep(buf, t, more, pos) == Success((Chunk(t, BodyText(t, body)), pos + |body| + 1))
  {
    TextStepAt(buf, t, pos, body);
    DeclaredText(buf, t, more, pos);
  }

  /** An encoded run in a buffer is its first body and zero byte followed by the
      rest. */
  lemma EncodedDeclaredSplit(buf: seq<byte>, bodies: seq<seq<byte>>, pos: nat, n: nat)
    requires bodies != []
    requires pos <= |buf| && buf[pos..] == EncodeDeclared(bodies)
    requires n == pos + |bodies[0]| + 1
    ensures n <= |buf| && buf[pos..n] == bodies[0] + [0] && buf[n..] == EncodeDeclared(bodies[1..])
  {
    var x, y := bodies[0] + [0], EncodeDeclared(bodies[1..]);
    assert buf[pos..] == x + y;
    assert buf[pos..pos + |x| + |y|] == buf[pos..];
    SplitAt(buf, pos, x, y);
    assert buf[pos + |x|..] == buf[pos + |x|..pos + |x| + |y|];
  }

  /** The first body of an encoded run is read as its chunk. */
  lemma DeclaredRunCons(buf: seq<byte>, t: string, more: bool, body: seq<byte>, pos: nat, n: nat)
    requires !IsMedia(t) && ZeroFree(body)
    requires pos <= n <= |buf| && n == pos + |body| + 1 && buf[pos..n] == body + [0]
    ensures DeclaredRun(buf, t, more, pos) == Prepend([Chunk(t, BodyText(t, body))], DeclaredRun(buf, t, more, n))
  {
    DeclaredStepAt(buf, t, more, pos, body);
    DeclaredRunStep(buf, t, more, pos, Chunk(t, BodyText(t, body)), n);
  }

  lemma {:induction false} DeclaredRunEncoded(buf: seq<byte>, t: string, more: bool, bodies: seq<seq<byte>>, pos: nat)
    requires !IsMedia(t) && AllZeroFree(bodies)
    requires pos <= |buf| && buf[pos..] == EncodeDeclared(bodies)
    ensures DeclaredRun(buf, t, more, pos) == Success(BodyChunks(t, bodies))
    decreases |bodies|
  {
    if bodies == [] {
      DeclaredRunEnd(buf, t, more, pos);
    } else {
      var n := pos + |bodies[0]| + 1;
      EncodedDeclaredSplit(buf, bodies, pos, n);
      ZeroFreeTail(bodies);
      DeclaredRunCons(buf, t, more, bodies[0], pos, n);
      DeclaredRunEncoded(buf, t, more, bodies[1..], n);
      DeclaredRunJoin(buf, t, more, bodies, pos, n);
    }
  }

  lemma DeclaredRunEnd(buf: seq<byte>, t: string, more: bool, pos: nat)
    requires pos <= |buf| && buf[pos..] == []
    ensures DeclaredRun(buf, t, more, pos) == Success([])
  {
    assert |buf[pos..]| == 0;
  }

  lemma DeclaredRunJoin(buf: seq<byte>, t: string, more: bool, bodies: seq<seq<byte>>, pos: nat, n: nat)
    requires bodies != []
    requires DeclaredRun(buf, t, more, pos) == Prepend([Chunk(t, BodyText(t, bodies[0]))], DeclaredRun(buf, t, more, n))
    requires DeclaredRun(buf, t, more, n) == Success(BodyChunks(t, bodies[1..]))
    ensures DeclaredRun(buf, t, more, pos) == Success(BodyChunks(t, bodies))
  {
    assert BodyChunks(t, bodies) == [Chunk(t, BodyText(t, bodies[0]))] + BodyChunks(t, bodies[1..]);
  }

  /** Round trip with a declared non-media `sametypesequence` `t`: zero-free
      bodies, each ended by a zero byte, are read back one chunk per body, each
      tagged with the whole string `t`. */
  lemma DeclaredRoundTrip(t: string, bodies: seq<seq<byte>>)
    requires t != [] && !IsMedia(t)
    requires forall k :: 0 <= k < |bodies| ==> ZeroFree(bodies[k])
    ensures Chunks(EncodeDeclared(bodies), Some(t)) == Success(BodyChunks(t, bodies))
  {
    var buf := EncodeDeclared(bodies);
    assert buf[0..] == buf;
    DeclaredRunEncoded(buf, t, false, bodies, 0);
  }

  /** A last body without its zero byte is still one chunk covering the rest of
      the slice. */
  lemma DeclaredUnterminated(t: string, body: seq<byte>)
    requires t != [] && !IsMedia(t)
    requires body != [] && ZeroFree(body)
    ensures Chunks(body, Some(t)) == Success([Chunk(t, BodyText(t, body))])
  {
    var c := Chunk(t, BodyText(t, body));
    ZeroRunIs(body, 0, |body|);
    assert Slice(body, 0, |body|) == body[0..|body|] == body;
    DeclaredText(body, t, false, 0);
    DeclaredRunStep(body, t, false, 0, c, |body| + 1);
    assert [c] + [] == [c];
  }

  /** A declared media type, being last in its one-element sequence, takes the
      whole slice as one placeholder chunk. */
  lemma DeclaredMedia(buf: seq<byte>, t: string)
    requires IsMedia(t) && buf != []
    ensures Chunks(buf, Some(t)) == Success([Chunk(t, Placeholder(MediaText))])
  {
    var c := Chunk(t, Placeholder(MediaText));
    DeclaredRunStep(buf, t, false, 0, c, |buf| + 1);
    assert [c] + [] == [c];
  }

  lemma {:induction false} DeclaredRunTotal(buf: seq<byte>, t: string, pos: nat)
    ensures DeclaredRun(buf, t, false, pos).Success?
    decreases |buf| - pos
  {
    if pos < |buf| {
      var step := DeclaredStep(buf, t, false, pos);
      DeclaredRunTotal(buf, t, step.value.1);
    }
  }

  /** With a `sametypesequence` set, `parseDictData` never throws, and every
      chunk is tagged with the whole sequence string. */
  lemma DeclaredTotal(buf: seq<byte>, t: string)
    requires t != []
    ensures Chunks(buf, Some(t)).Success?
    ensures forall i :: 0 <= i < |Chunks(buf, Some(t)).value| ==> Chunks(buf, Some(t)).value[i].tag == t
  {
    DeclaredRunTotal(buf, t, 0);
  }

  // ---------------------------------------------------------------------------
  // Concrete records.

  /** One `m` field with its zero byte and no `sametypesequence` gives one
      chunk tagged "m" holding the body. */
  lemma SingleFieldRecord(text: seq<byte>)
    requires ZeroFree(text)
    ensures Chunks([109] + text + [0], Some("")) == Success([Chunk("m", Decoded(text))])
  {
    var f := Field(109, text);
    assert EncodeSelf([f]) == [109] + text + [0];
    assert TagChar(109) == 'm';
    SelfRoundTrip([f]);
    assert FieldChunks([f]) == [FieldChunk(f)];
  }

  /** Two zero-ended bodies under the declared type "mm" give two chunks, each
      tagged with the whole string "mm". */
  lemma TwoBodiesRecord(a: seq<byte>, b: seq<byte>)
    requires ZeroFree(a) && ZeroFree(b)
    ensures Chunks(a + [0] + b + [0], Some("mm")) == Success([Chunk("mm", Decoded(a)), Chunk("mm", Decoded(b))])
  {
    assert EncodeDeclared([a, b]) == a + [0] + b + [0] by {
      assert [a, b][1..] == [b];
      assert EncodeDeclared([b]) == b + [0] + EncodeDeclared([]);
    }
    DeclaredRoundTrip("mm", [a, b]);
    assert BodyText("mm", a) == Decoded(a) && BodyText("mm", b) == Decoded(b);
    assert BodyChunks("mm", [b]) == [Chunk("mm", Decoded(b))] + BodyChunks("mm", []);
    assert BodyChunks("mm", [a, b]) == [Chunk("mm", Decoded(a))] + BodyChunks("mm", [b]);
    assert [Chunk("mm", Decoded(a))] + ([Chunk("mm", Decoded(b))] + []) == [Chunk("mm", Decoded(a)), Chunk("mm", Decoded(b))];
  }

  /** A zero-ended body under the declared type "r" gives one placeholder chunk,
      whatever the body holds. */
  lemma ResourceRecord(body: seq<byte>)
    requires ZeroFree(body)
    ensures Chunks(body + [0], Some("r")) == Success([Chunk("r", Placeholder(ResourceText))])
  {
    assert EncodeDeclared([body]) == body + [0];
    DeclaredRoundTrip("r", [body]);
    assert BodyText("r", body) == Placeholder(ResourceText);
    assert BodyChunks("r", [body]) == [Chunk("r", Placeholder(ResourceText))] + BodyChunks("r", []);
    assert [Chunk("r", Placeholder(ResourceText))] + [] == [Chunk("r", Placeholder(ResourceText))];
  }

  /** The media type "W" over a five-byte slice gives one placeholder chunk. */
  lemma DeclaredMediaExample()
    ensures Chunks([87, 0, 0, 0, 0], Some("W")) == Success([Chunk("W", Placeholder(MediaText))])
  {
    DeclaredMedia([87, 0, 0, 0, 0], "W");
  }

  /** The double advance of a self-describing media field: a `W` field with the
      one-byte payload `A`, followed by the field `m` "x" and its zero byte.
      The cursor skips the `m` and the `x` and lands on the zero byte, which is
      read as a field of type "\0" with an empty body. */
  /** The tag byte is decoded without its high bit, so 0xD7 is read as the
      media tag 'W': the length read that follows throws on a short payload. */
  lemma HighBitMediaTag()
    ensures TagChar(0xD7) == 'W'
    ensures Chunks([0xD7, 0, 0], None) == Failure(OutOfRange(1, 3))
  {
    var buf: seq<byte> := [0xD7, 0, 0];
    assert IsMedia([TagChar(buf[0])]);
  }

  lemma SelfMediaSkipsExample()
    ensures Chunks([87, 0, 0, 0, 1, 65, 109, 120, 0], None)
      == Success([Chunk("W", Placeholder(MediaText)), Chunk([0 as char], Decoded([]))])
  {
    var buf: seq<byte> := [87, 0, 0, 0, 1, 65, 109, 120, 0];
    assert buf[1..5] == WriteU32BE(1);
    ReadU32BEAt(buf, 1, 1);
    SelfMediaAdvance(buf, 0);
    var c1 := Chunk("W", Placeholder(MediaText));
    SelfChunksStep(buf, 0, c1, 8);
    SelfText(buf, 8);
    assert Slice(buf, 9, 9) == [];
    var c2 := Chunk([0 as char], Decoded([]));
    SelfChunksStep(buf, 8, c2, 10);
    assert [c1] + ([c2] + []) == [c1, c2];
  }

  // ---------------------------------------------------------------------------
  // The code.

  method ParseDictData(buffer: seq<byte>, types: Option<string>) returns (r: Result<seq<Chunk>, Error>)
    ensures r == Chunks(buffer, types)
  {
    var res: seq<Chunk> := [];
    if types.None? || |types.value| == 0 {
      var pos: nat := 0;
      PrependNil(SelfChunks(buffer, 0));
      while pos < |buffer|
        invariant SelfChunks(buffer, 0) == Prepend(res, SelfChunks(buffer, pos))
        decreases |buffer| - pos
      {
        var step := ReadTaggedChunk(buffer, pos);
        if step.Failure? {
          PrependFailure(res, step.error);
          return Failure(step.error);
        }
        var (chunk, next) := step.value;
        PrependPrepend(res, [chunk], SelfChunks(buffer, next));
        res := res + [chunk];
        pos := next;
      }
      assert res + [] == res;
    } else {
      var tps := [types.value];
      var pos: nat := 0;
      PrependNil(DeclaredRun(buffer, tps[0], |tps| > 1, 0));
      for i := 0 to |tps|
        invariant i == 0 ==> pos == 0 && res == []
        invariant i > 0 ==> pos >= |buffer| && DeclaredChunks(buffer, tps) == Success(res)
      {
        while pos < |buffer|
          invariant i == 0 ==> DeclaredChunks(buffer, tps) == Prepend(res, DeclaredRun(buffer, tps[0], |tps| > 1, pos))
          invariant i > 0 ==> pos >= |buffer| && DeclaredChunks(buffer, tps) == Success(res)
          decreases |buffer| - pos
        {
          var step := ReadTypedChunk(buffer, tps[i], i < |tps| - 1, pos);
          assert step.Success?;
          var (chunk, next) := step.value;
          PrependPrepend(res, [chunk], DeclaredRun(buffer, tps[0], |tps| > 1, next));
          res := res + [chunk];
          pos := next;
        }
        assert res + [] == res;
      }
    }
    return Success(res);
  }

  /** The body of the self-describing loop. */
  method ReadTaggedChunk(buffer: seq<byte>, pos: nat) returns (r: Result<(Chunk, nat), Error>)
    requires pos < |buffer|
    ensures r == SelfStep(buffer, pos)
  {
    var tag := [TagChar(buffer[pos])];
    var p := pos + 1;
    var l := 0;
    var chunk;
    if IsMedia(tag) {
      var n := ReadUInt32BE(buffer, p);
      if n.Failure? {
        return Failure(n.error);
      }
      l := n.value;
      p := p + 4 + l;
      chunk := Chunk(tag, Placeholder(MediaText));
    } else if IsResource(tag) {
      l := FindZero(buffer, p);
      chunk := Chunk(tag, Placeholder(ResourceText));
    } else {
      l := FindZero(buffer, p);
      chunk := Chunk(tag, ConvertDictData(Slice(buffer, p, p + l), tag));
    }
    p := p + l + 1;
    return Success((chunk, p));
  }

  /** The body of the declared loop for type `t`. */
  method ReadTypedChunk(buffer: seq<byte>, t: string, more: bool, pos: nat) returns (r: Result<(Chunk, nat), Error>)
    requires pos < |buffer|
    ensures r == DeclaredStep(buffer, t, more, pos)
  {
    var p := pos;
    var l := 0;
    var chunk;
    if IsMedia(t) {
      if more {
        var n := ReadUInt32BE(buffer, p);
        if n.Failure? {
          return Failure(n.error);
        }
        l := n.value;
        p := p + 4 + l;
      } else {
        p := |buffer|;
      }
      chunk := Chunk(t, Placeholder(MediaText));
    } else if IsResource(t) {
      l := FindZero(buffer, p);
      chunk := Chunk(t, Placeholder(ResourceText));
      DeclaredText(buffer, t, more, pos);
    } else {
      l := FindZero(buffer, p);
      chunk := Chunk(t, ConvertDictData(Slice(buffer, p, p + l), t));
      DeclaredText(buffer, t, more, pos);
    }
    p := p + l + 1;
    return Success((chunk, p));
  }

  lemma DeclaredText(buf: seq<byte>, t: string, more: bool, pos: nat)
    requires pos < |buf| && !IsMedia(t)
    ensures DeclaredStep(buf, t, more, pos) == Success(TextStep(buf, t, pos))
  {
  }
}
