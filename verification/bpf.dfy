/** Batch demultiplexing of a BPF read buffer: back-to-back records, each a
    capture header followed by the captured frame. The walk reads a header
    only when a whole one is present, hands on a frame only when all of its
    bytes are present, and stops for good at the first header that fails
    either test. */
module BpfBatch {
  import opened Bytes
  import opened Results
  import opened FrameDecoder

  /** Size of the capture header as laid out on macOS: an 8-byte timestamp
      (two 32-bit words) at offset 0, bh_caplen (32 bits) at offset 8,
      bh_datalen (32 bits) at offset 12 and bh_hdrlen (16 bits) at offset 16,
      in little-endian host order. */
  const BpfHeaderMin: nat := 18

  /** The two header fields the walk reads; bh_datalen and the timestamp are
      never read. */
  datatype BpfHeader = BpfHeader(caplen: nat, hdrlen: nat)

  /** The capture header at position `p`; needs the whole header present. */
  function ReadBpfHeader(buf: seq<byte>, p: nat): (h: BpfHeader)
    requires p + BpfHeaderMin <= |buf|
    ensures h.caplen < 0x1_0000_0000 && h.hdrlen < 0x1_0000
  {
    LittleEndianBound(buf[p + 8 .. p + 12]);
    LittleEndianBound(buf[p + 16 .. p + 18]);
    assert Pow256(2) == 0x1_0000;
    assert Pow256(4) == 0x1_0000_0000;
    BpfHeader(caplen := LittleEndian(buf[p + 8 .. p + 12]), hdrlen := LittleEndian(buf[p + 16 .. p + 18]))
  }

  /** A frame's place in the buffer. */
  datatype Slice = Slice(start: nat, len: nat)

  /** The header at `p` is present and describes a nonempty frame that lies
      wholly inside the buffer. */
  predicate GoodHeaderAt(buf: seq<byte>, p: nat) {
    && p + BpfHeaderMin <= |buf|
    && ReadBpfHeader(buf, p).caplen != 0
    && p + ReadBpfHeader(buf, p).hdrlen + ReadBpfHeader(buf, p).caplen <= |buf|
  }

  /** The frame a good header at `p` describes. */
  function FrameAt(buf: seq<byte>, p: nat): (s: Slice)
    requires GoodHeaderAt(buf, p)
    ensures p <= s.start && 1 <= s.len && s.start + s.len <= |buf|
  {
    Slice(p + ReadBpfHeader(buf, p).hdrlen, ReadBpfHeader(buf, p).caplen)
  }

  /** Where the walk resumes after a good header: right after its frame,
      at least one byte further on. */
  function NextAt(buf: seq<byte>, p: nat): (q: nat)
    requires GoodHeaderAt(buf, p)
    ensures p < q <= |buf| && q == FrameAt(buf, p).start + FrameAt(buf, p).len
  {
    p + ReadBpfHeader(buf, p).hdrlen + ReadBpfHeader(buf, p).caplen
  }

  /** The frames the walk hands on from position `p`, as places in the
      buffer. The walk stops at the first header that is missing, declares
      no bytes, or declares bytes past the end. */
  function Walk(buf: seq<byte>, p: nat): (slices: seq<Slice>)
    ensures slices == [] <==> !GoodHeaderAt(buf, p)
    ensures forall i :: 0 <= i < |slices| ==>
      p <= slices[i].start && 1 <= slices[i].len && slices[i].start + slices[i].len <= |buf|
    decreases |buf| - p
  {
    if !GoodHeaderAt(buf, p) then []
    else [FrameAt(buf, p)] + Walk(buf, NextAt(buf, p))
  }

  /** The frames come in buffer order and do not overlap. */
  lemma {:induction false} WalkOrdered(buf: seq<byte>, p: nat)
    ensures var slices := Walk(buf, p);
      forall i, j :: 0 <= i < j < |slices| ==> slices[i].start + slices[i].len <= slices[j].start
    decreases |buf| - p
  {
    if GoodHeaderAt(buf, p) {
      var q := NextAt(buf, p);
      WalkOrdered(buf, q);
      var slices := Walk(buf, p);
      assert slices == [FrameAt(buf, p)] + Walk(buf, q);
      forall i | 1 <= i < |slices|
        ensures slices[i] == Walk(buf, q)[i - 1]
      {
      }
    }
  }

  function Cut(buf: seq<byte>, s: Slice): seq<byte>
    requires s.start + s.len <= |buf|
  {
    buf[s.start .. s.start + s.len]
  }

  /** The frames of a buffer from position `p`. */
  function SplitFrom(buf: seq<byte>, p: nat): (frames: seq<seq<byte>>)
    ensures frames == [] <==> !GoodHeaderAt(buf, p)
    ensures forall i :: 0 <= i < |frames| ==> 1 <= |frames[i]| <= |buf| - p
    decreases |buf| - p
  {
    if !GoodHeaderAt(buf, p) then []
    else [Cut(buf, FrameAt(buf, p))] + SplitFrom(buf, NextAt(buf, p))
  }

  /** The frames are exactly the bytes of the places the walk visits, in the
      same order. */
  lemma {:induction false} SplitCutsWalk(buf: seq<byte>, p: nat)
    ensures |SplitFrom(buf, p)| == |Walk(buf, p)|
    ensures forall i :: 0 <= i < |SplitFrom(buf, p)| ==> SplitFrom(buf, p)[i] == Cut(buf, Walk(buf, p)[i])
    decreases |buf| - p
  {
    if GoodHeaderAt(buf, p) {
      var q := NextAt(buf, p);
      SplitCutsWalk(buf, q);
      var frames, w := SplitFrom(buf, p), Walk(buf, p);
      assert frames == [Cut(buf, FrameAt(buf, p))] + SplitFrom(buf, q);
      assert w == [FrameAt(buf, p)] + Walk(buf, q);
      forall i | 1 <= i < |frames|
        ensures frames[i] == Cut(buf, w[i])
      {
        assert frames[i] == SplitFrom(buf, q)[i - 1];
        assert w[i] == Walk(buf, q)[i - 1];
      }
    }
  }

  /** The frames of a whole buffer: none when it does not start with a good
      header, and each one nonempty and no longer than the buffer. */
  function Split(buf: seq<byte>): (frames: seq<seq<byte>>)
    ensures frames == [] <==> !GoodHeaderAt(buf, 0)
    ensures forall i :: 0 <= i < |frames| ==> 1 <= |frames[i]| <= |buf|
  {
    SplitFrom(buf, 0)
  }

  /** One step of the walk: a good header yields exactly `caplen` bytes
      starting `hdrlen` after it, and the walk resumes right after them. */
  lemma SplitStep(buf: seq<byte>, p: nat)
    requires GoodHeaderAt(buf, p)
    ensures var h := ReadBpfHeader(buf, p);
      && SplitFrom(buf, p) == [buf[p + h.hdrlen .. p + h.hdrlen + h.caplen]] + SplitFrom(buf, p + h.hdrlen + h.caplen)
      && |buf[p + h.hdrlen .. p + h.hdrlen + h.caplen]| == h.caplen
  {
    assert SplitFrom(buf, p) == [Cut(buf, FrameAt(buf, p))] + SplitFrom(buf, NextAt(buf, p));
  }

  // ---------------------------------------------------------------- decoding

  /** The record of one frame, if it decodes. */
  function RecordOf(frame: seq<byte>): (found: seq<PacketInfo>)
    ensures |found| <= 1
  {
    match ParsePacket(frame)
    case Some(info) => [info]
    case None => []
  }

  /** The records of the frames that decode, in frame order; the others are
      skipped. */
  function ParsedRecords(frames: seq<seq<byte>>): (records: seq<PacketInfo>)
    ensures |records| <= |frames|
  {
    if |frames| == 0 then [] else RecordOf(frames[0]) + ParsedRecords(frames[1..])
  }

  lemma ParsedRecordsCons(frame: seq<byte>, rest: seq<seq<byte>>)
    ensures ParsedRecords([frame] + rest) == RecordOf(frame) + ParsedRecords(rest)
  {
    assert ([frame] + rest)[1..] == rest;
  }

  /** One frame handed on by the walk: its record when it decodes, nothing
      otherwise (the record is what gets reported). */
  method ProcessPacket(frame: seq<byte>) returns (found: seq<PacketInfo>)
    ensures |found| <= 1 && (|found| == 1 <==> Accepted(frame))
    ensures |found| == 1 ==> DecodedFields(frame, found[0]) && RecordInvariant(found[0], DefaultPreviewLimit)
    ensures found == RecordOf(frame)
  {
    found := [];
    var info := ParsePacket(frame);
    if info.Some? {
      found := [info.value];
    }
  }

  /** Every collected record satisfies the record invariant and is the record
      of an accepted frame among those handed on, and every accepted frame
      handed on contributes its record. */
  lemma {:induction false} ParsedRecordsSound(frames: seq<seq<byte>>)
    ensures forall r :: r in ParsedRecords(frames) ==> RecordInvariant(r, DefaultPreviewLimit)
    ensures forall r :: r in ParsedRecords(frames) ==> exists f :: f in frames && Accepted(f) && ParsePacket(f) == Some(r)
    ensures forall f :: f in frames && Accepted(f) ==> ParsePacket(f).value in ParsedRecords(frames)
    decreases |frames|
  {
    if |frames| > 0 {
      var f, rest := frames[0], frames[1..];
      ParsedRecordsSound(rest);
      assert frames == [f] + rest;
      assert ParsedRecords(frames) == RecordOf(f) + ParsedRecords(rest);
      forall r | r in ParsedRecords(frames)
        ensures RecordInvariant(r, DefaultPreviewLimit)
        ensures exists g :: g in frames && Accepted(g) && ParsePacket(g) == Some(r)
      {
        if r in RecordOf(f) {
          assert f in frames;
        } else {
          assert r in ParsedRecords(rest);
          var g :| g in rest && Accepted(g) && ParsePacket(g) == Some(r);
          assert g in frames;
        }
      }
      forall g | g in frames && Accepted(g)
        ensures ParsePacket(g).value in ParsedRecords(frames)
      {
        if g != f {
          assert g in rest;
        }
      }
    }
  }

  lemma Regroup<T>(a: seq<T>, b: seq<T>, c: seq<T>)
    ensures a + (b + c) == (a + b) + c
  {
  }

  /** Walks a capture buffer, decoding every frame it can cut out. Returns the
      frames handed to the decoder and the records it produced. */
  method ProcessBpfBuffer(buf: seq<byte>) returns (frames: seq<seq<byte>>, records: seq<PacketInfo>)
    ensures frames == Split(buf)
    ensures records == ParsedRecords(frames)
  {
    var p: nat := 0;
    frames, records := [], [];
    ghost var all := Split(buf);
    ghost var allRecords := ParsedRecords(all);
    while p < |buf|
      invariant all == frames + SplitFrom(buf, p)
      invariant allRecords == records + ParsedRecords(SplitFrom(buf, p))
      decreases |buf| - p
    {
      if p + BpfHeaderMin > |buf| {
        break;
      }
      var h := ReadBpfHeader(buf, p);
      if h.caplen == 0 || p + h.hdrlen + h.caplen > |buf| {
        break;
      }
      var frame := Cut(buf, FrameAt(buf, p));
      var next := NextAt(buf, p);
      ghost var rest := SplitFrom(buf, next);
      assert SplitFrom(buf, p) == [frame] + rest;
      var found := ProcessPacket(frame);
      ParsedRecordsCons(frame, rest);
      Regroup(frames, [frame], rest);
      Regroup(records, found, ParsedRecords(rest));
      records := records + found;
      frames := frames + [frame];
      p := next;
    }
    assert SplitFrom(buf, p) == [];
  }

  // ---------------------------------------------------------------- packing

  /** Whether a header is good, and the frame it describes, depend only on
      the bytes from the header onwards. */
  lemma HeaderSuffix(x: seq<byte>, p: nat, y: seq<byte>, q: nat)
    requires p <= |x| && q <= |y| && x[p..] == y[q..]
    ensures GoodHeaderAt(x, p) <==> GoodHeaderAt(y, q)
    ensures GoodHeaderAt(y, q) ==>
      && Cut(x, FrameAt(x, p)) == Cut(y, FrameAt(y, q))
      && NextAt(x, p) - p == NextAt(y, q) - q
      && x[NextAt(x, p)..] == y[NextAt(y, q)..]
  {
    var u := x[p..];
    if q + BpfHeaderMin <= |y| {
      assert x[p + 8 .. p + 12] == u[8 .. 12] == y[q + 8 .. q + 12];
      assert x[p + 16 .. p + 18] == u[16 .. 18] == y[q + 16 .. q + 18];
      assert ReadBpfHeader(x, p) == ReadBpfHeader(y, q);
      if GoodHeaderAt(y, q) {
        var h := ReadBpfHeader(y, q);
        assert x[p + h.hdrlen .. p + h.hdrlen + h.caplen] == u[h.hdrlen .. h.hdrlen + h.caplen]
          == y[q + h.hdrlen .. q + h.hdrlen + h.caplen];
        assert x[p + h.hdrlen + h.caplen ..] == u[h.hdrlen + h.caplen ..] == y[q + h.hdrlen + h.caplen ..];
      }
    }
  }

  /** The frames found from a position depend only on the bytes from there
      onwards. */
  lemma {:induction false} SplitSuffix(x: seq<byte>, p: nat, y: seq<byte>, q: nat)
    requires p <= |x| && q <= |y| && x[p..] == y[q..]
    ensures SplitFrom(x, p) == SplitFrom(y, q)
    decreases |y| - q
  {
    HeaderSuffix(x, p, y, q);
    if GoodHeaderAt(y, q) {
      SplitSuffix(x, NextAt(x, p), y, NextAt(y, q));
    }
  }

  /** Bytes in front of a buffer change nothing about the frames found
      beyond them. */
  lemma SplitShift(a: seq<byte>, b: seq<byte>, q: nat)
    requires q <= |b|
    ensures SplitFrom(a + b, |a| + q) == SplitFrom(b, q)
  {
    assert (a + b)[|a| + q..] == b[q..];
    SplitSuffix(a + b, |a| + q, b, q);
  }

  /** A frame that fits one capture record: nonempty, length below 2^32. */
  predicate Packable(f: seq<byte>) {
    1 <= |f| < 0x1_0000_0000
  }

  /** One capture record: an 18-byte header declaring the frame's length
      (with no padding after the header), then the frame. */
  function PackOne(f: seq<byte>): (rec: seq<byte>)
    requires Packable(f)
    ensures |rec| == BpfHeaderMin + |f|
  {
    Zeros(8) + U32ToLE(|f|) + U32ToLE(|f|) + U16ToLE(BpfHeaderMin) + f
  }

  /** Every frame fits a capture record. */
  predicate AllPackable(fs: seq<seq<byte>>) {
    |fs| == 0 || (Packable(fs[0]) && AllPackable(fs[1..]))
  }

  /** Back-to-back capture records for a sequence of frames. */
  function Pack(fs: seq<seq<byte>>): (buf: seq<byte>)
    requires AllPackable(fs)
  {
    if |fs| == 0 then [] else PackOne(fs[0]) + Pack(fs[1..])
  }

  /** The header of a packed record reads back as written. */
  lemma PackOneHeader(f: seq<byte>, rest: seq<byte>)
    requires Packable(f)
    ensures GoodHeaderAt(PackOne(f) + rest, 0)
    ensures FrameAt(PackOne(f) + rest, 0) == Slice(BpfHeaderMin, |f|)
    ensures NextAt(PackOne(f) + rest, 0) == |PackOne(f)|
    ensures Cut(PackOne(f) + rest, Slice(BpfHeaderMin, |f|)) == f
  {
    var buf := PackOne(f) + rest;
    var c := U32ToLE(|f|);
    var l := U16ToLE(BpfHeaderMin);
    assert buf == Zeros(8) + c + c + l + f + rest;
    assert buf[8 .. 12] == c;
    assert buf[16 .. 18] == l;
    assert ReadBpfHeader(buf, 0).caplen == |f| && ReadBpfHeader(buf, 0).hdrlen == BpfHeaderMin;
    assert buf[BpfHeaderMin .. BpfHeaderMin + |f|] == f;
  }

  /** A packed record in front of a buffer adds exactly its frame. */
  lemma SplitRecord(f: seq<byte>, rest: seq<byte>)
    requires Packable(f)
    ensures Split(PackOne(f) + rest) == [f] + Split(rest)
  {
    var rec := PackOne(f);
    var buf := rec + rest;
    PackOneHeader(f, rest);
    SplitShift(rec, rest, 0);
  }

  /** Splitting packed records gives the frames back, followed by whatever
      the bytes after them split into. */
  lemma {:induction false} SplitPack(fs: seq<seq<byte>>, tail: seq<byte>)
    requires AllPackable(fs)
    ensures Split(Pack(fs) + tail) == fs + Split(tail)
    decreases |fs|
  {
    if |fs| == 0 {
      assert Pack(fs) + tail == tail;
      assert fs + Split(tail) == Split(tail);
    } else {
      var f, fs' := fs[0], fs[1..];
      assert Pack(fs) == PackOne(f) + Pack(fs');
      Regroup(PackOne(f), Pack(fs'), tail);
      var rest := Pack(fs') + tail;
      SplitRecord(f, rest);
      SplitPack(fs', tail);
      assert fs == [f] + fs';
      Regroup([f], fs', Split(tail));
    }
  }

  /** Valid records followed by a short trailing fragment (smaller than a
      capture header) or by a corrupt header: exactly the valid frames come
      out, and the walk stops without error. */
  lemma SplitPackThenJunk(fs: seq<seq<byte>>, junk: seq<byte>)
    requires AllPackable(fs)
    requires !GoodHeaderAt(junk, 0)
    ensures Split(Pack(fs) + junk) == fs
  {
    SplitPack(fs, junk);
    assert Split(junk) == [];
  }

  // ---------------------------------------------------------------- as written

  /** One step of the loop as the C++ states its guard: a header is read
      whenever the position is inside the buffer, and a frame is handed on
      unless `caplen` is zero or `p + caplen` passes the end; `hdrlen` takes
      no part in the bound. */
  function AsWrittenStep(bufLen: nat, p: nat, h: BpfHeader): (s: Option<Slice>)
    ensures s.Some? ==> s.value.len == h.caplen && p < bufLen
  {
    if p < bufLen && !(h.caplen == 0 || p + h.caplen > bufLen) then Some(Slice(p + h.hdrlen, h.caplen))
    else None
  }

  /** Where the checked walk hands on a frame, the guard as written hands on
      the same one: the two differ only where the code reads past the end. */
  lemma AsWrittenAgreesWhenGood(buf: seq<byte>, p: nat)
    requires GoodHeaderAt(buf, p)
    ensures AsWrittenStep(|buf|, p, ReadBpfHeader(buf, p)) == Some(FrameAt(buf, p))
  {
  }

  /** A 40-byte buffer whose one header declares 20 captured bytes 30 bytes
      after its start: the guard as written lets it through, and the frame
      handed on runs 10 bytes past the end, so the Ethernet header the
      decoder reads (the frame's first 14 bytes) already overruns the buffer;
      the checked walk hands on nothing. A 3-byte buffer is read as a header
      although 15 of its 18 bytes lie past the end. */
  lemma AsWrittenStepOverruns()
    ensures var buf := Zeros(8) + U32ToLE(20) + U32ToLE(20) + U16ToLE(30) + Zeros(22);
      && |buf| == 40
      && AsWrittenStep(|buf|, 0, ReadBpfHeader(buf, 0)).Some?
      && AsWrittenStep(|buf|, 0, ReadBpfHeader(buf, 0)).value.len >= EthernetHeaderLen
      && AsWrittenStep(|buf|, 0, ReadBpfHeader(buf, 0)).value.start + EthernetHeaderLen > |buf|
      && Split(buf) == []
    ensures AsWrittenStep(3, 0, BpfHeader(1, 0)).Some? && 0 + BpfHeaderMin > 3
  {
    var buf := Zeros(8) + U32ToLE(20) + U32ToLE(20) + U16ToLE(30) + Zeros(22);
    var c := U32ToLE(20);
    var l := U16ToLE(30);
    assert buf[8 .. 12] == c;
    assert buf[16 .. 18] == l;
    assert ReadBpfHeader(buf, 0) == BpfHeader(20, 30);
  }
}
