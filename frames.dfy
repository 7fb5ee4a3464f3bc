/**
 * The mVRL frame layout the deframer reads, written out as an encoder, and
 * the round trip: inspecting, unpacking and dispatching an encoded frame
 * gives back its fields, and the work loop recovers a stream of frames.
 * The serializer block is not part of this model; `Encode` is the layout
 * that `inspectPacket` and `unpackBuffer` accept.
 */
module Frames {
  import opened Common
  import opened Words
  import opened Deframer

  /** What a frame carries. `count` is the VITA packet-count field. */
  datatype Frame = Frame(
    seqNum: nat, count: nat, sid: Word, hasTsf: bool, tsf: nat, isExt: bool,
    payload: seq<Byte>)

  /** 'm' 'V' 'R' 'L' as one big-endian word. */
  const MAGIC_WORD: Word := 0x6D56_524C

  function HeaderBytes(f: Frame): nat {
    if f.hasTsf then 24 else 16
  }

  /** The declared length: header, payload and end word, without padding. */
  function PacketBytes(f: Frame): nat {
    HeaderBytes(f) + |f.payload| + 4
  }

  /** The flag field, bits 20 to 31 of the VITA header, least significant first. */
  function FlagBits(f: Frame): (b: seq<bool>)
    ensures |b| == 12
  {
    seq(12, i => (i + 20 == TSF_BIT && f.hasTsf) || i + 20 == SID_BIT || (i + 20 == EXT_BIT && f.isExt))
  }

  /**
   * The fields fit their widths, the packet count is the one the deframer
   * checks (`seq12 & 0x4`), and the length is one it accepts.
   */
  predicate WellFormed(f: Frame) {
    && f.seqNum < 0x1000 && f.count == And4(f.seqNum) && f.tsf < U64_LIMIT
    && PacketBytes(f) <= MAX_PKT_BYTES && PacketBytes(f) < 0x10_0000
    && PacketWords(PacketBytes(f)) < 0x1_0003
  }

  function VitaHeader(f: Frame): Word
    requires WellFormed(f)
  {
    Pow2Values();
    (PacketWords(PacketBytes(f)) - 3) + 0x1_0000 * f.count + 0x10_0000 * FromBits(FlagBits(f))
  }

  function HeaderWords(f: Frame): (ws: seq<Word>)
    requires WellFormed(f)
    ensures 4 * |ws| == HeaderBytes(f)
  {
    [MAGIC_WORD, PacketBytes(f) + 0x10_0000 * f.seqNum, VitaHeader(f), f.sid]
      + (if f.hasTsf then [f.tsf / 0x1_0000_0000, f.tsf % 0x1_0000_0000] else [])
  }

  /** Zero bytes up to the next word boundary after `n` bytes. */
  function Padding(n: nat): (r: seq<Byte>)
    ensures |r| == PadUp32(n) - n
  {
    seq(PadUp32(n) - n, _ => 0)
  }

  /** The header words, the payload padded to whole words, then the end word. */
  function Encode(f: Frame): seq<Byte>
    requires WellFormed(f)
  {
    WordsBytes(HeaderWords(f)) + Body(f) + WordBytes(VEND)
  }

  lemma PadUp32Shift(n: nat, m: nat, total: nat)
    requires total == n + 4 * m
    ensures PadUp32(total) == PadUp32(n) + 4 * m
  {
    assert (n + 4 * m + 3) / 4 == (n + 3) / 4 + m;
  }

  /** A sum of whole words is whole words. */
  lemma WholeWords(a: nat, b: nat)
    requires a % 4 == 0 && b % 4 == 0
    ensures (a + b) % 4 == 0
  {
  }

  /** The header and the padded payload, then the end word: the padded declared length. */
  lemma PaddedLength(f: Frame)
    requires WellFormed(f)
    ensures HeaderBytes(f) + PadUp32(|f.payload|) + 4 == PadUp32(PacketBytes(f))
    ensures (HeaderBytes(f) + PadUp32(|f.payload|)) % 4 == 0
  {
    var words := HeaderBytes(f) / 4 + 1;
    assert 4 * words == HeaderBytes(f) + 4;
    PadUp32Shift(|f.payload|, words, PacketBytes(f));
    WholeWords(HeaderBytes(f), PadUp32(|f.payload|));
  }

  /** An encoded frame spans its declared length rounded up to whole words. */
  lemma EncodeLength(f: Frame)
    requires WellFormed(f)
    ensures |Encode(f)| == PadUp32(PacketBytes(f))
    ensures PacketBytes(f) <= |Encode(f)| < PacketBytes(f) + 4
  {
    PaddedLength(f);
    assert |Encode(f)| == HeaderBytes(f) + PadUp32(|f.payload|) + 4;
  }

  /** A regrouping of concatenations only; kept as its own lemma so that the proof using it stays small and stable. */
  lemma Regroup(h: seq<Byte>, b: seq<Byte>, v: seq<Byte>, t: seq<Byte>)
    ensures h + b + v + t == h + (b + v + t)
    ensures h + b + v + t == (h + b) + (v + t)
  {
  }

  /** The payload padded to whole words. */
  function Body(f: Frame): seq<Byte> {
    f.payload + Padding(|f.payload|)
  }

  /** The encoded frame, split after the header and before the end word. */
  lemma EncodeSplit(f: Frame, tail: seq<Byte>)
    requires WellFormed(f)
    ensures Encode(f) + tail == WordsBytes(HeaderWords(f)) + (Body(f) + WordBytes(VEND) + tail)
    ensures Encode(f) + tail == (WordsBytes(HeaderWords(f)) + Body(f)) + (WordBytes(VEND) + tail)
  {
    Regroup(WordsBytes(HeaderWords(f)), Body(f), WordBytes(VEND), tail);
  }

  /** The end word starts at the padded length less one word. */
  lemma BodyLength(f: Frame)
    requires WellFormed(f)
    ensures var n := |WordsBytes(HeaderWords(f)) + Body(f)|;
      n % 4 == 0 && n + 4 == PadUp32(PacketBytes(f))
  {
    PaddedLength(f);
    assert |WordsBytes(HeaderWords(f)) + Body(f)| == HeaderBytes(f) + PadUp32(|f.payload|);
  }

  /** The low 20 bits and the bits above them of `lo + 2^20 * hi`. */
  lemma Split20(lo: nat, hi: nat)
    requires lo < 0x10_0000
    ensures (lo + 0x10_0000 * hi) % 0x10_0000 == lo && (lo + 0x10_0000 * hi) / 0x10_0000 == hi
  {
  }

  /** Word `i` of the header, read back from an encoded frame followed by anything. */
  lemma HeaderWordRead(f: Frame, tail: seq<Byte>, i: nat)
    requires WellFormed(f) && i < |HeaderWords(f)|
    ensures |Encode(f) + tail| >= 4 * i + 4 && WordAt(Encode(f) + tail, i) == HeaderWords(f)[i]
  {
    EncodeSplit(f, tail);
    WordsBytesAt(HeaderWords(f), Body(f) + WordBytes(VEND) + tail, i);
  }

  lemma MagicBytes()
    ensures WordBytes(MAGIC_WORD) == MAGIC
  {
  }

  /** An encoded frame, followed by anything, starts with 'm' 'V' 'R' 'L'. */
  lemma MagicRead(f: Frame, tail: seq<Byte>)
    requires WellFormed(f)
    ensures HasMagic(Encode(f) + tail)
  {
    var ws := HeaderWords(f);
    EncodeSplit(f, tail);
    WordsBytesHead(ws, Body(f) + WordBytes(VEND) + tail);
    assert ws[0] == MAGIC_WORD;
    MagicBytes();
  }

  /** An encoded frame, followed by anything, starts with the magic and declares its length. */
  lemma HeaderWordsRead(f: Frame, tail: seq<Byte>)
    requires WellFormed(f)
    ensures var p := Encode(f) + tail;
      && |p| >= 16 && HasMagic(p) && DeclaredBytes(p) == PacketBytes(f) && SeqNumber(p) == f.seqNum
      && Header(p) == VitaHeader(f) && WordAt(p, 3) == f.sid
  {
    MagicRead(f, tail);
    HeaderWordRead(f, tail, 1);
    Split20(PacketBytes(f), f.seqNum);
    HeaderWordRead(f, tail, 2);
    HeaderWordRead(f, tail, 3);
  }

  /** An encoded frame ends in `VEND` where its padded length says. */
  lemma EndWordRead(f: Frame, tail: seq<Byte>)
    requires WellFormed(f)
    ensures var p := Encode(f) + tail;
      EndWordInWindow(PacketBytes(f), |p|) && EndWord(p, PacketBytes(f)) == VEND
  {
    var body := WordsBytes(HeaderWords(f)) + Body(f);
    EncodeSplit(f, tail);
    BodyLength(f);
    WordAtShifted(body, WordBytes(VEND) + tail, 0);
    WordAtPrefix(WordBytes(VEND), tail, 0);
  }

  /**
   * `inspectPacket` finds a whole valid packet of the declared length at
   * the head of an encoded frame, as written and as corrected.
   */
  lemma InspectEncoded(f: Frame, tail: seq<Byte>)
    requires WellFormed(f)
    ensures var p := Encode(f) + tail;
      && |p| >= 8
      && InspectPacketChecked(p) == Inspection(true, false, PacketBytes(f))
      && (ReadsEndWord(p) ==> EndWordInWindow(DeclaredBytes(p), |p|))
      && InspectPacket(p) == Inspection(true, false, PacketBytes(f))
  {
    HeaderWordsRead(f, tail);
    EndWordRead(f, tail);
    EncodeLength(f);
  }

  lemma Split16(lo: nat, hi: nat)
    requires lo < 0x1_0000
    ensures (lo + 0x1_0000 * hi) % 0x1_0000 == lo && (lo + 0x1_0000 * hi) / 0x1_0000 == hi
  {
  }

  lemma Split4(lo: nat, hi: nat)
    requires lo < 0x10
    ensures (lo + 0x10 * hi) % 0x10 == lo
  {
  }

  /** Bit `k` of a header whose flag field (bits 20 to 31) holds `b`. */
  lemma FlagFieldBit(low: nat, b: seq<bool>, k: nat)
    requires low < 0x10_0000 && |b| == 12 && 20 <= k < 32
    ensures Bit(low + 0x10_0000 * FromBits(b), k) == b[k - 20]
  {
    Pow2Values();
    BitAbove(low, FromBits(b), 20, k - 20);
    BitOfFromBits(b, k - 20);
  }

  /** Bit `k` of the flag field of the encoded header. */
  lemma FlagRead(f: Frame, k: nat)
    requires WellFormed(f) && 20 <= k < 32
    ensures Bit(VitaHeader(f), k) == FlagBits(f)[k - 20]
  {
    FlagFieldBit((PacketWords(PacketBytes(f)) - 3) + 0x1_0000 * f.count, FlagBits(f), k);
  }

  /** The encoded VITA header carries the word count and packet count that `unpackBuffer` checks. */
  lemma VitaHeaderCounts(f: Frame)
    requires WellFormed(f)
    ensures VitaHeader(f) % 0x1_0000 == Sub64(PacketWords(PacketBytes(f)), 3)
    ensures VitaHeader(f) / 0x1_0000 % 0x10 == f.count
  {
    var words := PacketWords(PacketBytes(f));
    var hi := f.count + 0x10 * FromBits(FlagBits(f));
    assert VitaHeader(f) == (words - 3) + 0x1_0000 * hi;
    Split16(words - 3, hi);
    Split4(f.count, FromBits(FlagBits(f)));
  }

  /** The encoded VITA header has the SID flag, no reserved bit, and the frame's timestamp and extension flags. */
  lemma VitaHeaderFlags(f: Frame)
    requires WellFormed(f)
    ensures Bit(VitaHeader(f), SID_BIT) && !AnyReservedBit(VitaHeader(f))
    ensures Bit(VitaHeader(f), TSF_BIT) == f.hasTsf && Bit(VitaHeader(f), EXT_BIT) == f.isExt
  {
    FlagRead(f, SID_BIT);
    FlagRead(f, TSF_BIT);
    FlagRead(f, EXT_BIT);
    FlagRead(f, 30);
    FlagRead(f, 27);
    FlagRead(f, 26);
    FlagRead(f, 23);
    FlagRead(f, 22);
  }

  /** The payload sits right after the header words. */
  lemma PayloadRead(f: Frame, tail: seq<Byte>)
    requires WellFormed(f)
    ensures var p := Encode(f) + tail;
      HeaderBytes(f) + |f.payload| <= |p| && p[HeaderBytes(f)..HeaderBytes(f) + |f.payload|] == f.payload
  {
    var h := WordsBytes(HeaderWords(f));
    var rest := Body(f) + WordBytes(VEND) + tail;
    EncodeSplit(f, tail);
    assert rest[..|f.payload|] == f.payload;
    assert (h + rest)[|h|..|h| + |f.payload|] == rest[..|f.payload|];
  }

  /** The timestamp words read back as the frame's timestamp. */
  lemma TimestampRead(f: Frame, tail: seq<Byte>)
    requires WellFormed(f) && f.hasTsf
    ensures var p := Encode(f) + tail;
      |p| >= 24 && WordAt(p, 4) * 0x1_0000_0000 + WordAt(p, 5) == f.tsf
  {
    HeaderWordRead(f, tail, 4);
    HeaderWordRead(f, tail, 5);
  }

  /**
   * `unpackBuffer` accepts an encoded frame and returns its sequence
   * number, stream id, flags, timestamp and exactly its payload.
   */
  lemma UnpackEncoded(f: Frame, tail: seq<Byte>)
    requires WellFormed(f) && |Encode(f) + tail| >= 24
    ensures var p := Encode(f) + tail;
      var r := UnpackBufferChecked(p);
      && r.Success?
      && r.value.seqNum == f.seqNum && r.value.sid == f.sid
      && r.value.hasTsf == f.hasTsf && r.value.isExt == f.isExt
      && (f.hasTsf ==> r.value.tsf == f.tsf)
      && r.value.payloadOffset == HeaderBytes(f) && r.value.payloadLength == |f.payload|
      && p[r.value.payloadOffset..r.value.payloadOffset + r.value.payloadLength] == f.payload
  {
    var p := Encode(f) + tail;
    HeaderWordsRead(f, tail);
    VitaHeaderCounts(f);
    VitaHeaderFlags(f);
    EncodeLength(f);
    UnpackBufferChecks(p);
    PayloadRead(f, tail);
    if f.hasTsf {
      TimestampRead(f, tail);
    }
  }

  /**
   * A frame the deserializer delivers: well formed, for an existing output
   * port, timestamped when it carries a buffer (`handlePacket` assumes so),
   * and holding a label when it is a timestamped extension packet.
   */
  predicate Deliverable(f: Frame, numOutputs: nat, extractLabel: Object -> Option<Label>) {
    && WellFormed(f) && f.sid < numOutputs
    && (!f.isExt ==> f.hasTsf)
    && (f.isExt && f.hasTsf ==> extractLabel(f.payload).Some?)
  }

  /**
   * What delivering a frame posts and the next expected index after it:
   * a buffer ends at its timestamp plus its length, a label is re-indexed
   * against the expected index, a message is passed on.
   */
  function Delivered(f: Frame, next: nat, extractLabel: Object -> Option<Label>): Handled
    requires f.isExt && f.hasTsf ==> extractLabel(f.payload).Some?
  {
    if !f.isExt then Handled(BufferPost(f.sid, f.payload), Add64(f.tsf, |f.payload|))
    else if f.hasTsf then Handled(LabelPost(f.sid, Label(extractLabel(f.payload).value.data, Sub64(f.tsf, next))), next)
    else Handled(MessagePost(f.sid, f.payload), next)
  }

  /** `handlePacket` on an encoded frame posts the frame's payload to the frame's port. */
  lemma DispatchEncoded(f: Frame, tail: seq<Byte>, next: nat, numOutputs: nat, extractLabel: Object -> Option<Label>)
    requires Deliverable(f, numOutputs, extractLabel) && |Encode(f) + tail| >= 24
    ensures Dispatch(Encode(f) + tail, next, numOutputs, extractLabel) == Success(Delivered(f, next, extractLabel))
  {
    UnpackEncoded(f, tail);
  }

  /** `handlePacket` refuses an encoded frame for a port the block does not have. */
  lemma DispatchMissingPort(f: Frame, tail: seq<Byte>, next: nat, numOutputs: nat, extractLabel: Object -> Option<Label>)
    requires WellFormed(f) && numOutputs <= f.sid && |Encode(f) + tail| >= 24
    ensures Dispatch(Encode(f) + tail, next, numOutputs, extractLabel) == Failure(SidOutOfRange(f.sid))
  {
    UnpackEncoded(f, tail);
  }

  /** The work loop consumes exactly the declared length of a deliverable frame at the head of the accumulator. */
  lemma IterateEncoded(f: Frame, tail: seq<Byte>, next: nat, numOutputs: nat, extractLabel: Object -> Option<Label>)
    requires Deliverable(f, numOutputs, extractLabel) && |Encode(f) + tail| >= MIN_PKT_BYTES
    ensures var d := Delivered(f, next, extractLabel);
      Iterate(Encode(f) + tail, next, numOutputs, extractLabel) == Consume(d.post, PacketBytes(f), d.next)
  {
    var p := Encode(f) + tail;
    InspectEncoded(f, tail);
    DispatchEncoded(f, tail, next, numOutputs, extractLabel);
    IterateWhole(p, next, numOutputs, extractLabel, PacketBytes(f), Dispatch(p, next, numOutputs, extractLabel));
  }

  /** What is left of an encoded frame after advancing by its declared length: the tail of the end word. */
  function Leftover(f: Frame): (r: seq<Byte>)
    requires WellFormed(f)
    ensures |r| < 4
    ensures r == WordBytes(VEND)[4 - |r|..]
  {
    EncodeLength(f);
    assert Encode(f)[|Encode(f)| - 4..] == WordBytes(VEND);
    Encode(f)[PacketBytes(f)..]
  }

  /** No four consecutive bytes of `b` spell the magic. */
  predicate MagicFree(b: seq<Byte>) {
    forall i | 0 <= i <= |b| - 4 :: !HasMagic(b[i..])
  }

  /** Dropping the first byte keeps a run of bytes free of the magic. */
  lemma MagicFreeTail(b: seq<Byte>)
    requires b != [] && MagicFree(b)
    ensures MagicFree(b[1..])
  {
    forall i | 0 <= i <= |b[1..]| - 4
      ensures !HasMagic(b[1..][i..])
    {
      assert b[1..][i..] == b[i + 1..];
    }
  }

  /**
   * Magic-free bytes in front of the magic do not read as the magic: either
   * their own first four bytes are read, or the 'm' that starts the magic
   * lands where the magic has 'V', 'R' or 'L'.
   */
  lemma NoMagicInside(junk: seq<Byte>, s: seq<Byte>)
    requires junk != [] && MagicFree(junk) && |s| >= 4 && s[..4] == MAGIC
    ensures !HasMagic(junk + s)
  {
    if |junk| >= 4 {
      assert !HasMagic(junk[0..]);
      assert (junk + s)[..4] == junk[0..][..4];
    } else {
      assert (junk + s)[|junk|] == s[0] == 0x6D;
    }
  }

  /**
   * Resynchronisation: the work loop slides byte by byte over any run of
   * bytes that holds no magic to the frame behind it, and then behaves as
   * if the run were not there.
   */
  lemma {:induction false} SkipGarbage(junk: seq<Byte>, s: seq<Byte>, next: nat, numOutputs: nat,
                                       extractLabel: Object -> Option<Label>)
    requires MagicFree(junk) && |s| >= MIN_PKT_BYTES && s[..4] == MAGIC
    ensures Deframe(junk + s, next, numOutputs, extractLabel) == Deframe(s, next, numOutputs, extractLabel)
    decreases |junk|
  {
    if junk == [] {
      assert junk + s == s;
    } else {
      var w := junk + s;
      NoMagicInside(junk, s);
      IterateInspected(w, next, numOutputs, extractLabel);
      DeframeUnfold(w, next, numOutputs, extractLabel);
      DropFirst(junk, s);
      MagicFreeTail(junk);
      SkipGarbage(junk[1..], s, next, numOutputs, extractLabel);
    }
  }

  /** A regrouping of concatenations only; kept as its own lemma so that the proof using it stays small and stable. */
  lemma DropFirst(junk: seq<Byte>, s: seq<Byte>)
    requires junk != []
    ensures (junk + s)[1..] == junk[1..] + s
  {
  }

  /** Frames `handlePacket` can deliver, each one. */
  predicate AllDeliverable(fs: seq<Frame>, numOutputs: nat, extractLabel: Object -> Option<Label>) {
    forall i | 0 <= i < |fs| :: Deliverable(fs[i], numOutputs, extractLabel)
  }

  /**
   * Frames the work loop takes one after another: each deliverable, and the
   * last one at least `MIN_PKT_BYTES` long once encoded. The frames before it
   * may be shorter: what follows them fills the accumulator up to
   * `MIN_PKT_BYTES` when they are inspected. A shorter last frame would wait
   * for more bytes.
   */
  predicate StreamOk(fs: seq<Frame>, numOutputs: nat, extractLabel: Object -> Option<Label>) {
    && AllDeliverable(fs, numOutputs, extractLabel)
    && (fs != [] ==> MIN_PKT_BYTES <= |Encode(fs[|fs| - 1])|)
  }

  /** The conditions on a stream hold again after its first frame. */
  lemma StreamOkTail(fs: seq<Frame>, numOutputs: nat, extractLabel: Object -> Option<Label>)
    requires fs != [] && StreamOk(fs, numOutputs, extractLabel)
    ensures StreamOk(fs[1..], numOutputs, extractLabel)
  {
    assert AllDeliverable(fs[1..], numOutputs, extractLabel);
    if |fs| > 1 {
      assert fs[1..][|fs[1..]| - 1] == fs[|fs| - 1];
    }
  }

  /** The encoded frames back to back. */
  function Stream(fs: seq<Frame>): seq<Byte>
    requires forall i | 0 <= i < |fs| :: WellFormed(fs[i])
  {
    if fs == [] then [] else Encode(fs[0]) + Stream(fs[1..])
  }

  /** Delivering the frames in order: the posts and the final next expected index. */
  function Deliveries(fs: seq<Frame>, next: nat, numOutputs: nat, extractLabel: Object -> Option<Label>): (seq<Post>, nat)
    requires AllDeliverable(fs, numOutputs, extractLabel)
  {
    if fs == [] then ([], next)
    else
      var d := Delivered(fs[0], next, extractLabel);
      var more := Deliveries(fs[1..], d.next, numOutputs, extractLabel);
      ([d.post] + more.0, more.1)
  }

  /** The work loop on one encoded frame followed by more bytes: it delivers the frame and goes on after it. */
  lemma DeframeEncoded(f: Frame, tail: seq<Byte>, next: nat, numOutputs: nat, extractLabel: Object -> Option<Label>)
    requires Deliverable(f, numOutputs, extractLabel) && |Encode(f) + tail| >= MIN_PKT_BYTES
    ensures var d := Delivered(f, next, extractLabel);
      Deframe(Encode(f) + tail, next, numOutputs, extractLabel)
        == Then([d.post], Deframe(Leftover(f) + tail, d.next, numOutputs, extractLabel))
  {
    var p := Encode(f) + tail;
    IterateEncoded(f, tail, next, numOutputs, extractLabel);
    DeframeUnfold(p, next, numOutputs, extractLabel);
    LeftoverTail(f, tail);
  }

  /** Advancing past the declared length of an encoded frame leaves its leftover and what follows. */
  lemma LeftoverTail(f: Frame, tail: seq<Byte>)
    requires WellFormed(f)
    ensures PacketBytes(f) <= |Encode(f) + tail|
    ensures (Encode(f) + tail)[PacketBytes(f)..] == Leftover(f) + tail
  {
    EncodeLength(f);
  }

  /** Encoded frames back to back are at least as long as the last of them. */
  lemma {:induction false} StreamCoversLast(fs: seq<Frame>)
    requires fs != [] && forall i | 0 <= i < |fs| :: WellFormed(fs[i])
    ensures |Encode(fs[|fs| - 1])| <= |Stream(fs)|
    decreases |fs|
  {
    assert Stream(fs) == Encode(fs[0]) + Stream(fs[1..]);
    if |fs| > 1 {
      StreamCoversLast(fs[1..]);
      assert fs[1..][|fs[1..]| - 1] == fs[|fs| - 1];
    }
  }

  /** After a frame's leftover, the work loop takes up the next frame, or stops when there is none. */
  lemma SkipToStream(junk: seq<Byte>, fs: seq<Frame>, next: nat, numOutputs: nat, extractLabel: Object -> Option<Label>)
    requires |junk| < 4 && StreamOk(fs, numOutputs, extractLabel)
    ensures fs == [] ==> Deframe(junk + Stream(fs), next, numOutputs, extractLabel) == Scan([], junk, next, None)
    ensures fs != [] ==>
      Deframe(junk + Stream(fs), next, numOutputs, extractLabel) == Deframe(Stream(fs), next, numOutputs, extractLabel)
  {
    if fs == [] {
      assert junk + Stream(fs) == junk;
    } else {
      var s := Stream(fs);
      assert s == Encode(fs[0]) + Stream(fs[1..]);
      assert s[..4] == MAGIC by {
        HeaderWordsRead(fs[0], Stream(fs[1..]));
      }
      StreamCoversLast(fs);
      SkipGarbage(junk, s, next, numOutputs, extractLabel);
    }
  }

  /**
   * The round trip of the stream: on encoded frames back to back the work
   * loop posts exactly the frames' deliveries, in order, raises no fault,
   * and keeps only the leftover of the last end word.
   */
  lemma {:induction false} DeframeStream(fs: seq<Frame>, next: nat, numOutputs: nat, extractLabel: Object -> Option<Label>)
    requires StreamOk(fs, numOutputs, extractLabel)
    ensures var r := Deframe(Stream(fs), next, numOutputs, extractLabel);
      var d := Deliveries(fs, next, numOutputs, extractLabel);
      r.posts == d.0 && r.next == d.1 && r.fault.None? && |r.rest| < 4
    decreases |fs|
  {
    if fs != [] {
      var f := fs[0];
      var more := Stream(fs[1..]);
      var d := Delivered(f, next, extractLabel);
      StreamOkTail(fs, numOutputs, extractLabel);
      assert Stream(fs) == Encode(f) + more;
      StreamCoversLast(fs);
      DeframeEncoded(f, more, next, numOutputs, extractLabel);
      SkipToStream(Leftover(f), fs[1..], d.next, numOutputs, extractLabel);
      DeframeStream(fs[1..], d.next, numOutputs, extractLabel);
    }
  }

  /** The encoded frames, each one preceded by its own run of garbage. */
  function Garbled(js: seq<seq<Byte>>, fs: seq<Frame>): seq<Byte>
    requires |js| == |fs| && forall i | 0 <= i < |fs| :: WellFormed(fs[i])
  {
    if fs == [] then [] else js[0] + Encode(fs[0]) + Garbled(js[1..], fs[1..])
  }

  /**
   * Garbage the work loop can resynchronise over: no run of garbage, joined
   * to what is left of the frame before it (to `lead` for the first run),
   * holds the magic.
   */
  predicate GarbageOk(lead: seq<Byte>, js: seq<seq<Byte>>, fs: seq<Frame>)
    requires |js| == |fs| && forall i | 0 <= i < |fs| :: WellFormed(fs[i])
  {
    && (fs != [] ==> MagicFree(lead + js[0]))
    && forall i | 1 <= i < |fs| :: MagicFree(Leftover(fs[i - 1]) + js[i])
  }

  /** Garbage before the first frame is skipped, the frame delivered, and the loop goes on after it. */
  lemma GarbledHead(lead: seq<Byte>, js: seq<seq<Byte>>, fs: seq<Frame>, next: nat,
                    numOutputs: nat, extractLabel: Object -> Option<Label>)
    requires |js| == |fs| && fs != [] && StreamOk(fs, numOutputs, extractLabel) && MagicFree(lead + js[0])
    ensures var d := Delivered(fs[0], next, extractLabel);
      Deframe(lead + Garbled(js, fs), next, numOutputs, extractLabel)
        == Then([d.post], Deframe(Leftover(fs[0]) + Garbled(js[1..], fs[1..]), d.next, numOutputs, extractLabel))
  {
    var f := fs[0];
    var more := Garbled(js[1..], fs[1..]);
    var s := Encode(f) + more;
    GarbledSplit(lead, js, fs);
    if |fs| > 1 {
      GarbledCoversLast(js[1..], fs[1..]);
      assert fs[1..][|fs[1..]| - 1] == fs[|fs| - 1];
    }
    MagicRead(f, more);
    SkipGarbage(lead + js[0], s, next, numOutputs, extractLabel);
    DeframeEncoded(f, more, next, numOutputs, extractLabel);
  }

  /** A garbled stream is at least as long as its last frame. */
  lemma {:induction false} GarbledCoversLast(js: seq<seq<Byte>>, fs: seq<Frame>)
    requires |js| == |fs| && fs != [] && forall i | 0 <= i < |fs| :: WellFormed(fs[i])
    ensures |Encode(fs[|fs| - 1])| <= |Garbled(js, fs)|
    decreases |fs|
  {
    if |fs| > 1 {
      GarbledCoversLast(js[1..], fs[1..]);
      assert fs[1..][|fs[1..]| - 1] == fs[|fs| - 1];
    }
  }

  /** A regrouping of concatenations only; kept as its own lemma so that the proof using it stays small and stable. */
  lemma GarbledSplit(lead: seq<Byte>, js: seq<seq<Byte>>, fs: seq<Frame>)
    requires |js| == |fs| && fs != [] && forall i | 0 <= i < |fs| :: WellFormed(fs[i])
    ensures lead + Garbled(js, fs) == (lead + js[0]) + (Encode(fs[0]) + Garbled(js[1..], fs[1..]))
  {
  }

  /** The conditions on a garbled stream hold again after its first frame. */
  lemma GarbageOkTail(lead: seq<Byte>, js: seq<seq<Byte>>, fs: seq<Frame>, numOutputs: nat,
                      extractLabel: Object -> Option<Label>)
    requires |js| == |fs| && fs != [] && StreamOk(fs, numOutputs, extractLabel) && GarbageOk(lead, js, fs)
    ensures StreamOk(fs[1..], numOutputs, extractLabel) && GarbageOk(Leftover(fs[0]), js[1..], fs[1..])
  {
    StreamOkTail(fs, numOutputs, extractLabel);
    forall i | 1 <= i < |fs[1..]|
      ensures MagicFree(Leftover(fs[1..][i - 1]) + js[1..][i])
    {
      assert fs[1..][i - 1] == fs[i] && js[1..][i] == js[i + 1];
    }
  }

  /** The garbled stream after a short leftover `lead`: every frame is still delivered, in order. */
  lemma {:induction false} DeframeGarbledAfter(lead: seq<Byte>, js: seq<seq<Byte>>, fs: seq<Frame>, next: nat,
                                               numOutputs: nat, extractLabel: Object -> Option<Label>)
    requires |lead| < 4 && |js| == |fs| && StreamOk(fs, numOutputs, extractLabel) && GarbageOk(lead, js, fs)
    ensures var r := Deframe(lead + Garbled(js, fs), next, numOutputs, extractLabel);
      var d := Deliveries(fs, next, numOutputs, extractLabel);
      r.posts == d.0 && r.next == d.1 && r.fault.None? && |r.rest| < 4
    decreases |fs|
  {
    if fs == [] {
      assert lead + Garbled(js, fs) == lead;
    } else {
      var d := Delivered(fs[0], next, extractLabel);
      GarbledHead(lead, js, fs, next, numOutputs, extractLabel);
      GarbageOkTail(lead, js, fs, numOutputs, extractLabel);
      DeframeGarbledAfter(Leftover(fs[0]), js[1..], fs[1..], d.next, numOutputs, extractLabel);
    }
  }

  /**
   * Resynchronisation over a whole stream: when garbage without the magic
   * precedes every encoded frame, the work loop still posts exactly the
   * frames' deliveries, in order, and raises no fault.
   */
  lemma DeframeGarbled(js: seq<seq<Byte>>, fs: seq<Frame>, next: nat, numOutputs: nat,
                       extractLabel: Object -> Option<Label>)
    requires |js| == |fs| && StreamOk(fs, numOutputs, extractLabel) && GarbageOk([], js, fs)
    ensures var r := Deframe(Garbled(js, fs), next, numOutputs, extractLabel);
      var d := Deliveries(fs, next, numOutputs, extractLabel);
      r.posts == d.0 && r.next == d.1 && r.fault.None? && |r.rest| < 4
  {
    assert [] + Garbled(js, fs) == Garbled(js, fs);
    DeframeGarbledAfter([], js, fs, next, numOutputs, extractLabel);
  }

  /** Cutting bytes off the end does not change the words before the cut. */
  lemma WordBeforeCut(p: seq<Byte>, n: nat, k: nat)
    requires 4 * k + 4 <= n <= |p|
    ensures WordAt(p[..n], k) == WordAt(p, k)
  {
  }

  /** The first `n` bytes of an encoded frame already show the magic and the declared length. */
  lemma PrefixRead(f: Frame, n: nat)
    requires WellFormed(f) && 8 <= n <= |Encode(f)|
    ensures var p := Encode(f)[..n];
      HasMagic(p) && DeclaredBytes(p) == PacketBytes(f)
  {
    var e := Encode(f);
    HeaderWordsRead(f, []);
    assert e + [] == e;
    assert e[..n][..4] == e[..4];
    WordBeforeCut(e, n, 1);
  }

  /**
   * A frame that has only partly arrived is a fragment: the work loop
   * posts nothing, keeps the bytes and waits for more input.
   */
  lemma FragmentWaits(f: Frame, n: nat, next: nat, numOutputs: nat, extractLabel: Object -> Option<Label>)
    requires WellFormed(f) && MIN_PKT_BYTES <= n < |Encode(f)|
    ensures var p := Encode(f)[..n];
      && InspectPacketChecked(p) == Inspection(true, true, PacketBytes(f))
      && Deframe(p, next, numOutputs, extractLabel) == Scan([], p, next, None)
  {
    var p := Encode(f)[..n];
    PrefixRead(f, n);
    EncodeLength(f);
    IterateInspected(p, next, numOutputs, extractLabel);
    DeframeUnfold(p, next, numOutputs, extractLabel);
  }
}
