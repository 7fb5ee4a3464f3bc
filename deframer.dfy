/**
 * The mVRL deframer (`Deserializer` block): it accumulates the bytes of a
 * modified VITA radio link layer stream, finds framed packets in it,
 * checks their VITA-49 style sub-header and routes each payload to an
 * output port as a buffer, a label or a message.
 *
 * Frame layout, all words big-endian:
 *   word 0      the magic 'm' 'V' 'R' 'L'
 *   word 1      (seq12 << 20) | pkt_bytes (20 bits)
 *   word 2      VITA header: flags in bits 31-20, packet count in 19-16,
 *               size in 32-bit words (excluding the three VRL words) in 15-0
 *   word 3      stream id
 *   words 4-5   optional 64-bit timestamp
 *   payload     padded to a multiple of four bytes
 *   last word   the end marker VEND
 */
module Deframer {
  import opened Common
  import opened Words

  /**
   * `MIN_PKT_BYTES`: the work loop inspects the accumulator only while it
   * holds at least this many bytes. Its value is not part of this model;
   * it is assumed to cover the 24 bytes (words 0 to 5) that
   * `unpackBuffer` reads whatever the header says.
   */
  type MinPacketBytes = n: nat | 24 <= n witness 24
  const MIN_PKT_BYTES: MinPacketBytes

  /** `MAX_PKT_BYTES`: larger declared lengths are rejected as garbage. */
  const MAX_PKT_BYTES: nat

  /** `VEND`: the end-marker word. */
  const VEND: Word

  /** Header bits that must be zero. */
  predicate Reserved(k: nat) {
    k == 30 || k == 27 || k == 26 || k == 23 || k == 22
  }

  /** A flag bit lies in the flag field (bits 31-20) and is not reserved. */
  predicate FlagPosition(k: nat) {
    20 <= k < 32 && !Reserved(k)
  }

  /**
   * Bit positions of the masks `VITA_TSF`, `VITA_SID` and `VITA_EXT`: each
   * mask is assumed to be a single flag bit, the three distinct.
   */
  type FlagPositions = t: (nat, nat, nat)
    | FlagPosition(t.0) && FlagPosition(t.1) && FlagPosition(t.2)
      && t.0 != t.1 && t.1 != t.2 && t.0 != t.2
    witness (20, 21, 24)
  const VITA_FLAGS: FlagPositions
  const TSF_BIT: nat := VITA_FLAGS.0
  const SID_BIT: nat := VITA_FLAGS.1
  const EXT_BIT: nat := VITA_FLAGS.2

  /** The start sequence 'm' 'V' 'R' 'L'. */
  const MAGIC: seq<Byte> := [0x6D, 0x56, 0x52, 0x4C]

  /** `padUp32`: rounds a byte count up to whole 32-bit words. */
  function PadUp32(n: nat): (r: nat)
    ensures r % 4 == 0 && n <= r < n + 4
  {
    (n + 3) / 4 * 4
  }

  predicate HasMagic(p: seq<Byte>) {
    |p| >= 4 && p[..4] == MAGIC
  }

  /** The declared packet length: the low 20 bits of word 1. */
  function DeclaredBytes(p: seq<Byte>): nat
    requires |p| >= 8
  {
    WordAt(p, 1) % 0x10_0000
  }

  /** The 12-bit rolling sequence number: the high bits of word 1. */
  function SeqNumber(p: seq<Byte>): nat
    requires |p| >= 8
  {
    WordAt(p, 1) / 0x10_0000
  }

  /** The index `pkt_words32 - 1` of the end word, -1 for a zero length. */
  function EndWordIndex(pkt: nat): int {
    PadUp32(pkt) / 4 - 1
  }

  /** The end word of a packet of `pkt` bytes lies within `n` bytes. */
  predicate EndWordInWindow(pkt: nat, n: nat) {
    0 <= EndWordIndex(pkt) && PadUp32(pkt) <= n
  }

  function EndWord(p: seq<Byte>, pkt: nat): Word
    requires EndWordInWindow(pkt, |p|)
  {
    WordAt(p, PadUp32(pkt) / 4 - 1)
  }

  /** The outcome of `inspectPacket`: its result and two out-parameters. */
  datatype Inspection = Inspection(valid: bool, isFragment: bool, pktBytes: nat)

  /** `inspectPacket` goes on to read the end word. */
  predicate ReadsEndWord(p: seq<Byte>)
    requires |p| >= 8
  {
    HasMagic(p) && DeclaredBytes(p) <= MAX_PKT_BYTES && DeclaredBytes(p) <= |p|
  }

  /**
   * `inspectPacket` as written. Where it reads the end word, that word must
   * lie in the accumulator; a zero length or a packet whose padding has not
   * arrived yet violates this (see the findings).
   */
  function InspectPacket(p: seq<Byte>): (r: Inspection)
    requires |p| >= 8
    requires ReadsEndWord(p) ==> EndWordInWindow(DeclaredBytes(p), |p|)
    ensures !HasMagic(p) ==> !r.valid
    ensures HasMagic(p) ==> r.pktBytes == DeclaredBytes(p) && (r.isFragment <==> DeclaredBytes(p) > |p|)
    ensures HasMagic(p) && DeclaredBytes(p) > MAX_PKT_BYTES ==> !r.valid
    ensures r.valid && r.isFragment <==>
      HasMagic(p) && |p| < DeclaredBytes(p) <= MAX_PKT_BYTES
    ensures r.valid && !r.isFragment <==>
      ReadsEndWord(p) && EndWord(p, DeclaredBytes(p)) == VEND
  {
    if !HasMagic(p) then Inspection(false, true, 0)
    else
      var pkt := DeclaredBytes(p);
      var fragment := pkt > |p|;
      if pkt > MAX_PKT_BYTES then Inspection(false, fragment, pkt)
      else Inspection(fragment || WordAt(p, PadUp32(pkt) / 4 - 1) == VEND, fragment, pkt)
  }

  /**
   * `inspectPacket` corrected: a zero length is garbage, and a packet is a
   * fragment until its padded length has arrived, so the end word is always
   * read inside the accumulator.
   */
  function InspectPacketChecked(p: seq<Byte>): (r: Inspection)
    requires |p| >= 8
    ensures !HasMagic(p) ==> !r.valid
    ensures HasMagic(p) ==> r.pktBytes == DeclaredBytes(p) && (r.isFragment <==> PadUp32(DeclaredBytes(p)) > |p|)
    ensures r.valid && r.isFragment <==>
      HasMagic(p) && 0 < DeclaredBytes(p) <= MAX_PKT_BYTES && |p| < PadUp32(DeclaredBytes(p))
    ensures r.valid && !r.isFragment <==>
      HasMagic(p) && 0 < DeclaredBytes(p) <= MAX_PKT_BYTES && PadUp32(DeclaredBytes(p)) <= |p|
      && EndWord(p, DeclaredBytes(p)) == VEND
    ensures r.valid && !r.isFragment ==> 1 <= r.pktBytes <= |p|
  {
    if !HasMagic(p) then Inspection(false, true, 0)
    else
      var pkt := DeclaredBytes(p);
      var fragment := PadUp32(pkt) > |p|;
      if pkt > MAX_PKT_BYTES || pkt == 0 then Inspection(false, fragment, pkt)
      else Inspection(fragment || WordAt(p, PadUp32(pkt) / 4 - 1) == VEND, fragment, pkt)
  }

  /** Wherever the code as written reads inside the accumulator, the corrected inspection agrees with it. */
  lemma InspectionsAgree(p: seq<Byte>)
    requires |p| >= 8
    requires ReadsEndWord(p) ==> EndWordInWindow(DeclaredBytes(p), |p|)
    ensures InspectPacket(p).valid == InspectPacketChecked(p).valid
    ensures InspectPacket(p).valid ==> InspectPacket(p) == InspectPacketChecked(p)
  {
  }

  /** The VITA header word. */
  function Header(p: seq<Byte>): Word
    requires |p| >= 12
  {
    WordAt(p, 2)
  }

  /** `seq12 & 0x4`. */
  function And4(x: nat): nat {
    x / 4 % 2 * 4
  }

  predicate AnyReservedBit(hdr: nat) {
    Bit(hdr, 30) || Bit(hdr, 27) || Bit(hdr, 26) || Bit(hdr, 23) || Bit(hdr, 22)
  }

  /** The header fields `unpackBuffer` extracts; `payloadOffset` and `payloadLength` give the payload window. */
  datatype Unpacked = Unpacked(
    seqNum: nat, sid: Word, hasTsf: bool, tsf: nat, isExt: bool,
    payloadOffset: nat, payloadLength: nat)

  /** Why a packet is refused: the failed `unpackCheck`, the routing error or a label that does not decode. */
  datatype Fault =
    | Truncated | WordCountMismatch | SequenceMismatch | MissingStreamId | ReservedBitSet
    | PayloadUnderflow | SidOutOfRange(sid: nat) | NotALabel

  /** The 32-bit word count of a packet of `pkt` bytes. */
  function PacketWords(pkt: nat): nat {
    PadUp32(pkt) / 4
  }

  /**
   * `unpackBuffer` as written, on an accumulator that starts with a packet.
   * The payload length is `size_t` arithmetic and wraps below zero.
   */
  function UnpackBuffer(p: seq<Byte>): (r: Result<Unpacked, Fault>)
    requires |p| >= 24
    ensures r.Success? ==> r.value.payloadOffset == (if r.value.hasTsf then 24 else 16)
  {
    var pkt := DeclaredBytes(p);
    var words := PacketWords(pkt);
    if !(words * 4 <= |p|) then Failure(Truncated)
    else
      var seq12 := SeqNumber(p);
      var hdr := Header(p);
      if hdr % 0x1_0000 != Sub64(words, 3) then Failure(WordCountMismatch)
      else if And4(seq12) != hdr / 0x1_0000 % 0x10 then Failure(SequenceMismatch)
      else if !Bit(hdr, SID_BIT) then Failure(MissingStreamId)
      else if AnyReservedBit(hdr) then Failure(ReservedBitSet)
      else
        var hasTsf := Bit(hdr, TSF_BIT);
        var hdrBytes := if hasTsf then 24 else 16;
        Success(Unpacked(seq12, WordAt(p, 3), hasTsf, WordAt(p, 4) * 0x1_0000_0000 + WordAt(p, 5),
                         Bit(hdr, EXT_BIT), hdrBytes, Sub64(pkt, hdrBytes + 4)))
  }

  /**
   * `unpackBuffer` throws unless the padded packet fits in the accumulator,
   * the VITA size field is `pkt_words32 - 3`, the count field is
   * `seq12 & 0x4`, the SID flag is set and no reserved bit is set; the
   * payload window then starts after the header and ends before the end word.
   */
  lemma UnpackBufferChecks(p: seq<Byte>)
    requires |p| >= 24
    ensures var r := UnpackBuffer(p);
      && (r == Failure(Truncated) <==> PadUp32(DeclaredBytes(p)) > |p|)
      && (r.Success? <==>
          PadUp32(DeclaredBytes(p)) <= |p|
          && Header(p) % 0x1_0000 == Sub64(PacketWords(DeclaredBytes(p)), 3)
          && And4(SeqNumber(p)) == Header(p) / 0x1_0000 % 0x10
          && Bit(Header(p), SID_BIT)
          && !AnyReservedBit(Header(p)))
    ensures var r := UnpackBuffer(p);
      r.Success? ==>
        var u := r.value;
        && u.seqNum == SeqNumber(p) && u.sid == WordAt(p, 3)
        && u.hasTsf == Bit(Header(p), TSF_BIT) && u.isExt == Bit(Header(p), EXT_BIT)
        && u.tsf == WordAt(p, 4) * 0x1_0000_0000 + WordAt(p, 5)
        && u.payloadLength == Sub64(DeclaredBytes(p), u.payloadOffset + 4)
  {
  }

  /**
   * `unpackBuffer` corrected: a declared length shorter than the header
   * and end word is refused instead of wrapping, so the payload window
   * always lies inside the packet.
   */
  function UnpackBufferChecked(p: seq<Byte>): (r: Result<Unpacked, Fault>)
    requires |p| >= 24
    ensures r.Success? ==> UnpackBuffer(p) == r
    ensures r.Success? ==>
      r.value.payloadOffset + r.value.payloadLength + 4 == DeclaredBytes(p) <= |p|
    ensures r.Failure? ==>
      UnpackBuffer(p) == r || (UnpackBuffer(p).Success? && r.error == PayloadUnderflow)
    ensures r == Failure(PayloadUnderflow) <==>
      UnpackBuffer(p).Success? && DeclaredBytes(p) < UnpackBuffer(p).value.payloadOffset + 4
  {
    match UnpackBuffer(p)
    case Failure(e) => Failure(e)
    case Success(u) =>
      if DeclaredBytes(p) < u.payloadOffset + 4 then Failure(PayloadUnderflow) else Success(u)
  }

  /** What `handlePacket` posts to an output port. */
  datatype Post =
    | BufferPost(port: nat, payload: seq<Byte>)
    | LabelPost(port: nat, tag: Label)
    | MessagePost(port: nat, message: Object)

  /** A handled packet: its post and the new `_nextExpectedIndex`. */
  datatype Handled = Handled(post: Post, next: nat)

  /** The payload window of a packet that passes the checks: between the header and the end word. */
  function PayloadOf(p: seq<Byte>): (r: seq<Byte>)
    requires |p| >= 24 && UnpackBufferChecked(p).Success?
    ensures |r| == UnpackBufferChecked(p).value.payloadLength
    ensures var u := UnpackBufferChecked(p).value;
      forall k | 0 <= k < |r| :: r[k] == p[u.payloadOffset + k]
  {
    var u := UnpackBufferChecked(p).value;
    p[u.payloadOffset..u.payloadOffset + u.payloadLength]
  }

  /**
   * `handlePacket`: route by stream id; a buffer packet sets the next
   * expected index to the end of its payload, a label packet is re-indexed
   * against it, a message packet is passed on.
   */
  function Dispatch(p: seq<Byte>, next: nat, numOutputs: nat, extractLabel: Object -> Option<Label>)
    : (r: Result<Handled, Fault>)
    requires |p| >= 24
    ensures r.Success? ==> UnpackBufferChecked(p).Success? && r.value.post.port < numOutputs
    ensures r.Success? ==> r.value.post.port == UnpackBufferChecked(p).value.sid
    ensures r.Success? && r.value.post.LabelPost? ==> r.value.next == next
    ensures r.Success? && r.value.post.MessagePost? ==> r.value.next == next
    ensures UnpackBufferChecked(p).Success? && UnpackBufferChecked(p).value.sid >= numOutputs ==>
      r == Failure(SidOutOfRange(UnpackBufferChecked(p).value.sid))
    ensures UnpackBufferChecked(p).Failure? ==> r == Failure(UnpackBufferChecked(p).error)
    ensures UnpackBufferChecked(p).Success? && UnpackBufferChecked(p).value.sid < numOutputs ==>
      var u := UnpackBufferChecked(p).value;
      var payload := PayloadOf(p);
      && (!u.isExt ==> r == Success(Handled(BufferPost(u.sid, payload), Add64(u.tsf, u.payloadLength))))
      && (u.isExt && u.hasTsf && extractLabel(payload).None? ==> r == Failure(NotALabel))
      && (u.isExt && u.hasTsf && extractLabel(payload).Some? ==>
            r == Success(Handled(LabelPost(u.sid, Label(extractLabel(payload).value.data, Sub64(u.tsf, next))), next)))
      && (u.isExt && !u.hasTsf ==> r == Success(Handled(MessagePost(u.sid, payload), next)))
  {
    match UnpackBufferChecked(p)
    case Failure(e) => Failure(e)
    case Success(u) =>
      if u.sid >= numOutputs then Failure(SidOutOfRange(u.sid))
      else
        var payload := PayloadOf(p);
        if !u.isExt then
          Success(Handled(BufferPost(u.sid, payload), Add64(u.tsf, u.payloadLength)))
        else if u.hasTsf then
          match extractLabel(payload)
          case None => Failure(NotALabel)
          case Some(lbl) => Success(Handled(LabelPost(u.sid, Label(lbl.data, Sub64(u.tsf, next))), next))
        else
          Success(Handled(MessagePost(u.sid, payload), next))
  }

  /** One iteration of the work loop on an accumulator of at least `MIN_PKT_BYTES`. */
  datatype Iteration =
    | Slide                                      // garbage: advance one byte
    | Wait                                       // a fragment: return and wait for more input
    | Refuse(fault: Fault)                       // `handlePacket` throws
    | Consume(post: Post, advance: nat, next: nat) // a packet handled: advance by its declared length

  function Iterate(w: seq<Byte>, next: nat, numOutputs: nat, extractLabel: Object -> Option<Label>)
    : (it: Iteration)
    requires |w| >= MIN_PKT_BYTES
    ensures it.Consume? ==> 1 <= it.advance <= |w|
  {
    var ins := InspectPacketChecked(w);
    if !ins.valid then Slide
    else if ins.isFragment then Wait
    else
      match Dispatch(w, next, numOutputs, extractLabel)
      case Failure(e) => Refuse(e)
      case Success(h) => Consume(h.post, ins.pktBytes, h.next)
  }

  /** Garbage slides by one byte, a fragment waits. */
  lemma IterateInspected(w: seq<Byte>, next: nat, numOutputs: nat, extractLabel: Object -> Option<Label>)
    requires |w| >= MIN_PKT_BYTES
    ensures !InspectPacketChecked(w).valid ==> Iterate(w, next, numOutputs, extractLabel) == Slide
    ensures InspectPacketChecked(w).valid && InspectPacketChecked(w).isFragment ==>
      Iterate(w, next, numOutputs, extractLabel) == Wait
  {
  }

  /** On a whole packet the iteration is decided by `handlePacket`. */
  lemma IterateWhole(w: seq<Byte>, next: nat, numOutputs: nat, extractLabel: Object -> Option<Label>, k: nat,
                     r: Result<Handled, Fault>)
    requires |w| >= MIN_PKT_BYTES && InspectPacketChecked(w) == Inspection(true, false, k)
    requires r == Dispatch(w, next, numOutputs, extractLabel)
    ensures r.Failure? ==> Iterate(w, next, numOutputs, extractLabel) == Refuse(r.error)
    ensures r.Success? ==> Iterate(w, next, numOutputs, extractLabel) == Consume(r.value.post, k, r.value.next)
  {
  }

  /** The effect of a run of the work loop: posts, the accumulator left, the counter, and a fault if one ended it. */
  datatype Scan = Scan(posts: seq<Post>, rest: seq<Byte>, next: nat, fault: Option<Fault>)

  function Then(done: seq<Post>, s: Scan): Scan {
    s.(posts := done + s.posts)
  }

  /**
   * The work loop over an accumulator `w`: iterate until fewer than
   * `MIN_PKT_BYTES` remain, a fragment is found or a packet is refused.
   */
  function Deframe(w: seq<Byte>, next: nat, numOutputs: nat, extractLabel: Object -> Option<Label>): Scan
    decreases |w|
  {
    if |w| < MIN_PKT_BYTES then Scan([], w, next, None)
    else
      match Iterate(w, next, numOutputs, extractLabel)
      case Slide => Deframe(w[1..], next, numOutputs, extractLabel)
      case Wait => Scan([], w, next, None)
      case Refuse(e) => Scan([], w, next, Some(e))
      case Consume(post, k, n) => Then([post], Deframe(w[k..], n, numOutputs, extractLabel))
  }

  /** One unfolding of the work loop on an accumulator of at least `MIN_PKT_BYTES`. */
  lemma DeframeUnfold(w: seq<Byte>, next: nat, numOutputs: nat, extractLabel: Object -> Option<Label>)
    requires |w| >= MIN_PKT_BYTES
    ensures var it := Iterate(w, next, numOutputs, extractLabel);
      var r := Deframe(w, next, numOutputs, extractLabel);
      && (it.Slide? ==> r == Deframe(w[1..], next, numOutputs, extractLabel))
      && (it.Wait? ==> r == Scan([], w, next, None))
      && (it.Refuse? ==> r == Scan([], w, next, Some(it.fault)))
      && (it.Consume? ==> r == Then([it.post], Deframe(w[it.advance..], it.next, numOutputs, extractLabel)))
  {
  }

  /** `t` is what is left of `w` after dropping a prefix. */
  predicate IsSuffix(t: seq<Byte>, w: seq<Byte>) {
    |t| <= |w| && t == w[|w| - |t|..]
  }

  lemma SuffixOfDrop(t: seq<Byte>, w: seq<Byte>, k: nat)
    requires k <= |w| && IsSuffix(t, w[k..])
    ensures IsSuffix(t, w)
  {
    assert w[k..][|w| - k - |t|..] == w[|w| - |t|..];
  }

  /** The work loop leaves a suffix of its accumulator. */
  lemma {:induction false} DeframeLeavesSuffix(w: seq<Byte>, next: nat, numOutputs: nat, extractLabel: Object -> Option<Label>)
    ensures IsSuffix(Deframe(w, next, numOutputs, extractLabel).rest, w)
    decreases |w|
  {
    if |w| >= MIN_PKT_BYTES {
      var it := Iterate(w, next, numOutputs, extractLabel);
      DeframeUnfold(w, next, numOutputs, extractLabel);
      if it.Slide? {
        DeframeLeavesSuffix(w[1..], next, numOutputs, extractLabel);
        SuffixOfDrop(Deframe(w, next, numOutputs, extractLabel).rest, w, 1);
      } else if it.Consume? {
        DeframeLeavesSuffix(w[it.advance..], it.next, numOutputs, extractLabel);
        SuffixOfDrop(Deframe(w, next, numOutputs, extractLabel).rest, w, it.advance);
      }
    }
  }

  /**
   * The work loop ends only below `MIN_PKT_BYTES` or on a fragment, or
   * else with a fault raised by the whole packet at the head of what is left.
   */
  lemma {:induction false} DeframeStops(w: seq<Byte>, next: nat, numOutputs: nat, extractLabel: Object -> Option<Label>)
    ensures var r := Deframe(w, next, numOutputs, extractLabel);
      if r.fault.None? then
        |r.rest| < MIN_PKT_BYTES || Iterate(r.rest, r.next, numOutputs, extractLabel) == Wait
      else
        |r.rest| >= MIN_PKT_BYTES && Iterate(r.rest, r.next, numOutputs, extractLabel) == Refuse(r.fault.value)
    decreases |w|
  {
    if |w| >= MIN_PKT_BYTES {
      var it := Iterate(w, next, numOutputs, extractLabel);
      if it.Slide? {
        DeframeStops(w[1..], next, numOutputs, extractLabel);
      } else if it.Consume? {
        DeframeStops(w[it.advance..], it.next, numOutputs, extractLabel);
      }
    }
  }

  /** The next expected index stays a 64-bit value. */
  lemma {:induction false} DeframeNextBounded(w: seq<Byte>, next: nat, numOutputs: nat, extractLabel: Object -> Option<Label>)
    requires next < U64_LIMIT
    ensures Deframe(w, next, numOutputs, extractLabel).next < U64_LIMIT
    decreases |w|
  {
    if |w| >= MIN_PKT_BYTES {
      match Iterate(w, next, numOutputs, extractLabel)
      case Slide =>
        DeframeNextBounded(w[1..], next, numOutputs, extractLabel);
      case Wait =>
      case Refuse(e) =>
      case Consume(post, k, n) =>
        DeframeNextBounded(w[k..], n, numOutputs, extractLabel);
    }
  }

  lemma ThenThen(a: seq<Post>, b: seq<Post>, s: Scan)
    ensures Then(a, Then(b, s)) == Then(a + b, s)
  {
    assert a + (b + s.posts) == (a + b) + s.posts;
  }

  /**
   * One unfolding of the work loop: a run that has posted `done` so far and
   * is about to iterate on `w` continues as the iteration says.
   */
  lemma DeframeStep(target: Scan, done: seq<Post>, w: seq<Byte>, next: nat, numOutputs: nat,
                    extractLabel: Object -> Option<Label>, it: Iteration)
    requires |w| >= MIN_PKT_BYTES && it == Iterate(w, next, numOutputs, extractLabel)
    requires target == Then(done, Deframe(w, next, numOutputs, extractLabel))
    ensures it.Slide? ==> target == Then(done, Deframe(w[1..], next, numOutputs, extractLabel))
    ensures it.Wait? ==> target == Then(done, Scan([], w, next, None))
    ensures it.Refuse? ==> target == Then(done, Scan([], w, next, Some(it.fault)))
    ensures it.Consume? ==> target == Then(done + [it.post], Deframe(w[it.advance..], it.next, numOutputs, extractLabel))
  {
    if it.Consume? {
      ThenThen(done, [it.post], Deframe(w[it.advance..], it.next, numOutputs, extractLabel));
    }
  }

  /** Advancing a window by `k` bytes drops its first `k` bytes. */
  lemma SliceAdvance(s: seq<Byte>, a: nat, n: nat, k: nat)
    requires a + n <= |s| && k <= n
    ensures s[a + k..a + n] == s[a..a + n][k..]
  {
  }

  /** The `Deserializer` block: its accumulator, its counter and what it has posted. */
  class Deserializer {
    /** `outputs().size()`: the constructor sets up one output port. */
    const numOutputs: nat
    /** `Object::extract<Label>` on a deserialized payload; `None` when it does not hold a label. */
    const extractLabel: Object -> Option<Label>

    /** `_accumulator`: the underlying buffer and the window `address`, `length` into it. */
    var buffer: seq<Byte>
    var address: nat
    var length: nat
    /** `_nextExpectedIndex`. */
    var nextExpectedIndex: nat
    /** Everything posted to the output ports, in order. */
    var posts: seq<Post>
    /** Bytes consumed from input port 0. */
    var consumedBytes: nat

    /** The window lies inside the buffer. */
    ghost predicate InBuffer()
      reads this`buffer, this`address, this`length
    {
      address + length <= |buffer|
    }

    ghost predicate Valid()
      reads this
    {
      InBuffer() && nextExpectedIndex < U64_LIMIT
    }

    function Window(): seq<Byte>
      reads this`buffer, this`address, this`length
      requires InBuffer()
    {
      buffer[address..address + length]
    }

    constructor(extractLabel: Object -> Option<Label>)
      ensures Valid()
      ensures numOutputs == 1 && this.extractLabel == extractLabel
      ensures Window() == [] && nextExpectedIndex == 0 && posts == [] && consumedBytes == 0
    {
      numOutputs := 1;
      this.extractLabel := extractLabel;
      buffer := [];
      address := 0;
      length := 0;
      nextExpectedIndex := 0;
      posts := [];
      consumedBytes := 0;
    }

    /** `address += n; length -= n` on the accumulator: drop its first `n` bytes. */
    method Advance(n: nat)
      requires InBuffer() && n <= length
      modifies this`address, this`length
      ensures InBuffer() && length == old(length) - n
      ensures Window() == old(Window())[n..]
    {
      var nextAddress, nextLength := address + n, length - n;
      SliceAdvance(buffer, address, length, n);
      address, length := nextAddress, nextLength;
    }

    /**
     * `handlePacket` on the accumulator, which starts with a whole packet;
     * `r` reports what was posted or why the packet was refused.
     */
    method HandlePacket(packet: seq<Byte>) returns (r: Result<Handled, Fault>)
      requires |packet| >= MIN_PKT_BYTES && nextExpectedIndex < U64_LIMIT
      modifies this`nextExpectedIndex, this`posts
      ensures nextExpectedIndex < U64_LIMIT
      ensures r == Dispatch(packet, old(nextExpectedIndex), numOutputs, extractLabel)
      ensures r.Failure? ==> posts == old(posts) && nextExpectedIndex == old(nextExpectedIndex)
      ensures r.Success? ==> posts == old(posts) + [r.value.post] && nextExpectedIndex == r.value.next
    {
      ghost var d := Dispatch(packet, nextExpectedIndex, numOutputs, extractLabel);
      var unpacked := UnpackBufferChecked(packet);
      if unpacked.Failure? {
        assert d == Failure(unpacked.error);
        return Failure(unpacked.error);
      }
      var u := unpacked.value;
      if u.sid >= numOutputs {
        assert d == Failure(SidOutOfRange(u.sid));
        return Failure(SidOutOfRange(u.sid));
      }
      var payload := packet[u.payloadOffset..u.payloadOffset + u.payloadLength];
      if !u.isExt {
        nextExpectedIndex := Add64(u.tsf, u.payloadLength);
        r := Success(Handled(BufferPost(u.sid, payload), nextExpectedIndex));
        assert r == d;
      } else if u.hasTsf {
        match extractLabel(payload)
        case None =>
          assert d == Failure(NotALabel);
          return Failure(NotALabel);
        case Some(lbl) =>
          var tagged := Label(lbl.data, Sub64(u.tsf, nextExpectedIndex));
          r := Success(Handled(LabelPost(u.sid, tagged), nextExpectedIndex));
          assert r == d;
      } else {
        r := Success(Handled(MessagePost(u.sid, payload), nextExpectedIndex));
        assert r == d;
      }
      posts := posts + [r.value.post];
    }

    /**
     * The body of the work loop once `inspectPacket` has found a whole
     * packet of `k` bytes at the head of the accumulator: handle it and
     * advance past it, or leave the accumulator where it is when it is refused.
     */
    method Take(k: nat) returns (it: Iteration)
      requires Valid() && length >= MIN_PKT_BYTES
      requires InspectPacketChecked(Window()) == Inspection(true, false, k)
      modifies this`address, this`length, this`nextExpectedIndex, this`posts
      ensures Valid() && buffer == old(buffer)
      ensures it == Iterate(old(Window()), old(nextExpectedIndex), numOutputs, extractLabel)
      ensures it.Consume? ==>
        length == old(length) - it.advance && Window() == old(Window())[it.advance..]
        && posts == old(posts) + [it.post] && nextExpectedIndex == it.next
      ensures it.Refuse? ==>
        address == old(address) && length == old(length)
        && posts == old(posts) && nextExpectedIndex == old(nextExpectedIndex)
    {
      var packet := buffer[address..address + length];
      assert packet == Window();
      ghost var next0 := nextExpectedIndex;
      var r := HandlePacket(packet);
      IterateWhole(packet, next0, numOutputs, extractLabel, k, r);
      if r.Failure? {
        return Refuse(r.error);
      }
      Advance(k);
      it := Consume(r.value.post, k, r.value.next);
    }

    /**
     * One iteration of the work loop: slide one byte past garbage, stop on
     * a fragment or a refused packet, or handle a whole packet and advance
     * by its declared length.
     */
    method Step() returns (it: Iteration)
      requires Valid() && length >= MIN_PKT_BYTES
      modifies this`address, this`length, this`nextExpectedIndex, this`posts
      ensures Valid() && buffer == old(buffer)
      ensures it == Iterate(old(Window()), old(nextExpectedIndex), numOutputs, extractLabel)
      ensures it.Slide? ==>
        length == old(length) - 1 && Window() == old(Window())[1..]
        && posts == old(posts) && nextExpectedIndex == old(nextExpectedIndex)
      ensures it.Consume? ==>
        length == old(length) - it.advance && Window() == old(Window())[it.advance..]
        && posts == old(posts) + [it.post] && nextExpectedIndex == it.next
      ensures it.Wait? || it.Refuse? ==>
        address == old(address) && length == old(length)
        && posts == old(posts) && nextExpectedIndex == old(nextExpectedIndex)
    {
      var packet := buffer[address..address + length];
      assert packet == Window();
      var ins := InspectPacketChecked(packet);
      IterateInspected(packet, nextExpectedIndex, numOutputs, extractLabel);
      if !ins.valid {
        Advance(1);
        return Slide;
      }
      if ins.isFragment {
        return Wait;
      }
      it := Take(ins.pktBytes);
    }

    /**
     * The resynchronising loop of `work` on the accumulator as it stands.
     * A fault is the exception that leaves `work` with the accumulator
     * still at the offending packet.
     */
    method Drain() returns (r: Result<(), Fault>)
      requires Valid()
      modifies this`address, this`length, this`nextExpectedIndex, this`posts
      ensures Valid() && buffer == old(buffer)
      ensures var s := Deframe(old(Window()), old(nextExpectedIndex), numOutputs, extractLabel);
        posts == old(posts) + s.posts && nextExpectedIndex == s.next && Window() == s.rest
        && (if s.fault.None? then r.Success? else r == Failure(s.fault.value))
    {
      ghost var target := Deframe(Window(), nextExpectedIndex, numOutputs, extractLabel);
      ghost var done: seq<Post> := [];
      ghost var rest := Window();
      while length >= MIN_PKT_BYTES
        invariant Valid() && buffer == old(buffer) && rest == Window()
        invariant posts == old(posts) + done
        invariant target == Then(done, Deframe(rest, nextExpectedIndex, numOutputs, extractLabel))
        decreases length
      {
        ghost var w := rest;
        ghost var next0 := nextExpectedIndex;
        var it := Step();
        DeframeStep(target, done, w, next0, numOutputs, extractLabel, it);
        if it.Wait? {
          return Success(());
        } else if it.Refuse? {
          return Failure(it.fault);
        } else if it.Slide? {
          rest := w[1..];
        } else {
          done := done + [it.post];
          rest := w[it.advance..];
        }
      }
      return Success(());
    }

    /**
     * `work`: consume the whole input, append it to the accumulator, run
     * the resynchronising loop, and drop the buffer once nothing is left.
     */
    method Work(incoming: seq<Byte>) returns (r: Result<(), Fault>)
      requires Valid()
      modifies this
      ensures Valid()
      ensures consumedBytes == old(consumedBytes) + |incoming|
      ensures var s := Deframe(old(Window()) + incoming, old(nextExpectedIndex), numOutputs, extractLabel);
        posts == old(posts) + s.posts && nextExpectedIndex == s.next && Window() == s.rest
        && (if s.fault.None? then r.Success? else r == Failure(s.fault.value))
      ensures Window() == [] ==> buffer == [] && address == 0
    {
      consumedBytes := consumedBytes + |incoming|;
      buffer := buffer[address..address + length] + incoming;
      address := 0;
      length := |buffer|;
      assert Window() == old(Window()) + incoming;
      r := Drain();
      if length == 0 {
        buffer := [];
        address := 0;
      }
    }
  }
}
