/**
 * Inputs on which `inspectPacket` and `unpackBuffer`, as written, read
 * outside the packet or compute a wrapped-around payload length, and what
 * the corrected definitions used by the work loop do with them instead.
 */
module Findings {
  import opened Common
  import opened Words
  import opened Deframer
  import opened Frames

  /**
   * A declared length of zero: `inspectPacket` reads the end word at index
   * `pkt_words32 - 1`, which is -1. The corrected inspection calls it garbage.
   */
  lemma ZeroLengthReadsBeforeStart(p: seq<Byte>)
    requires |p| >= 8 && HasMagic(p) && DeclaredBytes(p) == 0
    ensures ReadsEndWord(p) && EndWordIndex(DeclaredBytes(p)) == -1
    ensures !EndWordInWindow(DeclaredBytes(p), |p|)
    ensures !InspectPacketChecked(p).valid
  {
  }

  /** Fewer than four bytes separate a length from the next multiple of four above it. */
  lemma Mod4Shift(a: nat, m: nat, total: nat)
    requires total == a + 4 * m
    ensures total % 4 == a % 4
  {
  }

  lemma PadUp32Above(n: nat)
    requires n % 4 != 0
    ensures n < PadUp32(n)
  {
  }

  /**
   * A frame whose payload is not a whole number of words, cut right after
   * its declared length: `inspectPacket` does not call it a fragment and
   * reads an end word that reaches past the accumulator. The corrected
   * inspection waits for the padded length.
   */
  lemma PaddingNotArrived(f: Frame)
    requires WellFormed(f) && |f.payload| % 4 != 0
    ensures var p := Encode(f)[..PacketBytes(f)];
      && |p| >= 8 && HasMagic(p) && DeclaredBytes(p) == PacketBytes(f) && |p| == DeclaredBytes(p)
      && ReadsEndWord(p) && !EndWordInWindow(DeclaredBytes(p), |p|)
      && InspectPacketChecked(p) == Inspection(true, true, PacketBytes(f))
  {
    var n := PacketBytes(f);
    EncodeLength(f);
    PrefixRead(f, n);
    var words := HeaderBytes(f) / 4 + 1;
    assert 4 * words == HeaderBytes(f) + 4;
    Mod4Shift(|f.payload|, words, n);
    PadUp32Above(n);
  }

  /** The VITA header of `UnderflowPacket`: size field 2, count 0, only the SID flag. */
  function UnderflowHeader(): Word {
    Pow2Values();
    2 + 0x10_0000 * FromBits(seq(12, i => i + 20 == SID_BIT))
  }

  /**
   * A packet declaring 17 bytes, one byte short of the 16-byte header and
   * 4-byte end word: five words, so the size field 2 matches, with the SID
   * flag set, no timestamp, and `VEND` in word 4.
   */
  function UnderflowPacket(): (p: seq<Byte>)
    ensures |p| == 24
  {
    WordsBytes([MAGIC_WORD, 17, UnderflowHeader(), 0, VEND, 0])
  }

  lemma UnderflowHeaderBits()
    ensures Bit(UnderflowHeader(), SID_BIT) && !Bit(UnderflowHeader(), TSF_BIT)
    ensures !AnyReservedBit(UnderflowHeader())
    ensures UnderflowHeader() % 0x1_0000 == 2 && UnderflowHeader() / 0x1_0000 % 0x10 == 0
  {
    var b := seq(12, i => i + 20 == SID_BIT);
    FlagFieldBit(2, b, SID_BIT);
    FlagFieldBit(2, b, TSF_BIT);
    FlagFieldBit(2, b, 30);
    FlagFieldBit(2, b, 27);
    FlagFieldBit(2, b, 26);
    FlagFieldBit(2, b, 23);
    FlagFieldBit(2, b, 22);
    var flags := FromBits(b);
    Pow2Values();
    assert UnderflowHeader() == 2 + 0x1_0000 * (0x10 * flags);
    Split16(2, 0x10 * flags);
    Split4(0, flags);
  }

  /** The words `UnderflowPacket` holds, followed by anything. */
  lemma UnderflowWords(tail: seq<Byte>)
    ensures var p := UnderflowPacket() + tail;
      && WordAt(p, 1) == 17 && Header(p) == UnderflowHeader() && WordAt(p, 4) == VEND
      && p[..4] == MAGIC
  {
    var ws: seq<Word> := [MAGIC_WORD, 17, UnderflowHeader(), 0, VEND, 0];
    assert WordBytes(MAGIC_WORD) == MAGIC;
    assert UnderflowPacket() + tail == WordBytes(MAGIC_WORD) + (WordsBytes(ws[1..]) + tail);
    WordsBytesAt(ws, tail, 1);
    WordsBytesAt(ws, tail, 2);
    WordsBytesAt(ws, tail, 4);
  }

  /**
   * `UnderflowPacket` passes every check of `unpackBuffer`, which then
   * computes a payload of 2^64 - 3 bytes: `pkt_bytes - 16 - 4` wraps. The
   * corrected unpacking refuses it, and the work loop stops on it.
   */
  lemma PayloadUnderflowExample(tail: seq<Byte>, next: nat, numOutputs: nat, extractLabel: Object -> Option<Label>)
    requires 17 <= MAX_PKT_BYTES
    ensures var p := UnderflowPacket() + tail;
      && InspectPacketChecked(p) == Inspection(true, false, 17)
      && UnpackBuffer(p).Success?
      && UnpackBuffer(p).value.payloadOffset == 16
      && UnpackBuffer(p).value.payloadLength == U64_LIMIT - 3
      && UnpackBufferChecked(p) == Failure(PayloadUnderflow)
      && (|p| >= MIN_PKT_BYTES ==> Iterate(p, next, numOutputs, extractLabel) == Refuse(PayloadUnderflow))
  {
    var p := UnderflowPacket() + tail;
    UnderflowWords(tail);
    UnderflowHeaderBits();
    assert DeclaredBytes(p) == 17 && SeqNumber(p) == 0;
    assert PadUp32(17) == 20;
    UnpackBufferChecks(p);
    if |p| >= MIN_PKT_BYTES {
      IterateWhole(p, next, numOutputs, extractLabel, 17, Dispatch(p, next, numOutputs, extractLabel));
    }
  }
}
