/**
 * One `work` call of the network sink: everything pending on its input
 * port is sent over the packet endpoint, in the fixed order messages,
 * labels, data type change, buffer.
 *
 * The endpoint is an append-only log of the packets sent; whether it is
 * ready is a parameter. The serializer of labels and data types is
 * opaque and given to the sink as a pair of functions.
 */
module NetSink {
  import opened Common

  /** Packet type codes: the ASCII letters 'M', 'L', 'B' and 'D'. */
  const PACKET_MESSAGE: int := 'M' as int
  const PACKET_LABEL: int := 'L' as int
  const PACKET_BUFFER: int := 'B' as int
  const PACKET_DTYPE: int := 'D' as int

  /** One `send` on the endpoint: its type code, its 64-bit index and its payload bytes. */
  datatype Packet = Packet(kind: int, index: nat, payload: seq<Byte>)

  /** The sink's input port, with the accessors `work` uses. */
  class InputPort {
    /** The asynchronous messages waiting, oldest first. */
    var messages: seq<Object>
    /** The inline labels waiting, in the order `labels()` lists them. */
    var labels: seq<Label>
    /** The data type of the available buffer. */
    var bufferDtype: DType
    /** The bytes of the available buffer. */
    var bufferBytes: seq<Byte>
    /** `elements()`: the whole elements in the available buffer. */
    var elements: nat
    /** `totalElements()`: the elements consumed before this call. */
    var totalElements: nat
    /** `totalMessages()`: the messages popped so far. */
    var totalMessages: nat
    /** The elements consumed during this call, applied by the framework after it. */
    var pendingConsume: nat

    constructor (msgs: seq<Object>, labs: seq<Label>, dtype: DType, bytes: seq<Byte>, count: nat)
      ensures messages == msgs && labels == labs && bufferDtype == dtype
      ensures bufferBytes == bytes && elements == count
      ensures totalElements == 0 && totalMessages == 0 && pendingConsume == 0
    {
      messages := msgs;
      labels := labs;
      bufferDtype := dtype;
      bufferBytes := bytes;
      elements := count;
      totalElements := 0;
      totalMessages := 0;
      pendingConsume := 0;
    }

    /** `popMessage`: take the oldest message and count it. */
    method PopMessage() returns (m: Object)
      requires |messages| > 0
      modifies this`messages, this`totalMessages
      ensures m == old(messages[0]) && messages == old(messages[1..])
      ensures totalMessages == old(totalMessages) + 1
    {
      m := messages[0];
      messages := messages[1..];
      totalMessages := totalMessages + 1;
    }

    /** `removeLabel` applied to the first label. */
    method RemoveFirstLabel()
      requires |labels| > 0
      modifies this`labels
      ensures labels == old(labels[1..])
    {
      labels := labels[1..];
    }

    /** `consume`: mark elements as used. */
    method Consume(n: nat)
      modifies this`pendingConsume
      ensures pendingConsume == old(pendingConsume) + n
    {
      pendingConsume := pendingConsume + n;
    }
  }

  /** The message packets for `msgs`, popped after `popped` earlier messages. */
  function MessagePackets(msgs: seq<Object>, popped: nat): (r: seq<Packet>)
    ensures |r| == |msgs|
    decreases |msgs|
  {
    if msgs == [] then []
    else [Packet(PACKET_MESSAGE, popped + 1, msgs[0])] + MessagePackets(msgs[1..], popped + 1)
  }

  /** The k-th message is sent with the count of messages popped once it is popped. */
  lemma {:induction false} MessagePacketsAt(msgs: seq<Object>, popped: nat)
    ensures forall k :: 0 <= k < |msgs| ==>
      MessagePackets(msgs, popped)[k] == Packet(PACKET_MESSAGE, popped + k + 1, msgs[k])
    decreases |msgs|
  {
    if msgs != [] {
      MessagePacketsAt(msgs[1..], popped + 1);
      var r := MessagePackets(msgs, popped);
      forall k | 0 <= k < |msgs| ensures r[k] == Packet(PACKET_MESSAGE, popped + k + 1, msgs[k]) {
        if k > 0 {
          assert r[k] == MessagePackets(msgs[1..], popped + 1)[k - 1];
        }
      }
    }
  }

  /** The label packets: each label moved to the absolute stream index. */
  function LabelPackets(labs: seq<Label>, consumed: nat, encode: Label -> Object): (r: seq<Packet>)
    ensures |r| == |labs|
    decreases |labs|
  {
    if labs == [] then []
    else
      [Packet(PACKET_LABEL, Add64(labs[0].index, consumed), encode(labs[0]))]
        + LabelPackets(labs[1..], consumed, encode)
  }

  /** The k-th label is sent at its index plus the consumed count, wrapping at 64 bits. */
  lemma {:induction false} LabelPacketsAt(labs: seq<Label>, consumed: nat, encode: Label -> Object)
    ensures forall k :: 0 <= k < |labs| ==>
      LabelPackets(labs, consumed, encode)[k]
        == Packet(PACKET_LABEL, Add64(labs[k].index, consumed), encode(labs[k]))
    decreases |labs|
  {
    if labs != [] {
      LabelPacketsAt(labs[1..], consumed, encode);
      var r := LabelPackets(labs, consumed, encode);
      forall k | 0 <= k < |labs|
        ensures r[k] == Packet(PACKET_LABEL, Add64(labs[k].index, consumed), encode(labs[k]))
      {
        if k > 0 {
          assert r[k] == LabelPackets(labs[1..], consumed, encode)[k - 1];
        }
      }
    }
  }

  /**
   * The data packets: nothing for an empty buffer; otherwise a data type
   * packet when the type differs from the last one sent, then the buffer
   * itself at the consumed count.
   */
  function BufferPackets(dtype: DType, bytes: seq<Byte>, lastDtype: DType, messageCount: nat,
                         consumed: nat, encode: DType -> Object): (r: seq<Packet>)
    ensures |bytes| == 0 <==> r == []
    ensures |bytes| > 0 ==> r[|r| - 1] == Packet(PACKET_BUFFER, consumed, bytes)
    ensures |bytes| > 0 && dtype != lastDtype ==>
      r == [Packet(PACKET_DTYPE, messageCount, encode(dtype)), Packet(PACKET_BUFFER, consumed, bytes)]
    ensures |bytes| > 0 && dtype == lastDtype ==> r == [Packet(PACKET_BUFFER, consumed, bytes)]
  {
    if |bytes| == 0 then []
    else
      (if dtype != lastDtype then [Packet(PACKET_DTYPE, messageCount, encode(dtype))] else [])
      + [Packet(PACKET_BUFFER, consumed, bytes)]
  }

  /** Everything one ready `work` call sends, given the port's state when it starts. */
  function CyclePackets(msgs: seq<Object>, labs: seq<Label>, dtype: DType, bytes: seq<Byte>,
                        consumed: nat, popped: nat, lastDtype: DType,
                        encodeLabel: Label -> Object, encodeDType: DType -> Object): seq<Packet>
  {
    MessagePackets(msgs, popped)
      + LabelPackets(labs, consumed, encodeLabel)
      + BufferPackets(dtype, bytes, lastDtype, popped + |msgs|, consumed, encodeDType)
  }

  /** The packets of a cycle, appended part by part to what was sent before. A regrouping of concatenations only; kept as its own lemma so that the proof using it stays small and stable. */
  lemma AppendCycle(start: seq<Packet>, m: seq<Packet>, l: seq<Packet>, b: seq<Packet>, mid: seq<Packet>)
    requires mid == start + m + l
    ensures mid + b == start + (m + l + b)
  {
  }

  /** The position of a packet type in a cycle: messages, labels, data type, buffer. */
  function Rank(kind: int): nat
  {
    if kind == PACKET_MESSAGE then 0
    else if kind == PACKET_LABEL then 1
    else if kind == PACKET_DTYPE then 2
    else 3
  }

  function CountKind(ps: seq<Packet>, kind: int): (n: nat)
    ensures n <= |ps|
  {
    if ps == [] then 0
    else (if ps[0].kind == kind then 1 else 0) + CountKind(ps[1..], kind)
  }

  lemma {:induction false} CountKindAppend(a: seq<Packet>, b: seq<Packet>, kind: int)
    ensures CountKind(a + b, kind) == CountKind(a, kind) + CountKind(b, kind)
    decreases |a|
  {
    if a == [] {
      assert a + b == b;
    } else {
      assert (a + b)[1..] == a[1..] + b;
      CountKindAppend(a[1..], b, kind);
    }
  }

  lemma {:induction false} CountKindUniform(ps: seq<Packet>, kind: int)
    requires forall k :: 0 <= k < |ps| ==> ps[k].kind == kind
    ensures CountKind(ps, kind) == |ps|
    ensures forall other :: other != kind ==> CountKind(ps, other) == 0
    decreases |ps|
  {
    if ps != [] {
      CountKindUniform(ps[1..], kind);
      forall other | other != kind ensures CountKind(ps, other) == 0 {
        assert CountKind(ps[1..], other) == 0;
      }
    }
  }

  /** The counts of a three-part sequence add up part by part. */
  lemma CountKindParts(m: seq<Packet>, l: seq<Packet>, b: seq<Packet>, kind: int)
    ensures CountKind(m + l + b, kind) == CountKind(m, kind) + CountKind(l, kind) + CountKind(b, kind)
  {
    CountKindAppend(m, l, kind);
    CountKindAppend(m + l, b, kind);
  }

  /** The buffer part of a cycle: a data type packet only on a type change, then the buffer. */
  lemma BufferPacketsCounts(dtype: DType, bytes: seq<Byte>, lastDtype: DType, messageCount: nat,
                            consumed: nat, encode: DType -> Object)
    ensures var b := BufferPackets(dtype, bytes, lastDtype, messageCount, consumed, encode);
      && CountKind(b, PACKET_MESSAGE) == 0 && CountKind(b, PACKET_LABEL) == 0
      && CountKind(b, PACKET_BUFFER) == (if |bytes| > 0 then 1 else 0)
      && CountKind(b, PACKET_DTYPE) == (if |bytes| > 0 && dtype != lastDtype then 1 else 0)
  {
    var b := BufferPackets(dtype, bytes, lastDtype, messageCount, consumed, encode);
    if |bytes| > 0 && dtype != lastDtype {
      assert b == [b[0]] + [b[1]];
      CountKindAppend([b[0]], [b[1]], PACKET_MESSAGE);
      CountKindAppend([b[0]], [b[1]], PACKET_LABEL);
      CountKindAppend([b[0]], [b[1]], PACKET_DTYPE);
      CountKindAppend([b[0]], [b[1]], PACKET_BUFFER);
    }
  }

  /** Messages, then labels, then the buffer part: the kinds never go back in rank order. */
  lemma CycleOrder(m: seq<Packet>, l: seq<Packet>, b: seq<Packet>)
    requires forall k :: 0 <= k < |m| ==> m[k].kind == PACKET_MESSAGE
    requires forall k :: 0 <= k < |l| ==> l[k].kind == PACKET_LABEL
    requires forall i, j :: 0 <= i < j < |b| ==> Rank(b[i].kind) <= Rank(b[j].kind)
    requires forall k :: 0 <= k < |b| ==> Rank(b[k].kind) >= 2
    ensures var ps := m + l + b;
      forall i, j :: 0 <= i < j < |ps| ==> Rank(ps[i].kind) <= Rank(ps[j].kind)
  {
    var ps := m + l + b;
    forall i, j | 0 <= i < j < |ps| ensures Rank(ps[i].kind) <= Rank(ps[j].kind) {
      if j < |m| {
        assert ps[i] == m[i] && ps[j] == m[j];
      } else if j < |m| + |l| {
        assert ps[j] == l[j - |m|];
        if i < |m| {
          assert ps[i] == m[i];
        } else {
          assert ps[i] == l[i - |m|];
        }
      } else {
        assert ps[j] == b[j - |m| - |l|];
        if i < |m| {
          assert ps[i] == m[i];
        } else if i < |m| + |l| {
          assert ps[i] == l[i - |m|];
        } else {
          assert ps[i] == b[i - |m| - |l|];
        }
      }
    }
  }

  /** One message packet per message and nothing else. */
  lemma MessagePacketsCounts(msgs: seq<Object>, popped: nat)
    ensures CountKind(MessagePackets(msgs, popped), PACKET_MESSAGE) == |msgs|
    ensures forall other :: other != PACKET_MESSAGE ==> CountKind(MessagePackets(msgs, popped), other) == 0
  {
    MessagePacketsAt(msgs, popped);
    CountKindUniform(MessagePackets(msgs, popped), PACKET_MESSAGE);
  }

  /** One label packet per label and nothing else. */
  lemma LabelPacketsCounts(labs: seq<Label>, consumed: nat, encode: Label -> Object)
    ensures CountKind(LabelPackets(labs, consumed, encode), PACKET_LABEL) == |labs|
    ensures forall other :: other != PACKET_LABEL ==> CountKind(LabelPackets(labs, consumed, encode), other) == 0
  {
    LabelPacketsAt(labs, consumed, encode);
    CountKindUniform(LabelPackets(labs, consumed, encode), PACKET_LABEL);
  }

  /** The kinds of one cycle never go back in rank order: M* L* D? B?. */
  lemma CycleRanks(msgs: seq<Object>, labs: seq<Label>, dtype: DType, bytes: seq<Byte>,
                   consumed: nat, popped: nat, lastDtype: DType,
                   encodeLabel: Label -> Object, encodeDType: DType -> Object)
    ensures var ps := CyclePackets(msgs, labs, dtype, bytes, consumed, popped, lastDtype,
                                   encodeLabel, encodeDType);
      forall i, j :: 0 <= i < j < |ps| ==> Rank(ps[i].kind) <= Rank(ps[j].kind)
  {
    MessagePacketsAt(msgs, popped);
    LabelPacketsAt(labs, consumed, encodeLabel);
    CycleOrder(MessagePackets(msgs, popped), LabelPackets(labs, consumed, encodeLabel),
               BufferPackets(dtype, bytes, lastDtype, popped + |msgs|, consumed, encodeDType));
  }

  /** How many packets of each kind one cycle sends. */
  lemma CycleCounts(msgs: seq<Object>, labs: seq<Label>, dtype: DType, bytes: seq<Byte>,
                    consumed: nat, popped: nat, lastDtype: DType,
                    encodeLabel: Label -> Object, encodeDType: DType -> Object)
    ensures var ps := CyclePackets(msgs, labs, dtype, bytes, consumed, popped, lastDtype,
                                   encodeLabel, encodeDType);
      && CountKind(ps, PACKET_MESSAGE) == |msgs|
      && CountKind(ps, PACKET_LABEL) == |labs|
      && CountKind(ps, PACKET_BUFFER) == (if |bytes| > 0 then 1 else 0)
      && CountKind(ps, PACKET_DTYPE) == (if |bytes| > 0 && dtype != lastDtype then 1 else 0)
  {
    var m := MessagePackets(msgs, popped);
    var l := LabelPackets(labs, consumed, encodeLabel);
    var b := BufferPackets(dtype, bytes, lastDtype, popped + |msgs|, consumed, encodeDType);
    MessagePacketsCounts(msgs, popped);
    LabelPacketsCounts(labs, consumed, encodeLabel);
    BufferPacketsCounts(dtype, bytes, lastDtype, popped + |msgs|, consumed, encodeDType);
    CountKindParts(m, l, b, PACKET_MESSAGE);
    CountKindParts(m, l, b, PACKET_LABEL);
    CountKindParts(m, l, b, PACKET_DTYPE);
    CountKindParts(m, l, b, PACKET_BUFFER);
  }

  /**
   * The shape M* L* D? B? of one cycle: the kinds never go back in
   * rank order, there is one message packet per message and one label
   * packet per label, at most one data type and one buffer packet, and a
   * data type packet only together with a buffer packet.
   */
  lemma CycleShape(msgs: seq<Object>, labs: seq<Label>, dtype: DType, bytes: seq<Byte>,
                   consumed: nat, popped: nat, lastDtype: DType,
                   encodeLabel: Label -> Object, encodeDType: DType -> Object)
    ensures var ps := CyclePackets(msgs, labs, dtype, bytes, consumed, popped, lastDtype,
                                   encodeLabel, encodeDType);
      && (forall i, j :: 0 <= i < j < |ps| ==> Rank(ps[i].kind) <= Rank(ps[j].kind))
      && CountKind(ps, PACKET_MESSAGE) == |msgs|
      && CountKind(ps, PACKET_LABEL) == |labs|
      && CountKind(ps, PACKET_DTYPE) <= CountKind(ps, PACKET_BUFFER) <= 1
      && (CountKind(ps, PACKET_BUFFER) == 1 <==> |bytes| > 0)
      && (CountKind(ps, PACKET_DTYPE) == 1 <==> |bytes| > 0 && dtype != lastDtype)
  {
    CycleRanks(msgs, labs, dtype, bytes, consumed, popped, lastDtype, encodeLabel, encodeDType);
    CycleCounts(msgs, labs, dtype, bytes, consumed, popped, lastDtype, encodeLabel, encodeDType);
  }

  /**
   * The data type memo: once a buffer of some type has gone out, a
   * later buffer of the same type is sent without a data type packet.
   */
  lemma DtypeSentOnce(msgs: seq<Object>, labs: seq<Label>, dtype: DType, bytes: seq<Byte>,
                      consumed: nat, popped: nat,
                      encodeLabel: Label -> Object, encodeDType: DType -> Object)
    ensures CountKind(CyclePackets(msgs, labs, dtype, bytes, consumed, popped, dtype,
                                   encodeLabel, encodeDType), PACKET_DTYPE) == 0
  {
    CycleShape(msgs, labs, dtype, bytes, consumed, popped, dtype, encodeLabel, encodeDType);
  }

  class NetworkSink {
    /** `_lastDtype`: the data type of the last buffer sent. */
    var lastDtype: DType
    /** The packets sent on the endpoint, in order. */
    var sent: seq<Packet>
    /** Whether `yield` asked for another `work` call. */
    var workBump: bool
    /** The opaque serializers of labels and data types. */
    const encodeLabel: Label -> Object
    const encodeDType: DType -> Object

    /** A default-constructed data type is remembered as the last one sent. */
    constructor (labelEncoder: Label -> Object, dtypeEncoder: DType -> Object, initialDtype: DType)
      ensures lastDtype == initialDtype && sent == [] && !workBump
      ensures encodeLabel == labelEncoder && encodeDType == dtypeEncoder
    {
      lastDtype := initialDtype;
      sent := [];
      workBump := false;
      encodeLabel := labelEncoder;
      encodeDType := dtypeEncoder;
    }

    /**
     * `work`: when the endpoint is not ready, only yield. Otherwise send
     * every message, then every label, then (for a non-empty buffer) the
     * data type when it changed and the buffer, and consume the buffer.
     */
    method Work(port: InputPort, ready: bool)
      modifies this, port`messages, port`totalMessages, port`labels, port`pendingConsume
      ensures !ready ==>
        && sent == old(sent) && lastDtype == old(lastDtype) && workBump
        && port.messages == old(port.messages) && port.labels == old(port.labels)
        && port.totalMessages == old(port.totalMessages)
        && port.pendingConsume == old(port.pendingConsume)
      ensures ready ==>
        && sent == old(sent) + CyclePackets(old(port.messages), old(port.labels), port.bufferDtype,
                                            port.bufferBytes, port.totalElements,
                                            old(port.totalMessages), old(lastDtype),
                                            encodeLabel, encodeDType)
        && port.messages == [] && port.labels == []
        && port.totalMessages == old(port.totalMessages) + |old(port.messages)|
        && lastDtype == (if |port.bufferBytes| > 0 then port.bufferDtype else old(lastDtype))
        && port.pendingConsume
             == old(port.pendingConsume) + (if |port.bufferBytes| > 0 then port.elements else 0)
        && workBump == old(workBump)
    {
      if !ready {
        workBump := true;
        return;
      }
      SendCycle(port);
    }

    /** The ready branch of `work`: the messages, the labels, then the buffer part. */
    method SendCycle(port: InputPort)
      modifies this`sent, this`lastDtype, port`messages, port`totalMessages, port`labels, port`pendingConsume
      ensures sent == old(sent) + CyclePackets(old(port.messages), old(port.labels), port.bufferDtype,
                                               port.bufferBytes, port.totalElements,
                                               old(port.totalMessages), old(lastDtype),
                                               encodeLabel, encodeDType)
      ensures port.messages == [] && port.labels == []
      ensures port.totalMessages == old(port.totalMessages) + |old(port.messages)|
      ensures lastDtype == (if |port.bufferBytes| > 0 then port.bufferDtype else old(lastDtype))
      ensures port.pendingConsume
        == old(port.pendingConsume) + (if |port.bufferBytes| > 0 then port.elements else 0)
    {
      ghost var start := sent;
      ghost var m := MessagePackets(port.messages, port.totalMessages);
      ghost var l := LabelPackets(port.labels, port.totalElements, encodeLabel);
      ghost var b := BufferPackets(port.bufferDtype, port.bufferBytes, lastDtype,
                                   port.totalMessages + |port.messages|, port.totalElements,
                                   encodeDType);
      ghost var popped := port.totalMessages + |port.messages|;
      ghost var dtype, bytes, consumed, last := port.bufferDtype, port.bufferBytes, port.totalElements, lastDtype;
      SendMessages(port);
      assert port.bufferDtype == dtype && port.bufferBytes == bytes && port.totalElements == consumed;
      SendLabels(port);
      assert port.bufferDtype == dtype && port.bufferBytes == bytes && port.totalElements == consumed;
      assert lastDtype == last && port.totalMessages == popped;
      ghost var mid := sent;
      SendBuffer(port);
      assert sent == mid + b;
      AppendCycle(start, m, l, b, mid);
    }

    /**
     * The buffer part of `work`: nothing for an empty buffer; otherwise the
     * data type when it changed, then the buffer, which is consumed.
     */
    method SendBuffer(port: InputPort)
      modifies this`sent, this`lastDtype, port`pendingConsume
      ensures sent == old(sent) + BufferPackets(port.bufferDtype, port.bufferBytes, old(lastDtype),
                                                port.totalMessages, port.totalElements, encodeDType)
      ensures lastDtype == (if |port.bufferBytes| > 0 then port.bufferDtype else old(lastDtype))
      ensures port.pendingConsume
        == old(port.pendingConsume) + (if |port.bufferBytes| > 0 then port.elements else 0)
    {
      if |port.bufferBytes| == 0 {
        return;
      }
      if lastDtype != port.bufferDtype {
        sent := sent + [Packet(PACKET_DTYPE, port.totalMessages, encodeDType(port.bufferDtype))];
        lastDtype := port.bufferDtype;
      }
      sent := sent + [Packet(PACKET_BUFFER, port.totalElements, port.bufferBytes)];
      port.Consume(port.elements);
    }

    /** The message loop of `work`: pop and send every waiting message. */
    method SendMessages(port: InputPort)
      modifies this`sent, port`messages, port`totalMessages
      ensures sent == old(sent) + MessagePackets(old(port.messages), old(port.totalMessages))
      ensures port.messages == [] && port.totalMessages == old(port.totalMessages) + |old(port.messages)|
    {
      ghost var msgs := port.messages;
      ghost var popped := port.totalMessages;
      while |port.messages| > 0
        invariant |port.messages| <= |msgs|
        invariant port.messages == msgs[|msgs| - |port.messages|..]
        invariant port.totalMessages == popped + (|msgs| - |port.messages|)
        invariant sent == old(sent) + MessagePackets(msgs[..|msgs| - |port.messages|], popped)
        decreases |port.messages|
      {
        ghost var done := |msgs| - |port.messages|;
        var m := port.PopMessage();
        assert m == msgs[done];
        MessagePacketsSnoc(msgs[..done], msgs[done], popped);
        assert msgs[..done + 1] == msgs[..done] + [msgs[done]];
        sent := sent + [Packet(PACKET_MESSAGE, port.totalMessages, m)];
      }
      assert msgs[..|msgs|] == msgs;
    }

    /** The label loop of `work`: send every label at its absolute index, then drop it. */
    method SendLabels(port: InputPort)
      modifies this`sent, port`labels
      ensures sent == old(sent) + LabelPackets(old(port.labels), old(port.totalElements), encodeLabel)
      ensures port.labels == []
    {
      ghost var labs := port.labels;
      while |port.labels| > 0
        invariant |port.labels| <= |labs|
        invariant port.labels == labs[|labs| - |port.labels|..]
        invariant sent == old(sent) + LabelPackets(labs[..|labs| - |port.labels|],
                                                   port.totalElements, encodeLabel)
        decreases |port.labels|
      {
        ghost var done := |labs| - |port.labels|;
        var lab := port.labels[0];
        assert lab == labs[done];
        var index := Add64(lab.index, port.totalElements);
        LabelPacketsSnoc(labs[..done], lab, port.totalElements, encodeLabel);
        assert labs[..done + 1] == labs[..done] + [lab];
        sent := sent + [Packet(PACKET_LABEL, index, encodeLabel(lab))];
        port.RemoveFirstLabel();
      }
      assert labs[..|labs|] == labs;
    }
  }

  lemma MessagePacketsSnoc(msgs: seq<Object>, m: Object, popped: nat)
    ensures MessagePackets(msgs + [m], popped)
      == MessagePackets(msgs, popped) + [Packet(PACKET_MESSAGE, popped + |msgs| + 1, m)]
  {
    var a := MessagePackets(msgs + [m], popped);
    var b := MessagePackets(msgs, popped) + [Packet(PACKET_MESSAGE, popped + |msgs| + 1, m)];
    MessagePacketsAt(msgs + [m], popped);
    MessagePacketsAt(msgs, popped);
    assert |a| == |b|;
    forall k | 0 <= k < |a| ensures a[k] == b[k] {
      assert (msgs + [m])[k] == if k < |msgs| then msgs[k] else m;
    }
  }

  lemma LabelPacketsSnoc(labs: seq<Label>, lab: Label, consumed: nat, encode: Label -> Object)
    ensures LabelPackets(labs + [lab], consumed, encode)
      == LabelPackets(labs, consumed, encode)
         + [Packet(PACKET_LABEL, Add64(lab.index, consumed), encode(lab))]
  {
    var a := LabelPackets(labs + [lab], consumed, encode);
    var b := LabelPackets(labs, consumed, encode)
      + [Packet(PACKET_LABEL, Add64(lab.index, consumed), encode(lab))];
    LabelPacketsAt(labs + [lab], consumed, encode);
    LabelPacketsAt(labs, consumed, encode);
    assert |a| == |b|;
    forall k | 0 <= k < |a| ensures a[k] == b[k] {
      assert (labs + [lab])[k] == if k < |labs| then labs[k] else lab;
    }
  }
}
