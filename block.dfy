/**
 * The sequential helpers of `Pothos::Block`: label propagation from an
 * input to every output, the name-to-callable registry and its lookups,
 * the signal lookup of `emitSignalArgs`, the numeric port-setup
 * overloads, `yield`, and the weakly cached framework that all blocks
 * share.
 *
 * The worker actor is reduced to what these helpers touch: its output
 * ports, the names of allocated ports and slots, the `workBump` flag and
 * the call messages sent to it. A callable is an arity plus a function
 * standing for its `opaqueCall`.
 */
module Blocks {
  import opened Common

  /** An output port as seen by the block helpers. */
  class OutputPort {
    /** `totalElements()`: the elements produced so far. */
    var totalElements: nat
    /** The labels posted with `postLabel`, in order. */
    var labels: seq<Label>
    /** Whether the port was allocated as a signal. */
    var isSignal: bool
    /** The messages posted with `postMessage`: each is an argument list. */
    var messages: seq<seq<Object>>

    constructor (produced: nat, signal: bool)
      ensures totalElements == produced && isSignal == signal
      ensures labels == [] && messages == []
    {
      totalElements := produced;
      labels := [];
      isSignal := signal;
      messages := [];
    }

    method PostLabel(lab: Label)
      modifies this
      ensures labels == old(labels) + [lab]
      ensures totalElements == old(totalElements) && isSignal == old(isSignal)
      ensures messages == old(messages)
    {
      labels := labels + [lab];
    }

    method PostMessage(message: seq<Object>)
      modifies this
      ensures messages == old(messages) + [message]
      ensures totalElements == old(totalElements) && isSignal == old(isSignal)
      ensures labels == old(labels)
    {
      messages := messages + [message];
    }
  }

  /**
   * A label moved from an input that has consumed `consumed` elements to
   * an output that has produced `produced`: `index += produced` then
   * `index -= consumed`, both in 64-bit unsigned arithmetic.
   */
  function Rebase(lab: Label, produced: nat, consumed: nat): (r: Label)
    requires lab.index < U64_LIMIT && produced < U64_LIMIT && consumed < U64_LIMIT
    ensures r.data == lab.data && r.index < U64_LIMIT
    ensures (r.index + consumed) % U64_LIMIT == (lab.index + produced) % U64_LIMIT
    ensures consumed <= lab.index + produced < U64_LIMIT ==>
      r.index == lab.index + produced - consumed
  {
    var sum := Add64(lab.index, produced);
    var r := Label(lab.data, Sub64(sum, consumed));
    assert (r.index + consumed) % U64_LIMIT == sum % U64_LIMIT;
    r
  }

  /** The labels one output receives from one call of `propagateLabels`. */
  function RebaseAll(labels: seq<Label>, produced: nat, consumed: nat): (r: seq<Label>)
    requires forall k :: 0 <= k < |labels| ==> labels[k].index < U64_LIMIT
    requires produced < U64_LIMIT && consumed < U64_LIMIT
    ensures |r| == |labels|
    ensures forall k :: 0 <= k < |r| ==> r[k] == Rebase(labels[k], produced, consumed)
  {
    seq(|labels|, k requires 0 <= k < |labels| => Rebase(labels[k], produced, consumed))
  }

  /**
   * Rebasing keeps each label at the same distance from the end of the
   * stream: relative to the produced count it sits where it sat
   * relative to the consumed count, and labels keep their order.
   */
  lemma RebaseKeepsOffsets(labels: seq<Label>, produced: nat, consumed: nat)
    requires forall k :: 0 <= k < |labels| ==> labels[k].index <= consumed
    requires produced < U64_LIMIT && consumed < U64_LIMIT && consumed <= produced
    ensures forall k :: 0 <= k < |labels| ==>
      RebaseAll(labels, produced, consumed)[k].index == produced - (consumed - labels[k].index)
    ensures forall k, m :: 0 <= k < m < |labels| && labels[k].index <= labels[m].index ==>
      RebaseAll(labels, produced, consumed)[k].index <= RebaseAll(labels, produced, consumed)[m].index
  {
    var r := RebaseAll(labels, produced, consumed);
    forall k | 0 <= k < |labels|
      ensures r[k].index == produced - (consumed - labels[k].index)
    {
      assert r[k] == Rebase(labels[k], produced, consumed);
    }
  }

  /**
   * `propagateLabels`: every label of the input, in order, is posted to
   * every output with its index rebased against that output's produced
   * count. The debug assertion that each label index is at most the
   * consumed count is a precondition.
   */
  method PropagateLabels(labels: seq<Label>, consumed: nat, outputs: seq<OutputPort>)
    requires forall k :: 0 <= k < |labels| ==> labels[k].index <= consumed
    requires consumed < U64_LIMIT
    requires forall j :: 0 <= j < |outputs| ==> outputs[j].totalElements < U64_LIMIT
    requires forall i, j :: 0 <= i < j < |outputs| ==> outputs[i] != outputs[j]
    modifies set o | o in outputs
    ensures forall j :: 0 <= j < |outputs| ==>
      outputs[j].labels
        == old(outputs[j].labels) + RebaseAll(labels, old(outputs[j].totalElements), consumed)
    ensures forall j :: 0 <= j < |outputs| ==>
      && outputs[j].totalElements == old(outputs[j].totalElements)
      && outputs[j].isSignal == old(outputs[j].isSignal)
      && outputs[j].messages == old(outputs[j].messages)
  {
    var j := 0;
    while j < |outputs|
      invariant 0 <= j <= |outputs|
      invariant forall m :: 0 <= m < j ==>
        outputs[m].labels
          == old(outputs[m].labels) + RebaseAll(labels, old(outputs[m].totalElements), consumed)
      invariant forall m :: j <= m < |outputs| ==> outputs[m].labels == old(outputs[m].labels)
      invariant forall m :: 0 <= m < |outputs| ==>
        && outputs[m].totalElements == old(outputs[m].totalElements)
        && outputs[m].isSignal == old(outputs[m].isSignal)
        && outputs[m].messages == old(outputs[m].messages)
    {
      var output := outputs[j];
      var produced := output.totalElements;
      var before := output.labels;
      var k := 0;
      while k < |labels|
        invariant 0 <= k <= |labels|
        invariant output.totalElements == produced
        invariant output.labels == before + RebaseAll(labels[..k], produced, consumed)
        invariant output.isSignal == old(output.isSignal) && output.messages == old(output.messages)
        modifies output
      {
        var lab := labels[k];
        assert RebaseAll(labels[..k + 1], produced, consumed)
          == RebaseAll(labels[..k], produced, consumed) + [Rebase(lab, produced, consumed)];
        output.PostLabel(Rebase(lab, produced, consumed));
        k := k + 1;
      }
      assert labels[..k] == labels;
      j := j + 1;
    }
  }

  /** Why a call or an emission was refused. */
  datatype CallError =
    | BlockCallNotFound(name: string)
    | CallFailed(reason: string)

  /** A registered callable: its arity and what calling it opaquely returns. */
  datatype Callable = Callable(numArgs: nat, invoke: seq<Object> -> Result<Object, CallError>)

  /** `opaqueCallHandler`: look the name up and call it, or report it missing. */
  function CallHandler(calls: map<string, Callable>, name: string, args: seq<Object>)
    : (r: Result<Object, CallError>)
    ensures name !in calls ==> r == Failure(BlockCallNotFound(name))
    ensures name in calls ==> r == calls[name].invoke(args)
  {
    if name !in calls then Failure(BlockCallNotFound(name))
    else calls[name].invoke(args)
  }

  /** The last registration of a name decides what calling it does; other names are unaffected. */
  lemma CallAfterRegister(calls: map<string, Callable>, name: string, call: Callable,
                          other: string, args: seq<Object>)
    ensures CallHandler(calls[name := call], name, args) == call.invoke(args)
    ensures other != name ==> CallHandler(calls[name := call], other, args) == CallHandler(calls, other, args)
  {
  }

  /** One decimal digit. */
  function DigitChar(d: nat): (c: char)
    requires d < 10
    ensures '0' <= c <= '9' && (c as int) - ('0' as int) == d
  {
    (('0' as int) + d) as char
  }

  /** `std::to_string` on a `size_t`: the shortest decimal spelling. */
  function NatToString(n: nat): (s: string)
    ensures 1 <= |s|
    ensures forall i :: 0 <= i < |s| ==> '0' <= s[i] <= '9'
    ensures s[0] == '0' ==> n == 0 && |s| == 1
    decreases n
  {
    if n < 10 then [DigitChar(n)]
    else NatToString(n / 10) + [DigitChar(n % 10)]
  }

  /** Reads a decimal spelling back. */
  function ParseDecimal(s: string): nat
    requires forall i :: 0 <= i < |s| ==> '0' <= s[i] <= '9'
  {
    if s == [] then 0
    else ParseDecimal(s[..|s| - 1]) * 10 + ((s[|s| - 1] as int) - ('0' as int))
  }

  /** The decimal spelling of an index reads back as that index. */
  lemma {:induction false} ParseNatToString(n: nat)
    ensures ParseDecimal(NatToString(n)) == n
    decreases n
  {
    var s := NatToString(n);
    if n >= 10 {
      ParseNatToString(n / 10);
      assert s[..|s| - 1] == NatToString(n / 10);
    }
  }

  /** Distinct indices name distinct ports. */
  lemma NatToStringInjective(a: nat, b: nat)
    ensures NatToString(a) == NatToString(b) ==> a == b
  {
    ParseNatToString(a);
    ParseNatToString(b);
  }

  /** Where and how a port was allocated. */
  datatype PortSetup = PortSetup(dtype: DType, domain: string)

  class Block {
    /** `_calls`. */
    var calls: map<string, Callable>
    /** The slot names allocated on the actor. */
    var slots: set<string>
    /** The input ports allocated on the actor, by name. */
    var inputs: map<string, PortSetup>
    /**
     * The type and domain `setupOutput` asked the actor to allocate each
     * output port with, by name. Kept apart from `outputs`: the actor
     * builds the port objects, which is not part of this model.
     */
    var outputSetups: map<string, PortSetup>
    /**
     * The actor's output port objects, signals included, by name: what
     * `emitSignalArgs` looks up. Nothing here ties them to `outputSetups`.
     */
    var outputs: map<string, OutputPort>
    /** `_actor->workBump`. */
    var workBump: bool
    /** The names of the call messages sent to the actor, in order. */
    var sentCalls: seq<string>

    constructor ()
      ensures calls == map[] && slots == {} && inputs == map[] && outputSetups == map[]
      ensures outputs == map[] && !workBump && sentCalls == []
    {
      calls := map[];
      slots := {};
      inputs := map[];
      outputSetups := map[];
      outputs := map[];
      workBump := false;
      sentCalls := [];
    }

    /** `registerCallable`: store or overwrite, and allocate a slot for a callable with arguments. */
    method RegisterCallable(name: string, call: Callable)
      modifies this
      ensures calls == old(calls)[name := call]
      ensures slots == if call.numArgs > 0 then old(slots) + {name} else old(slots)
      ensures inputs == old(inputs) && outputSetups == old(outputSetups) && outputs == old(outputs)
      ensures workBump == old(workBump) && sentCalls == old(sentCalls)
    {
      calls := calls[name := call];
      if call.numArgs > 0 {
        RegisterSlot(name);
      }
    }

    /** `registerSlot`: allocate a slot on the actor. */
    method RegisterSlot(name: string)
      modifies this
      ensures slots == old(slots) + {name}
      ensures calls == old(calls) && inputs == old(inputs) && outputSetups == old(outputSetups)
      ensures outputs == old(outputs) && workBump == old(workBump) && sentCalls == old(sentCalls)
    {
      slots := slots + {name};
    }

    /**
     * `opaqueCall`: an unregistered name fails before any message is
     * sent; otherwise one call message goes to the actor, which answers
     * with the handler's result.
     */
    method OpaqueCall(name: string, args: seq<Object>) returns (r: Result<Object, CallError>)
      modifies this
      ensures r == CallHandler(calls, name, args)
      ensures sentCalls == if name in calls then old(sentCalls) + [name] else old(sentCalls)
      ensures calls == old(calls) && slots == old(slots) && inputs == old(inputs)
      ensures outputSetups == old(outputSetups) && outputs == old(outputs) && workBump == old(workBump)
    {
      if name !in calls {
        return Failure(BlockCallNotFound(name));
      }
      sentCalls := sentCalls + [name];
      r := CallHandler(calls, name, args);
    }

    /**
     * `emitSignalArgs`: the name must be an output that is a signal; it
     * then receives exactly one message, the argument list.
     */
    method EmitSignalArgs(name: string, args: seq<Object>) returns (r: Result<(), CallError>)
      modifies if name in outputs then {outputs[name]} else {}
      ensures r.Failure? <==> name !in outputs || !outputs[name].isSignal
      ensures r.Failure? ==> r.error == BlockCallNotFound(name)
      ensures name in outputs ==>
        && outputs[name].messages
             == (if r.Success? then old(outputs[name].messages) + [args] else old(outputs[name].messages))
        && outputs[name].labels == old(outputs[name].labels)
        && outputs[name].totalElements == old(outputs[name].totalElements)
        && outputs[name].isSignal == old(outputs[name].isSignal)
    {
      if name !in outputs || !outputs[name].isSignal {
        return Failure(BlockCallNotFound(name));
      }
      outputs[name].PostMessage(args);
      r := Success(());
    }

    /** `setupInput` by name. */
    method SetupInput(name: string, dtype: DType, domain: string)
      modifies this
      ensures inputs == old(inputs)[name := PortSetup(dtype, domain)]
      ensures calls == old(calls) && slots == old(slots) && outputSetups == old(outputSetups)
      ensures outputs == old(outputs) && workBump == old(workBump) && sentCalls == old(sentCalls)
    {
      inputs := inputs[name := PortSetup(dtype, domain)];
    }

    /** `setupInput` by index: the same port named by the index's decimal spelling. */
    method SetupInputIndex(index: nat, dtype: DType, domain: string)
      modifies this
      ensures inputs == old(inputs)[NatToString(index) := PortSetup(dtype, domain)]
      ensures calls == old(calls) && slots == old(slots) && outputSetups == old(outputSetups)
      ensures outputs == old(outputs) && workBump == old(workBump) && sentCalls == old(sentCalls)
    {
      SetupInput(NatToString(index), dtype, domain);
    }

    /** `setupOutput` by name. */
    method SetupOutput(name: string, dtype: DType, domain: string)
      modifies this
      ensures outputSetups == old(outputSetups)[name := PortSetup(dtype, domain)]
      ensures calls == old(calls) && slots == old(slots) && inputs == old(inputs)
      ensures outputs == old(outputs) && workBump == old(workBump) && sentCalls == old(sentCalls)
    {
      outputSetups := outputSetups[name := PortSetup(dtype, domain)];
    }

    /** `setupOutput` by index. */
    method SetupOutputIndex(index: nat, dtype: DType, domain: string)
      modifies this
      ensures outputSetups == old(outputSetups)[NatToString(index) := PortSetup(dtype, domain)]
      ensures calls == old(calls) && slots == old(slots) && inputs == old(inputs)
      ensures outputs == old(outputs) && workBump == old(workBump) && sentCalls == old(sentCalls)
    {
      SetupOutput(NatToString(index), dtype, domain);
    }

    /** `yield`: ask the actor to call `work` again. */
    method Yield()
      modifies this
      ensures workBump
      ensures calls == old(calls) && slots == old(slots) && inputs == old(inputs)
      ensures outputSetups == old(outputSetups) && outputs == old(outputs) && sentCalls == old(sentCalls)
    {
      workBump := true;
    }
  }

  /**
   * The static weak pointer of `getGlobalFramework` and the frameworks
   * it has handed out. Frameworks are numbered in creation order; a
   * framework is alive while it has shared holders.
   */
  class FrameworkCache {
    /** What `weakFramework` refers to, if anything was ever stored. */
    var cached: Option<nat>
    /** The number of shared holders of each framework created so far. */
    var holders: seq<nat>

    /** Only the cached framework can be alive: every block shares one framework. */
    ghost predicate Valid()
      reads this
    {
      && (cached.Some? ==> cached.value < |holders|)
      && forall id :: 0 <= id < |holders| && holders[id] > 0 ==> cached == Some(id)
    }

    /** Whether the weak pointer still locks. */
    predicate Alive()
      reads this
    {
      cached.Some? && cached.value < |holders| && holders[cached.value] > 0
    }

    constructor ()
      ensures Valid() && cached == None && holders == []
    {
      cached := None;
      holders := [];
    }

    /**
     * `getGlobalFramework`: the cached framework while it is alive, a new
     * one otherwise; the caller becomes one more holder and the cache
     * refers to the returned framework.
     */
    method GetGlobalFramework() returns (framework: nat)
      requires Valid()
      modifies this
      ensures Valid()
      ensures cached == Some(framework)
      ensures old(Alive()) ==> framework == old(cached.value) && |holders| == |old(holders)|
      ensures !old(Alive()) ==> framework == |old(holders)| && |holders| == |old(holders)| + 1
      ensures holders[framework] == (if old(Alive()) then old(holders[framework]) else 0) + 1
      ensures forall id :: 0 <= id < |old(holders)| && id != framework ==> holders[id] == old(holders[id])
    {
      if Alive() {
        framework := cached.value;
        holders := holders[framework := holders[framework] + 1];
      } else {
        framework := |holders|;
        holders := holders + [1];
      }
      cached := Some(framework);
    }

    /** A block holding `framework` is destroyed. */
    method Drop(framework: nat)
      requires Valid() && framework < |holders| && holders[framework] > 0
      modifies this
      ensures Valid()
      ensures cached == old(cached)
      ensures holders == old(holders)[framework := old(holders[framework]) - 1]
    {
      holders := holders[framework := holders[framework] - 1];
    }
  }
}
