/**
 The inbound-command handler: decode one message, perform the decoded action if any,
 then make exactly one emission attempt. The effects are returned as a trace, in the
 order they happen. The player reading used by the emission is the state after the
 action, which the host supplies.
 */
module Bridge {
  import opened Wrappers
  import opened JsValues
  import opened Commands
  import opened NowPlaying

  /** One observable effect of handling a message. */
  datatype Effect =
    | Perform(action: Action)
    | EmitAttempt(sent: Option<Info>)  // None: the guard suppressed the send

  /** The actions performed in a trace, in order. */
  function Actions(trace: seq<Effect>): seq<Action>
  {
    if trace == [] then []
    else (if trace[0].Perform? then [trace[0].action] else []) + Actions(trace[1..])
  }

  /** How many emission attempts a trace makes. */
  function Emissions(trace: seq<Effect>): nat
  {
    if trace == [] then 0
    else (if trace[0].EmitAttempt? then 1 else 0) + Emissions(trace[1..])
  }

  /** The effects of one inbound message. */
  function Handle(parse: string -> JsNum, command: string, socket: Socket, after: Player): (trace: seq<Effect>)
    ensures Emissions(trace) == 1
    ensures |trace| >= 1 && trace[|trace| - 1] == EmitAttempt(Emit(socket, after))
    ensures |Actions(trace)| <= 1
    ensures Actions(trace) == [] <==> Decode(parse, command).None?
    ensures forall a :: a in Actions(trace) <==> Decode(parse, command) == Some(a)
  {
    var emit := EmitAttempt(Emit(socket, after));
    assert Actions([emit]) == [] && Emissions([emit]) == 1 by {
      assert [emit][1..] == [];
    }
    match Decode(parse, command)
    case Some(a) =>
      assert [Perform(a), emit][1..] == [emit];
      [Perform(a), emit]
    case None => [emit]
  }
}
