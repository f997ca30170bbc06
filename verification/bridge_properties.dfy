/** What handling a message promises about the order and the outcome of its effects. */
module BridgeProperties {
  import opened Wrappers
  import opened JsValues
  import opened Commands
  import opened NowPlaying
  import opened Bridge

  /** The action, when there is one, comes before the emission attempt. */
  lemma ActionPrecedesEmission(parse: string -> JsNum, command: string, socket: Socket, after: Player)
    ensures forall i :: 0 <= i < |Handle(parse, command, socket, after)| - 1 ==>
              Handle(parse, command, socket, after)[i].Perform?
  {
  }

  /** While the socket is null or not open, handling a message sends nothing. */
  lemma ClosedSocketSendsNothing(parse: string -> JsNum, command: string, socket: Socket, after: Player)
    requires !IsOpen(socket)
    ensures forall e :: e in Handle(parse, command, socket, after) ==> !(e.EmitAttempt? && e.sent.Some?)
  {
  }

  /** An unknown message performs nothing but is still followed by an emission attempt. */
  lemma UnknownOnlyEmits(parse: string -> JsNum, command: string, socket: Socket, after: Player)
    requires forall c :: command != Word(c)
    requires !(PositionPrefix <= command) && !(VolumePrefix <= command)
    ensures Handle(parse, command, socket, after) == [EmitAttempt(Emit(socket, after))]
  {
  }

  /** A command word performs its service call and then emits the record of the player afterwards. */
  lemma WordPerformsThenEmits(parse: string -> JsNum, c: Control, socket: Socket, after: Player)
    requires IsOpen(socket)
    ensures Handle(parse, Word(c), socket, after) == [Perform(Invoke(c)), EmitAttempt(Some(BuildInfo(after)))]
  {
  }
}
