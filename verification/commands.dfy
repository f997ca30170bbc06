/**
 The WebNowPlaying command decoder of the Cider bridge: one inbound text message
 becomes at most one playback action. Eight bare command words are matched exactly
 (case-sensitive, untrimmed); two argument-bearing commands are recognised by a
 prefix that includes its trailing space, and their argument is the second piece of
 the message split at single spaces, read with `parseFloat`.

 `parseFloat` is not modelled: every decoding function takes it as the parameter
 `parse`, a total map from text to a JavaScript number (NaN when nothing parses).
 */
module Commands {
  import opened Wrappers
  import opened JsValues
  import opened Text

  /** The argument-free playback-service calls. */
  datatype Control = Play | Pause | PlayPause | Next | Previous | Stop | ToggleRepeat | ToggleShuffle

  /** One playback action: a service call, a seek, or an assignment to the audio volume. */
  datatype Action =
    | Invoke(control: Control)
    | SeekTo(position: JsNum)     // playbackService.seekTo(position), value passed unchanged
    | SetVolume(fraction: JsNum)  // audio.volume = fraction

  const PositionPrefix: string := "SetPosition "
  const VolumePrefix: string := "SetVolume "

  /** The command word the peer sends for each service call. */
  function Word(c: Control): (w: string)
    ensures ' ' !in w
  {
    match c
    case Play => "Play"
    case Pause => "Pause"
    case PlayPause => "PlayPause"
    case Next => "Next"
    case Previous => "Previous"
    case Stop => "Stop"
    case ToggleRepeat => "Repeat"
    case ToggleShuffle => "Shuffle"
  }

  /** The `switch` over the exact command words. */
  function MatchWord(command: string): (r: Option<Control>)
    ensures r.Some? ==> Word(r.value) == command
  {
    if command == "Play" then Some(Play)
    else if command == "Pause" then Some(Pause)
    else if command == "PlayPause" then Some(PlayPause)
    else if command == "Next" then Some(Next)
    else if command == "Previous" then Some(Previous)
    else if command == "Stop" then Some(Stop)
    else if command == "Repeat" then Some(ToggleRepeat)
    else if command == "Shuffle" then Some(ToggleShuffle)
    else None
  }

  /** Every command word is matched, and matched to its own service call. */
  lemma MatchWordOfWord(c: Control)
    ensures MatchWord(Word(c)) == Some(c)
  {
  }

  /** Different service calls have different command words. */
  lemma WordInjective(c: Control, d: Control)
    ensures Word(c) == Word(d) ==> c == d
  {
  }

  /** `command.split(' ')[1]`: the text between the first and the second space. */
  function Argument(command: string): (arg: string)
    requires ' ' in command
    ensures ' ' !in arg
  {
    Split(command)[1]
  }

  /** The decoded action of one inbound message, if any. */
  function Decode(parse: string -> JsNum, command: string): (r: Option<Action>)
    ensures r.Some? && r.value.Invoke? <==> MatchWord(command).Some?
    ensures r.Some? && r.value.Invoke? ==> command == Word(r.value.control)
    ensures r.Some? && r.value.SeekTo? ==>
              PositionPrefix <= command && r.value.position == parse(Argument(command)) && !r.value.position.NaN?
    ensures r.Some? && r.value.SetVolume? ==>
              VolumePrefix <= command && ' ' in command && !parse(Argument(command)).NaN? &&
              r.value.fraction == DivideBy100(parse(Argument(command)))
    ensures MatchWord(command).None? && (PositionPrefix <= command || VolumePrefix <= command) ==>
              ' ' in command && (r.Some? <==> !parse(Argument(command)).NaN?)
    ensures MatchWord(command).None? && !(PositionPrefix <= command) && !(VolumePrefix <= command) ==> r.None?
  {
    match MatchWord(command)
    case Some(c) => Some(Invoke(c))
    case None =>
      if PositionPrefix <= command then
        assert command[|PositionPrefix| - 1] == ' ';
        var position := parse(Argument(command));
        if position.NaN? then None else Some(SeekTo(position))
      else if VolumePrefix <= command then
        assert command[|VolumePrefix| - 1] == ' ';
        var volume := parse(Argument(command));
        if volume.NaN? then None else Some(SetVolume(DivideBy100(volume)))
      else None
  }
}
