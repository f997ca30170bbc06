/**
 What the decoder promises, stated over all messages: the exact command words and
 nothing else decode to service calls; the two argument-bearing forms read only the
 token after their prefix, pass it through unconverted and unclamped, and drop it
 when it is not a number; everything else decodes to nothing.
 */
module CommandProperties {
  import opened Wrappers
  import opened JsValues
  import opened Text
  import opened Commands

  /** A message decodes to a service call exactly when it is that call's command word. */
  lemma DecodeWordIff(parse: string -> JsNum, command: string, c: Control)
    ensures Decode(parse, command) == Some(Invoke(c)) <==> command == Word(c)
  {
  }

  /** Command words are matched case-sensitively and untrimmed. */
  lemma WordsMatchExactly(parse: string -> JsNum)
    ensures Decode(parse, "play") == None
    ensures Decode(parse, "PLAY") == None
    ensures Decode(parse, "Play ") == None
    ensures Decode(parse, " Play") == None
  {
    assert "play"[0] == 'p';
    assert "PLAY"[3] == 'Y';
    assert "Play "[4] == ' ';
    assert " Play"[0] == ' ';
  }

  /** The two prefixes are case-sensitive and need their trailing space. */
  lemma PrefixesMatchExactly(parse: string -> JsNum)
    ensures Decode(parse, "SETVOLUME 50") == None
    ensures Decode(parse, "SetPosition") == None
    ensures Decode(parse, "SetVolume") == None
  {
    assert !(PositionPrefix <= "SETVOLUME 50") by { assert "SETVOLUME 50"[1] != PositionPrefix[1]; }
    assert !(VolumePrefix <= "SETVOLUME 50") by { assert "SETVOLUME 50"[1] != VolumePrefix[1]; }
    assert !(PositionPrefix <= "SetPosition") by { assert |"SetPosition"| < |PositionPrefix|; }
    assert !(VolumePrefix <= "SetPosition") by { assert "SetPosition"[3] != VolumePrefix[3]; }
    assert !(PositionPrefix <= "SetVolume") by { assert |"SetVolume"| < |PositionPrefix|; }
    assert !(VolumePrefix <= "SetVolume") by { assert |"SetVolume"| < |VolumePrefix|; }
    assert MatchWord("SETVOLUME 50").None?;
    assert MatchWord("SetPosition").None?;
    assert MatchWord("SetVolume").None?;
  }

  /** The argument of a prefixed message is the token up to the next space, if any. */
  lemma ArgumentAfterPrefix(word: string, t: string, rest: string)
    requires ' ' !in word && ' ' !in t
    requires rest == [] || rest[0] == ' '
    ensures ' ' in word + " " + t + rest
    ensures Argument(word + " " + t + rest) == t
  {
    var command := word + " " + t + rest;
    assert command[|word|] == ' ';
    assert command == word + " " + (t + rest);
    SplitAfterWord(word, t + rest);
    FirstPiece(t, rest);
  }

  /** `SetPosition <t>` seeks to the parsed number unchanged, or does nothing when it is NaN. */
  lemma {:induction false} DecodeSetPosition(parse: string -> JsNum, t: string, rest: string)
    requires ' ' !in t
    requires rest == [] || rest[0] == ' '
    ensures Decode(parse, PositionPrefix + t + rest) ==
              if parse(t).NaN? then None else Some(SeekTo(parse(t)))
  {
    var command := PositionPrefix + t + rest;
    assert command == "SetPosition" + " " + t + rest;
    ArgumentAfterPrefix("SetPosition", t, rest);
    assert PositionPrefix <= command;
    assert MatchWord(command).None? by {
      assert command[3] == 'P';
    }
  }

  /** `SetVolume <t>` sets the volume to the parsed number divided by 100, or does nothing when it is NaN. */
  lemma {:induction false} DecodeSetVolume(parse: string -> JsNum, t: string, rest: string)
    requires ' ' !in t
    requires rest == [] || rest[0] == ' '
    ensures Decode(parse, VolumePrefix + t + rest) ==
              if parse(t).NaN? then None else Some(SetVolume(DivideBy100(parse(t))))
  {
    var command := VolumePrefix + t + rest;
    assert command == "SetVolume" + " " + t + rest;
    ArgumentAfterPrefix("SetVolume", t, rest);
    assert VolumePrefix <= command;
    assert !(PositionPrefix <= command) by {
      assert command[3] == 'V';
    }
    assert MatchWord(command).None? by {
      assert command[3] == 'V';
    }
  }

  /** Tokens after the `SetPosition` argument are ignored. */
  lemma ExtraPositionTokensIgnored(parse: string -> JsNum, t: string, extra: string)
    requires ' ' !in t
    ensures Decode(parse, PositionPrefix + t + " " + extra) == Decode(parse, PositionPrefix + t)
  {
    DecodeSetPosition(parse, t, " " + extra);
    DecodeSetPosition(parse, t, []);
    assert PositionPrefix + t + " " + extra == PositionPrefix + t + (" " + extra);
    assert PositionPrefix + t + [] == PositionPrefix + t;
  }

  /** Tokens after the `SetVolume` argument are ignored. */
  lemma ExtraVolumeTokensIgnored(parse: string -> JsNum, t: string, extra: string)
    requires ' ' !in t
    ensures Decode(parse, VolumePrefix + t + " " + extra) == Decode(parse, VolumePrefix + t)
  {
    DecodeSetVolume(parse, t, " " + extra);
    DecodeSetVolume(parse, t, []);
    assert VolumePrefix + t + " " + extra == VolumePrefix + t + (" " + extra);
    assert VolumePrefix + t + [] == VolumePrefix + t;
  }

  /** A second space right after the prefix makes the argument empty, so nothing happens. */
  lemma DoubleSpaceDecodesToNothing(parse: string -> JsNum, extra: string)
    requires parse("").NaN?
    ensures Decode(parse, PositionPrefix + " " + extra) == None
    ensures Decode(parse, VolumePrefix + " " + extra) == None
  {
    DecodeSetPosition(parse, [], " " + extra);
    DecodeSetVolume(parse, [], " " + extra);
    assert PositionPrefix + " " + extra == PositionPrefix + [] + (" " + extra);
    assert VolumePrefix + " " + extra == VolumePrefix + [] + (" " + extra);
  }

  /** `SetVolume 150` asks for a volume of 1.5: the value is not clamped. */
  lemma VolumeIsNotClamped(parse: string -> JsNum)
    requires parse("150") == Finite(150.0)
    ensures Decode(parse, "SetVolume 150") == Some(SetVolume(Finite(1.5)))
  {
    DecodeSetVolume(parse, "150", []);
    assert VolumePrefix + "150" + [] == "SetVolume 150";
  }

  /** `SetPosition 5000` seeks to 5000: the parsed value is passed to seekTo unchanged. */
  lemma PositionIsNotConverted(parse: string -> JsNum)
    requires parse("5000") == Finite(5000.0)
    ensures Decode(parse, "SetPosition 5000") == Some(SeekTo(Finite(5000.0)))
  {
    DecodeSetPosition(parse, "5000", []);
    assert PositionPrefix + "5000" + [] == "SetPosition 5000";
  }

  /** A message that is no command word and carries neither prefix decodes to nothing. */
  lemma UnknownDecodesToNothing(parse: string -> JsNum, command: string)
    requires forall c :: command != Word(c)
    requires !(PositionPrefix <= command) && !(VolumePrefix <= command)
    ensures Decode(parse, command) == None
  {
  }
}
