# Cider2WNP bridge core in Dafny

This project models the WebNowPlaying bridge of the Cider2WNP plugin. It covers two parts:

- **Inbound commands.** One text message from the WebNowPlaying peer is decoded into at most one playback action. The handler then makes exactly one attempt to emit the now-playing record.
- **Now-playing emission.** Nothing is sent unless the WebSocket exists and is open. When it is open, the player's fields are mapped totally onto an eleven-field record with fixed defaults.

Everything is pure. The handler returns its effects as a trace of values (`Perform(action)`, then `EmitAttempt(sent)`). The host's `parseFloat` is a function parameter `parse: string -> JsNum` and is never defined, where `JsNum` is a JavaScript number including NaN and the infinities. The player state read after the action is an input.

Modules:

- `Wrappers`: `Option`.
- `JsValues`: JavaScript numbers, truthiness, `a || b`, and `x / 100`.
- `Text`: `split(' ')` and its inverse `Join`.
- `Commands` and `CommandProperties`: the decoder and what it promises.
- `NowPlaying` and `InfoProperties`: the record, the socket guard, and the record's exact image.
- `Bridge` and `BridgeProperties`: the handler.

What the code does, as modelled:

- Command words are mixed case (`Play`, `SetVolume `). They are matched exactly, with no trimming and no case folding.
- `SetPosition` passes the parsed number to `seekTo` unchanged.
- `SetVolume` sets the volume to the parsed number divided by 100, with no clamping, so 150 gives 1.5.
- The emission attempt follows the action immediately.
- A record is built even when no track is loaded, with every default filled in. It is sent as a JSON object.
- `state` is 1 when the player's `playbackState` is 2 and 2 otherwise.
- Reconnection uses a fixed 5000 ms delay with no attempt cap. It is outside this model (see "Left out").

## Model

| member | source | states |
|---|---|---|
| JsValues.Or | src/main.ts:118-124 | `a \|\| b` yields the left operand exactly when it is truthy, else the right one; a truthy default makes the result truthy |
| JsValues.DivideBy100 | src/main.ts:172 | a non-NaN number divided by 100 stays non-NaN, finite values scale exactly, and infinities keep their sign |
| Text.Split | src/main.ts:165 | `split(' ')` yields at least one piece, no piece contains a space, and there is one piece exactly when the text has no space |
| Text.JoinSplit | src/main.ts:165 | gluing the pieces of a split with single spaces gives back the original message |
| Text.SplitJoin | src/main.ts:165 | splitting space-free pieces glued with single spaces gives back the same pieces |
| Text.SplitAfterWord | src/main.ts:164-165 | a space-free word followed by a space splits into that word followed by the pieces of the rest |
| Text.FirstPiece | src/main.ts:165 | the first piece is the text before the first space (or the whole text) |
| Commands.Word | src/main.ts:138-162 | no command word contains a space, so a bare word is always a single token and never an argument-bearing form |
| Commands.MatchWord | src/main.ts:138-162 | the switch matches only the exact command words, each to its own service call |
| Commands.MatchWordOfWord | src/main.ts:138-162 | every one of the eight command words is matched to its own service call |
| Commands.WordInjective | src/main.ts:138-162 | different service calls have different command words, so each word selects one call |
| Commands.Argument | src/main.ts:165 | `command.split(' ')[1]` exists whenever the message has a space and contains no space |
| Commands.Decode | src/main.ts:137-175 | a service call is decoded exactly for an exact command word; a seek only under the `SetPosition ` prefix, to the parsed argument unchanged; a volume only under the `SetVolume ` prefix, as the parsed argument divided by 100; under either prefix an action is decoded exactly when the argument is not NaN; anything else decodes to nothing |
| CommandProperties.DecodeWordIff | src/main.ts:138-162 | a message decodes to a given service call if and only if it is that call's command word |
| CommandProperties.WordsMatchExactly | src/main.ts:138-162 | `play`, `PLAY`, `Play ` and ` Play` decode to nothing: matching is case-sensitive and untrimmed |
| CommandProperties.PrefixesMatchExactly | src/main.ts:164-170 | `SETVOLUME 50`, and `SetPosition` or `SetVolume` without the trailing space, decode to nothing |
| CommandProperties.ArgumentAfterPrefix | src/main.ts:164-170 | for a prefixed message the argument is exactly the token up to the next space, whatever follows |
| CommandProperties.DecodeSetPosition | src/main.ts:164-168 | `SetPosition <t>` seeks to `parse(t)` unchanged, or does nothing when that is NaN |
| CommandProperties.DecodeSetVolume | src/main.ts:169-173 | `SetVolume <t>` sets the volume to `parse(t)/100`, or leaves it untouched when that is NaN |
| CommandProperties.ExtraPositionTokensIgnored | src/main.ts:164-168 | tokens after the `SetPosition` argument do not change the decoded action |
| CommandProperties.ExtraVolumeTokensIgnored | src/main.ts:169-173 | tokens after the `SetVolume` argument do not change the decoded action |
| CommandProperties.DoubleSpaceDecodesToNothing | src/main.ts:164-173 | a double space after a prefix gives an empty argument, and so no action when the empty text parses to NaN |
| CommandProperties.VolumeIsNotClamped | src/main.ts:169-173 | `SetVolume 150` asks for a volume of 1.5 |
| CommandProperties.PositionIsNotConverted | src/main.ts:164-168 | `SetPosition 5000` seeks to 5000, not to 5 |
| CommandProperties.UnknownDecodesToNothing | src/main.ts:163-175 | a message that is no command word and has neither prefix invokes no playback action |
| NowPlaying.ItemField | src/main.ts:118-124 | optional chaining `item?.field` yields the field's value when an item exists and `undefined` when it does not |
| NowPlaying.CoverUrl | src/main.ts:121 | `item?.artwork?.url` is the artwork's url when both the item and its artwork exist, and `undefined` otherwise |
| NowPlaying.BuildInfo | src/main.ts:115-127 | player is `Cider`; state is 1 exactly when `playbackState` is 2 and 2 otherwise; shuffle is 1 exactly when `shuffleMode` is truthy; repeat is passed through; each of title, artist, album, cover, duration, position and rating is the player's value when that is truthy and otherwise its default (`Unknown Title`, `Unknown Artist`, `Unknown Album`, `''`, 0, 0, 0); with no item every item field takes its default |
| NowPlaying.Emit | src/main.ts:100-104 | a record is sent if and only if the socket exists and its ready state is OPEN, and it is the record built from the player |
| InfoProperties.BuildInfoWellFormed | src/main.ts:115-127 | every built record has the fixed name, two-valued codes, non-falsy text fields, and each defaulted field is truthy or its default |
| InfoProperties.BuildInfoOfSnapshot | src/main.ts:115-127 | every well-formed record is built from some reading of the player, so well-formedness is exactly the image of the builder |
| InfoProperties.FalsyNumbersBecomeZero | src/main.ts:123 | a NaN or missing playback time is reported as position 0 |
| InfoProperties.FalsyTextBecomesPlaceholder | src/main.ts:118-120 | for a present item, any falsy title, artist or album (empty, null, undefined, 0, NaN, false) is replaced by its placeholder, each field independently |
| Bridge.Handle | src/main.ts:137-178 | every message gives exactly one emission attempt, made last and guarded by the socket state; at most one action is performed, and it is the decoded one |
| BridgeProperties.ActionPrecedesEmission | src/main.ts:176-177 | every effect before the last is an action, so the emission comes after the action |
| BridgeProperties.ClosedSocketSendsNothing | src/main.ts:101-104 | while the socket is null or not open, handling any message sends nothing |
| BridgeProperties.UnknownOnlyEmits | src/main.ts:163-177 | an unknown message performs nothing and still makes its one emission attempt |
| BridgeProperties.WordPerformsThenEmits | src/main.ts:138-177 | with an open socket, a command word performs its service call and then sends the record of the player afterwards |

## Left out

- WebSocket lifecycle (src/main.ts:67-90): socket construction, the open, error, close and message handlers, and the fixed 5000 ms reconnect timer. This is I/O and timers. The socket appears only as a value: null, or a handle with a ready state.
- `updateConnectionStatus` (src/main.ts:92-98): a DOM query on a custom element.
- The `unload` listener registered on every emission (src/main.ts:109-113), and the playback listener registrations (src/main.ts:184-185). These are subscriptions on the host.
- `JSON.stringify`, `socket.send`, and the reconnect scheduled when sending throws (src/main.ts:129-134). This is serialisation and transport. The model stops at the record that would be sent.
- `parseFloat`: a parameter of every decoding function, with no definition, so prefix parsing such as `12abc` is the host's business. The double-space property assumes that the empty text parses to NaN, as `parseFloat` does.
- JsValues.DivideBy100: finite numbers are exact reals, so binary64 rounding of `v / 100` and the sign of zero are not modelled.
- Bridge.Handle: assumes that the playback-service call and the volume assignment return normally. Either could throw, for example a volume setter rejecting 1.5 or an infinity. A throw would skip the emission, and the model does not represent that.
- UI and host plumbing: Vue custom elements, Pinia, menus, modals, the immersive layout, the custom button, the CiderAudio subscription, the context menu and config setup (src/main.ts:1-50, src/main.ts:189-283).
- src/plugin.config.ts: static plugin metadata and a `createId()` library call, with no logic.
