# STOMP frame engine of ts-stomp, modelled in Dafny

This project models the part of the `ts-stomp` library that does the STOMP work itself. It covers:

- the `StompCommand` enumeration and the frame classes (`StompFrame`, `StompFrameMessage`, `StompFrameError`);
- the serializer, which turns a frame into wire text, and the deserializer, which turns a socket payload into frames and a partial rest;
- the `StompClient` object: the `connect`/`disconnect` life cycle, the SEND, SUBSCRIBE, UNSUBSCRIBE, BEGIN, COMMIT, ABORT, ACK and NACK frames, the dispatch of received frames to the four streams, the chunking of outgoing text and the heart-beat timers;
- `MessageSubscription` and the WebSocket URL helpers.

The model is written in the form of the code. Frames are objects whose header map changes in place (`Frames.StompFrame`), and the client is a class whose fields are its state (`Client.StompClient`). Each method is proved against a function over values that states what it computes: `Serializer.Wire`, `Deserializer.Deserialize`, `ClientProtocol.Handle`, `Dispatch`, `Received`, `Outgoing` and the others. The behaviour the library promises, or shows, is proved about those functions.

Modules and files:

| file | module | models |
|---|---|---|
| wrappers.dfy | Wrappers | `Option`, `Result` and the library's error conditions (`StompError`) |
| strings.dfy | Strings | the JavaScript string operations the code uses: `split`, `join`, `indexOf`, `replace` with a string pattern, `startsWith`, number to decimal text |
| stomp_command.dfy | StompCommands | `StompCommand`: ordinals, names, the lookup by name |
| headers.dfy | Headers | a JavaScript `Map<string,string>`: insertion order, `get`, `set` |
| stomp_frame.dfy | Frames | `StompFrame` |
| stomp_frame_error.dfy | FrameError | `StompFrameError` |
| stomp_frame_message.dfy | FrameMessage | `StompFrameMessage` |
| serializer.dfy | Serializer | `StompFrameSerializer`, `getUTF8Length` |
| deserializer.dfy | Bytes, Deserializer | `BYTE`, `StompFrameDeserializer` |
| roundtrip.dfy | RoundTrip | what the deserializer makes of the serializer's output |
| message_subscription.dfy | Subscriptions | `MessageSubscription` |
| client_protocol.dfy | ClientProtocol | the client's rules as functions of its state |
| stomp_client.dfy | Client | `StompClient` |
| websocket_url_util.dfy | WebsocketUrl | `WebsocketUrlUtil` |

Points where the model follows the code rather than the documented intent:

- A `StompCommand` value is a number, and ACK is 0. So `new StompFrame(ACK, …)` fails its `!command` test, and nothing can build, send or parse an ACK frame. `ack` always fails, and an `ACK` token on the wire is refused as an unknown command.
- The payload is cut with `split` on the string NUL, LF, `*`. This is the three characters themselves, not a pattern. So frames end up in one chunk, and only the first of them is read, whenever they are separated by a NUL alone or by NUL LF, the usual STOMP terminator, not followed by a `*`.
- `handleFrame` refuses a command it does not dispatch with a message that interpolates `frame.command`. That value is the enum's number, so a SEND frame is reported as `12`, not as `SEND`.
- The parser reads the header lines in reverse order, so the first line for a key wins. A frame read back has its header entries in reverse order.
- `content-length` is set by the serializer, and the parser ignores it. The body always ends at the first NUL.
- `heart-beat` fields are read with `.map(parseInt)`. That call passes the index as the radix, so the second field is always NaN and the outgoing (ping) timer is never armed.
- The `messages` of a subscription are filtered on the `subscriptionId` getter. That getter throws on a message without a `subscription` header, and the throw ends the subscription's stream.
- The subscription registry is keyed by destination, but `unsubscribe` deletes the key equal to the subscription id, so the destination stays registered unless it equals that id.
- `fromSockJSToAbsolute` refuses exactly the inputs `http:/` and `https:/`. Appending `/websocket` to them makes an `http://` or `https://` URL.
- `serverActivity` is updated only after a payload has been deserialized. A payload the parser throws on leaves it unchanged.

## Model

| member | source | states |
|---|---|---|
| StompCommands.FindByName | src/stomp/stomp-command.ts:3-18 | the command found by name is in the list searched and has that name; no result means no command in the list has it |
| StompCommands.OrdinalsFollowDeclarationOrder | src/stomp/stomp-command.ts:3-18 | there are fourteen commands, and the numeric value of each is its position in the declaration |
| StompCommands.OnlyAckIsFalsy | src/stomp/stomp-command.ts:4 | a command fails the JavaScript truth test exactly when it is ACK (value 0) |
| StompCommands.NameInjective | src/stomp/stomp-command.ts:3-18 | two commands with the same name are the same command |
| StompCommands.NameRoundTrip | src/stomp/stomp-command.ts:3-18 | looking up a command's name gives the command back, and a lookup gives `c` exactly when the text is `c`'s name |
| StompCommands.FromNameOnlyNames | src/stomp/stomp-command.ts:3-18 | the lookup succeeds exactly for the fourteen names |
| StompCommands.NameIsUpperCase | src/stomp/stomp-command.ts:3-18 | every command name is a non-empty run of capital letters |
| Frames.GetHeader | src/stomp/frames/stomp-frame.ts:63-66 | a header is present exactly when its key is mapped to a non-empty value, and then it is that value |
| Frames.GetRequiredHeader | src/stomp/frames/stomp-frame.ts:74-80 | succeeds exactly when `GetHeader` finds a value, with that value; otherwise fails naming the key |
| Frames.BuildBody | src/stomp/frames/stomp-frame.ts:24-26 | an absent or empty body is stored as null; any other body is kept |
| Frames.StompFrame.constructor | src/stomp/frames/stomp-frame.ts:34-49 | the new frame holds the command, the header map (copied) and the body |
| Frames.StompFrame.Create | src/stomp/frames/stomp-frame.ts:34-49 | fails with the null-command error exactly for ACK; otherwise a fresh frame holding the inputs |
| Frames.StompFrame.Build | src/stomp/frames/stomp-frame.ts:24-26 | fails exactly for ACK; otherwise a fresh frame holding the command, the headers and the body as `BuildBody` leaves it |
| Frames.StompFrame.GetHeader | src/stomp/frames/stomp-frame.ts:63-66 | the frame object's lookup is the lookup on its current value |
| Frames.StompFrame.GetRequiredHeader | src/stomp/frames/stomp-frame.ts:74-80 | the same for the required lookup |
| Frames.StompFrame.SetHeader | src/stomp/frames/stomp-frame.ts:82-84 | the header map becomes `Set(old, key, value)`: the key maps to the value and every other key is unchanged |
| Frames.BuildReportsInputs | test/stomp-frame.test.ts:14-43 | a frame built from a command other than ACK with a header and a body reports its command, the header (also as required header) and the body, and the required lookup of a header it lacks fails |
| Frames.EmptyValueIsAbsent | src/stomp/frames/stomp-frame.ts:63-66 | a header set to the empty string reads as absent, and the required lookup fails on it |
| Headers.Get | src/stomp/frames/stomp-frame.ts:64 | `Map.get`: present exactly for the map's keys, with the mapped value |
| Headers.Set | src/stomp/frames/stomp-frame.ts:82-84 | `Map.set`: the map view becomes the old one updated at the key |
| Headers.SetHeaderSpec | src/stomp/frames/stomp-frame.ts:82-84 | `Map.set` keeps an existing key's position, appends a new key last and leaves every other entry in place |
| Headers.SetAllLastWins | src/stomp/stomp-client.ts:139-141 | setting a list of entries in turn leaves each key with the value of its last entry |
| Headers.SetAllOverlay | src/stomp/stomp-client.ts:139-141 | setting every entry of one map on another gives their union, with the second map's values winning |
| FrameError.ErrorFrameOf | src/stomp/frames/stomp-frame-error.ts:15-24 | the error frame's command is ERROR |
| FrameError.NewErrorFrame | src/stomp/frames/stomp-frame-error.ts:15-24 | a fresh frame whose value is `ErrorFrameOf` of the message and the wrapped frame's current value |
| FrameError.ErrorMessage | src/stomp/frames/stomp-frame-error.ts:32-34 | the `message` header of an error frame; `ErrorFrameSpec` states its value for every way an error frame is built |
| FrameError.ErrorDetail | src/stomp/frames/stomp-frame-error.ts:36-38 | the body of an error frame; `ErrorFrameSpec` shows it is the wrapped frame's body, or none |
| FrameError.ErrorFrameSpec | src/stomp/frames/stomp-frame-error.ts:15-38 | command ERROR; the detail is the wrapped frame's body; a non-empty message becomes `errorMessage`; otherwise the wrapped frame's `message` header is kept, and with no frame there is none |
| FrameError.ErrorFrameHeaders | src/stomp/frames/stomp-frame-error.ts:15-24 | every header other than `message` is the wrapped frame's |
| FrameMessage.NewMessageFrame | src/stomp/frames/stomp-frame-message.ts:12-14 | a fresh frame with the same command, headers and body |
| FrameMessage.MessageId | src/stomp/frames/stomp-frame-message.ts:22-24 | the `message-id` header when it is non-empty, otherwise a missing-header error for it |
| FrameMessage.Destination | src/stomp/frames/stomp-frame-message.ts:26-28 | the same for `destination` |
| FrameMessage.SubscriptionId | src/stomp/frames/stomp-frame-message.ts:30-32 | the same for `subscription` |
| Serializer.GetUtf8Length | src/stomp/parser/stomp-frame-serializer.ts:26-33 | the number of UTF-8 bytes of the text, and 0 for null or the empty string |
| Serializer.CountEncodeUri | src/stomp/parser/stomp-frame-serializer.ts:28-30 | counting the matches of `/%..\|./g` in `encodeURI(s)` gives the UTF-8 length of `s` |
| Serializer.Utf8RoundTrip | src/stomp/parser/stomp-frame-serializer.ts:28 | the UTF-8 bytes `encodeURI` writes for a character decode back to that character |
| Serializer.Utf8LengthAppend | src/stomp/parser/stomp-frame-serializer.ts:26-33 | the byte length adds up over concatenation and lies between one and four bytes per character |
| Serializer.AsciiUtf8Length | src/stomp/parser/stomp-frame-serializer.ts:26-33 | ASCII text has as many bytes as characters |
| Serializer.UmlautLength | src/stomp/parser/stomp-frame-serializer.ts:26-33 | `ä` and `ü` have length 2; null and the empty string have length 0 |
| Serializer.AsciiTextLength | src/stomp/parser/stomp-frame-serializer.ts:26-33 | `hello world!` has length 12 |
| Serializer.HeaderLinesSnoc | src/stomp/parser/stomp-frame-serializer.ts:64 | one more header entry adds one more `key:value` line at the end |
| Serializer.JoinHeaderLines | src/stomp/parser/stomp-frame-serializer.ts:56-66 | joining the command and the header lines with LF gives the command followed by the header text |
| Serializer.Serialize | src/stomp/parser/stomp-frame-serializer.ts:55-76 | the frame's headers gain `content-length` when it has a body (the frame is changed in place), and the text returned is `Wire` of the frame as changed |
| Serializer.FrameText | src/stomp/parser/stomp-frame-serializer.ts:56-75 | the text built line by line is `Wire` of the frame |
| Serializer.Prepare | src/stomp/parser/stomp-frame-serializer.ts:61-63 | the frame after `serialize` sets `content-length`: command and body unchanged; `PrepareSpec` states the headers |
| Serializer.Wire | src/stomp/parser/stomp-frame-serializer.ts:55-76 | the text of a prepared frame; `WireStartsWithCommand`, `WireEndsWithSingleNul` and `HeaderTextSplits` state its layout, and `RoundTrip.WireRoundTrip` its inverse |
| Serializer.PrepareSpec | src/stomp/parser/stomp-frame-serializer.ts:61-63 | command and body unchanged; with a body, `content-length` is its UTF-8 length; every other header unchanged; without a body, nothing changes |
| Serializer.WireStartsWithCommand | src/stomp/parser/stomp-frame-serializer.ts:56-66 | the text starts with the command's name and a line feed |
| Serializer.WireEndsWithSingleNul | src/stomp/parser/stomp-frame-serializer.ts:68-73 | when headers and body hold no NUL, the text ends with NUL and holds no other |
| Serializer.HeaderTextSplits | src/stomp/parser/stomp-frame-serializer.ts:64-66 | each header entry appears in the text as an LF-preceded `key:value` line at its position |
| Deserializer.LeadingEnd | src/stomp/parser/stomp-frame-deserializer.ts:158-160 | skips exactly the leading `\s` characters |
| Deserializer.TrailingStart | src/stomp/parser/stomp-frame-deserializer.ts:158-160 | finds exactly the trailing `\s` characters |
| Deserializer.Trim | src/stomp/parser/stomp-frame-deserializer.ts:158-160 | the result is no longer than the input and has no white space at either end; `TrimSpec` places it in the input |
| Deserializer.TrimSpec | src/stomp/parser/stomp-frame-deserializer.ts:158-160 | `trim` gives the slice with only white space before and after it, and none at its own ends |
| Deserializer.TrimUnchanged | src/stomp/parser/stomp-frame-deserializer.ts:158-160 | text without white space at its ends is left as it is |
| Deserializer.TrimIdempotent | src/stomp/parser/stomp-frame-deserializer.ts:158-160 | trimming twice is the same as trimming once |
| Deserializer.FindDivider | src/stomp/parser/stomp-frame-deserializer.ts:101 | the first position matching `\n\r?\n\r?`, or -1 when there is none |
| Deserializer.StripTrailingLf | src/stomp/parser/stomp-frame-deserializer.ts:88 | the longest prefix that does not end in a line feed; only line feeds were removed |
| Deserializer.EndsWithTerminatorSpec | src/stomp/parser/stomp-frame-deserializer.ts:88 | the last-chunk test holds exactly when some NUL is followed by nothing but line feeds |
| Deserializer.TakeUntilNul | src/stomp/parser/stomp-frame-deserializer.ts:137-148 | the longest NUL-free prefix, stopping at the first NUL |
| Deserializer.ParseCommand | src/stomp/parser/stomp-frame-deserializer.ts:150-156 | a parsed command has the token as its name; a failure is `UnknownCommand` of the token |
| Deserializer.ParseCommandSpec | src/stomp/parser/stomp-frame-deserializer.ts:150-156 | among the fourteen command names, a token parses exactly when it names a command other than ACK, and then to that command; otherwise the error names the token |
| Deserializer.ParseHeaderLineNoColon | src/stomp/parser/stomp-frame-deserializer.ts:112-113 | a line without a colon gives the empty key and the whole line, trimmed, as value |
| Deserializer.ParseHeaderLineAtColon | src/stomp/parser/stomp-frame-deserializer.ts:112-113 | a line is cut at its first colon, and both sides are trimmed |
| Deserializer.ParseHeadersFirstWins | src/stomp/parser/stomp-frame-deserializer.ts:111-114 | because the lines are read in reverse, the first line with a key gives its value |
| Deserializer.NoDividerMissingCommand | src/stomp/parser/stomp-frame-deserializer.ts:101-129 | a chunk with no blank-line divider fails as having no command |
| Deserializer.ValuesSnoc | src/stomp/parser/stomp-frame-deserializer.ts:84 | one more frame object adds its value at the end |
| Deserializer.ExtractBodyAsString | src/stomp/parser/stomp-frame-deserializer.ts:137-148 | the loop's body is the text from the start up to the first NUL, and holds no NUL |
| Deserializer.ReadHeaders | src/stomp/parser/stomp-frame-deserializer.ts:108-114 | the header map the reverse loop builds is `ParseHeaders` of the lines |
| Deserializer.ParseFrame | src/stomp/parser/stomp-frame-deserializer.ts:96-135 | the value `deserializeFrame` builds: an empty command line fails with `MissingCommand`, an unknown token with `ParseCommand`'s error; otherwise the command, `ParseHeaders` of the header lines and the body up to the first NUL; `RoundTrip.WireRoundTrip` reads the serializer's output back through it |
| Deserializer.DeserializeFrame | src/stomp/parser/stomp-frame-deserializer.ts:96-135 | a fresh frame holding `ParseFrame` of the chunk, or `ParseFrame`'s error |
| Deserializer.ParseAllFailureSticks | src/stomp/parser/stomp-frame-deserializer.ts:83-85 | the first chunk that fails to parse decides the result |
| Deserializer.ParseAllStep | src/stomp/parser/stomp-frame-deserializer.ts:83-85 | one more chunk either fails the loop with its error or adds its frame |
| Deserializer.ParseChunks | src/stomp/parser/stomp-frame-deserializer.ts:83-85 | the loop's frames are `ParseAll` of the chunks, or its error; the frames are fresh |
| Deserializer.AddLastChunk | src/stomp/parser/stomp-frame-deserializer.ts:87-93 | the last chunk is parsed when it is a lone LF or ends like a terminated frame, and otherwise kept as the partial text |
| Deserializer.DeserializeFrames | src/stomp/parser/stomp-frame-deserializer.ts:78-94 | the buffer holds `DeserializeFramesSpec` of the text: the frames of all chunks but the last, then the last as a frame or as partial text |
| Deserializer.DeserializeMessage | src/stomp/parser/stomp-frame-deserializer.ts:45-69 | a lone LF gives the empty buffer; any other type of payload is refused; otherwise the buffer is `Deserialize`'s, or its error |
| RoundTrip.ReparsedHeaders | src/stomp/parser/stomp-frame-deserializer.ts:111-114 | clean headers come back in reverse order with the same map |
| RoundTrip.OneFrame | src/stomp/parser/stomp-frame-serializer.ts:55-76 | the text of one clean frame is read back as that frame (headers reversed), with no partial |
| RoundTrip.WireRoundTrip | src/stomp/parser/stomp-frame-serializer.ts:55-76 | a clean frame, serialized and read back, keeps its command and body (null becomes empty), and its headers gain `content-length` when it has a body |
| RoundTrip.BodyRoundTrip | src/stomp/parser/stomp-frame-deserializer.ts:137-148 | a NUL-free body survives the round trip |
| RoundTrip.SecondFrameLost | src/stomp/parser/stomp-frame-deserializer.ts:79 | two clean frames (`CleanFrame`: not ACK; header keys free of NUL, LF and `:`, values free of NUL and LF, both without white space at their ends; a body without NUL) sent in one payload are read as the first alone |
| RoundTrip.CutFrameIsPartial | src/stomp/parser/stomp-frame-deserializer.ts:87-92 | a clean frame's text cut before its NUL parses nothing and is kept whole as partial text |
| Subscriptions.Messages | src/stomp/message-subscription.ts:40-43 | what the subscription's stream delivers all carries its id, is no longer than the client's stream, and can only end because a message lacked its `subscription` header |
| Subscriptions.MessagesSnoc | src/stomp/message-subscription.ts:40-43 | the stream grows message by message, as each arrives |
| Subscriptions.MessagesFailIff | src/stomp/message-subscription.ts:40-43 | the stream ends with an error exactly when some received message has no `subscription` header |
| Subscriptions.MessagesExactly | src/stomp/message-subscription.ts:40-43 | until then it delivers exactly the received messages addressed to the subscription |
| ClientProtocol.NextId | src/stomp/stomp-client.ts:184-185 | a non-empty given id is used and the counter is kept; otherwise the id is the prefix followed by the counter in decimal, and the counter goes up by one |
| ClientProtocol.GeneratedIdsDistinct | src/stomp/stomp-client.ts:185 | two generated ids are different unless they have the same prefix and counter |
| ClientProtocol.UnsubscribeKeepsEntry | src/stomp/stomp-client.ts:185-189 | after subscribing with a generated id and unsubscribing, the destination is still in the registry unless the destination equals the generated id; so always when it does not start with `sub-` |
| ClientProtocol.ConnectHeaders | src/stomp/stomp-client.ts:101-111 | `login` and `passcode` are set into the config's headers exactly when they are non-empty; otherwise, and for every other key, the header is the config's own |
| ClientProtocol.OpenHeaders | src/stomp/stomp-client.ts:131-144 | CONNECT carries `accept-version:1.2` and `host:localhost`, overridden by the config's headers |
| ClientProtocol.SubscribeHeaders | src/stomp/stomp-client.ts:184-191 | the caller's headers with `id`, `destination` and `ack:auto` set |
| ClientProtocol.AckHeaders | src/stomp/stomp-client.ts:273-279 | exactly `id`, plus `transaction` when a non-empty one is given |
| ClientProtocol.Single | src/stomp/stomp-client.ts:201-204 | a map holding exactly the one entry |
| ClientProtocol.PiecesSpec | src/stomp/stomp-client.ts:330-335 | the pieces sent join up to the text; all but the last have 16 KiB characters; the last is at most that, and is empty only for empty text |
| ClientProtocol.OutgoingJoinsUp | src/stomp/stomp-client.ts:326-336 | what one transmit sends joins up to text that starts with the command's name and ends with NUL |
| ClientProtocol.DigitPrefix | src/stomp/stomp-client.ts:350 | the longest run of leading digits |
| ClientProtocol.HeartbeatField | src/stomp/stomp-client.ts:350-352 | the second field is never a number (radix 1); the first is its decimal reading |
| ClientProtocol.TimersNeedVersionAndBeat | src/stomp/stomp-client.ts:340-348 | no version, version 1.0 or no `heart-beat` header leaves both timers as they were |
| ClientProtocol.PingerNeverArmed | src/stomp/stomp-client.ts:350-362 | the outgoing timer is never changed |
| ClientProtocol.TimersKeepFloor | src/stomp/stomp-client.ts:364-366 | an armed watchdog period is always at least the local 10000 ms |
| ClientProtocol.ParseDecimalOfNat | src/stomp/stomp-client.ts:350 | a number written in decimal is read back as that number |
| ClientProtocol.HeartbeatHeaderRule | src/stomp/stomp-client.ts:338-376 | for `heart-beat:n,m` from a server newer than 1.0, the watchdog is armed with max(10000, n) when n > 0, and the ping timer is left alone |
| ClientProtocol.RecentActivityNotStale | src/stomp/stomp-client.ts:367-373 | the watchdog does not fire while the server was heard from within twice the local period |
| ClientProtocol.Handle | src/stomp/stomp-client.ts:296-320 | exactly the four commands CONNECTED, MESSAGE, RECEIPT and ERROR are handled; any other is refused with `Refusal` of its command and changes nothing |
| ClientProtocol.RefusalShowsOrdinal | src/stomp/stomp-client.ts:317-318 | the refusal's message carries the command's enum number, not its name: a SEND frame gives `12`, and distinct commands give distinct messages |
| ClientProtocol.WrappedErrorIsSame | src/stomp/stomp-client.ts:313 | wrapping a received ERROR frame without a message gives the same frame |
| ClientProtocol.HandleConnected | src/stomp/stomp-client.ts:299-304 | CONNECTED marks the client connected, sets up the watchdog and goes to the connect stream |
| ClientProtocol.LoggedStream | src/stomp/stomp-client.ts:296-320 | each stream gains exactly the received frames of its command, in order |
| ClientProtocol.AppliedStep | src/stomp/stomp-client.ts:296-320 | handling one more frame extends the summary of the frames handled so far |
| ClientProtocol.Dispatch | src/stomp/stomp-client.ts:118-120 | `forEach(handleFrame)` over frame values, ending at the first refusal; `DispatchApplies`, `DispatchFailsIff` and `DispatchStopsAtFirst` state it |
| ClientProtocol.DispatchApplies | src/stomp/stomp-client.ts:118-120 | when no frame is refused, the state after `forEach(handleFrame)` is the summary of the frames |
| ClientProtocol.DispatchFailsIff | src/stomp/stomp-client.ts:118-120 | dispatch fails exactly when some frame has a command the client does not handle |
| ClientProtocol.DispatchStopsAtFirst | src/stomp/stomp-client.ts:118-120 | the first refused frame ends the dispatch with its error, and the frames before it stay handled |
| ClientProtocol.Received | src/stomp/stomp-client.ts:115-121 | what the message handler does with one payload: nothing when detached, the parser's error when it fails, otherwise `Dispatch` after the activity time is set; `ReceivedParsed`, `DeliversMessage` and `PartialDropped` state it |
| ClientProtocol.ReceivedParsed | src/stomp/stomp-client.ts:115-121 | a parsed payload sets the activity time and dispatches its frames |
| ClientProtocol.DeliversMessage | src/stomp/stomp-client.ts:115-121 | receiving one clean MESSAGE frame's text adds it (as read back) to the message stream and sets the activity time, and nothing else |
| ClientProtocol.PartialDropped | src/stomp/stomp-client.ts:115-121 | receiving a clean frame's text cut before its NUL only sets the activity time; the partial text is dropped |
| ClientProtocol.LostConnection | src/stomp/stomp-client.ts:123-129 | the error reported on close has command ERROR, the message `WS: Lost connection to <url>`, no detail and no other header |
| Client.ValuesAt | src/stomp/stomp-client.ts:118-120 | the values of the frame objects, one by one |
| Client.DispatchFailureSticks | src/stomp/stomp-client.ts:118-120 | once a frame is refused, the frames after it do not count |
| Client.DispatchNext | src/stomp/stomp-client.ts:118-120 | one more frame handled either ends the dispatch or extends it |
| Client.Overlay | src/stomp/stomp-client.ts:139-141 | `forEach` over the config's headers leaves every key with the config's value over the default |
| Client.StompClient.constructor | src/stomp/stomp-client.ts:32-67 | counter 0, not connected, no timers, empty registry and streams, nothing sent |
| Client.StompClient.Connect | src/stomp/stomp-client.ts:99-145 | attaches the handlers and keeps the config's headers as `ConnectHeaders` leaves them |
| Client.StompClient.OnOpen | src/stomp/stomp-client.ts:131-144 | sends the CONNECT frame with `OpenHeaders`, and changes nothing else |
| Client.StompClient.OnMessage | src/stomp/stomp-client.ts:115-121 | the new state and the error are `Received` of the old state, the payload and the time |
| Client.StompClient.Process | src/stomp/stomp-client.ts:116-120 | after a payload was read, the new state and the error are `Dispatch` of the frames from the old state with the server activity time set to now |
| Client.StompClient.HandleFrames | src/stomp/stomp-client.ts:118-120 | the new state and the error are `Dispatch` of the old state and the frames |
| Client.StompClient.HandleFrame | src/stomp/stomp-client.ts:296-320 | the new state and the error are `Handle` of the old state and the frame |
| Client.StompClient.OnConnected | src/stomp/stomp-client.ts:299-304 | a CONNECTED frame marks the client connected, sets the timers from the frame and is appended to the connected stream, exactly as `Handle` says, with no error |
| Client.StompClient.SetupHeartbeat | src/stomp/stomp-client.ts:338-376 | the timers become `Timers` of the frame and the old timers; nothing else changes |
| Client.StompClient.PingTick | src/stomp/stomp-client.ts:359-361 | with the ping timer armed, one line feed is sent |
| Client.StompClient.WatchdogTick | src/stomp/stomp-client.ts:367-373 | the socket is closed exactly when the server has been silent for more than twice the watchdog period |
| Client.StompClient.OnClose | src/stomp/stomp-client.ts:123-129 | unless `disconnect` detached the handler, cleans up and adds `LostConnection(url)` to the error stream |
| Client.StompClient.Cleanup | src/stomp/stomp-client.ts:290-294 | not connected, both timers stopped, nothing else changed |
| Client.StompClient.Disconnect | src/stomp/stomp-client.ts:152-158 | sends DISCONNECT, detaches the close handler, closes the socket and cleans up |
| Client.StompClient.Send | src/stomp/stomp-client.ts:166-170 | sends SEND with the destination header and the body |
| Client.StompClient.Subscribe | src/stomp/stomp-client.ts:178-195 | takes the id from `NextId`, registers the subscription under its destination, sends SUBSCRIBE with `SubscribeHeaders` and returns the handle |
| Client.StompClient.Unsubscribe | src/stomp/stomp-client.ts:201-206 | removes the registry key equal to the id and sends UNSUBSCRIBE with that id |
| Client.StompClient.Abort | src/stomp/stomp-client.ts:212-218 | sends ABORT for the transaction |
| Client.StompClient.Begin | src/stomp/stomp-client.ts:224-241 | takes the transaction id from `NextId` with prefix `tx-`, sends BEGIN and returns the handle |
| Client.StompClient.Commit | src/stomp/stomp-client.ts:247-252 | sends COMMIT for the transaction |
| Client.StompClient.Ack | src/stomp/stomp-client.ts:259-266 | always fails with the null-command error and sends nothing |
| Client.StompClient.Nack | src/stomp/stomp-client.ts:273-280 | sends NACK with `AckHeaders` |
| Client.StompClient.Transmit | src/stomp/stomp-client.ts:326-336 | fails, sending nothing, exactly for ACK; otherwise sends `Outgoing` of the frame |
| Client.StompClient.SendText | src/stomp/stomp-client.ts:330-335 | the chunking loop sends `Pieces` of the text |
| Client.StompClient.IssueId | src/stomp/stomp-client.ts:185 | the id and the new counter are `NextId` of the given id and the old counter |
| WebsocketUrl.FromWsUrlToAbsolute | src/socket/websocket-url-util.ts:11-28 | refused exactly for `http://` and `https://` URLs; `ws://` and `wss://` URLs are kept |
| WebsocketUrl.ResolvedIsWsUrl | src/socket/websocket-url-util.ts:19-25 | a result is always a `ws://` or `wss://` URL that ends with the input |
| WebsocketUrl.RelativeUrlResolved | src/socket/websocket-url-util.ts:22-24 | a relative URL becomes the page's scheme, host, port and path |
| WebsocketUrl.SockJsBase | src/socket/websocket-url-util.ts:5-7 | the rewritten URL ends with `/websocket` |
| WebsocketUrl.FromSockJsToAbsolute | src/socket/websocket-url-util.ts:4-9 | `fromWsUrlToAbsolute` of `SockJsBase`; `SockJsRefusedExactly`, `SockJsEndsWithWebsocket` and the examples state it |
| WebsocketUrl.SockJsRefusedExactly | src/socket/websocket-url-util.ts:4-9 | `fromSockJSToAbsolute` throws exactly for `http:/` and `https:/` |
| WebsocketUrl.IncompleteSchemeRefused | src/socket/websocket-url-util.ts:4-9 | for those two inputs the rewritten URL is an http URL |
| WebsocketUrl.NoHttpAfterRewrite | src/socket/websocket-url-util.ts:5-7 | only `http:/` is rewritten into an `http://` URL |
| WebsocketUrl.NoHttpsAfterRewrite | src/socket/websocket-url-util.ts:5-7 | only `https:/` is rewritten into an `https://` URL |
| WebsocketUrl.SockJsEndsWithWebsocket | src/socket/websocket-url-util.ts:4-9 | every accepted SockJS URL ends with `/websocket` |
| WebsocketUrl.WsUrlExamples | test/websocket-url-util.test.ts:13-31 | the absolute URLs are kept, `/ws` on a blank page becomes `wss:///ws`, and an http URL is refused |
| WebsocketUrl.SockJsPathUrl | src/socket/websocket-url-util.ts:4-9 | a `/`-rooted SockJS path in which neither `https://` nor `http://` occurs (such as `/chat` or `/stomp`) becomes the page's websocket URL for that path with `/websocket` appended |
| WebsocketUrl.SockJsHttpUrl | src/socket/websocket-url-util.ts:4-9 | `http://x` becomes `ws://x/websocket` for every `x` in which `https://` does not occur (such as `localhost:8080/stomp` or `my.domain/sockjs`) |
| WebsocketUrl.SockJsHttpsUrl | src/socket/websocket-url-util.ts:4-9 | `https://x` becomes `wss://x/websocket` for every `x` in which `http://` does not occur (such as `chat.example.org/ws`) |

## Left out

- The socket, timers, clock and logger are not modelled as running code. The socket is the list of texts sent, a closed flag and the handlers' attachment flags. Its events (`onopen`, `onmessage`, `onclose`) and each timer tick are methods called from outside, and the time is a parameter.
- The rxjs subjects are sequences of the frames emitted. Observers that subscribe late, and the `Observable` getters `receipts`, `messages`, `errors` and `onConnect`, are not modelled separately.
- `disconnect`'s callback is not modelled: calling it has no effect on the client.
- Binary payloads (`ArrayBuffer`, `Uint8Array`) and their UTF-8 decoding are not modelled. A payload reaches the parser as text, or as a value of another type, which is refused.
- `parseInt` is modelled for the decimal forms only: leading white space, a sign and digits. Hexadecimal `0x` input and `NaN` arithmetic are not modelled.
- Client.StompClient.WatchdogTick: re-arming a timer without clearing the old one leaves both running in the code. The model keeps only the latest period.
- Client.StompClient.OnClose: it does not set the closed flag. That flag records only the client's own calls to `ws.close()`.
- Client.StompClient.Transmit: sending works whatever the socket's state. The code has no check on that either.
- Client.StompClient.Connect: in the code, the open handler reads the config's header map when the socket opens. The model copies it at `connect`, so a later change to the caller's map is not seen.
- Deserializer.ParseCommand: the code looks the token up in the `StompCommand` enum object, which also has the reverse-mapping keys "0" to "13" and inherited keys such as "toString" and "constructor". The model knows only the fourteen command names. A token such as "6" is parsed by the code (`StompCommand["6"]` is the truthy string "CONNECTED"), so the message handler sets `serverActivity` and then `handleFrame` throws; the model refuses that payload at parse time and leaves `serverActivity` as it was.
- `StompFrame.bodyJson` is left out (JSON parsing). `foreachHeader` is modelled only where the serializer walks the header map.
- Strings are sequences of Unicode characters, while JavaScript strings are sequences of UTF-16 code units. Lengths and positions (the 16 KiB pieces, the `encodeURI` count) agree only for text inside the Basic Multilingual Plane; lone surrogates, which make `encodeURI` throw, cannot occur in the model.
- `stomp-client-builder.ts`, `stomp-service.ts`, `websocket-rx.ts` and `stomp-config.ts` are not part of this model.
