# Moccasin peer-to-peer chat, modelled in Dafny

Moccasin is an Electron chat application. Nodes on a local network find
each other by multicast DNS and talk over direct TCP connections. This
project models two parts of it.

- **The peer network (`src/app/peer2peer.ts`)**:
  - `connectToPeer` decides which of two nodes opens the connection.
  - A registry holds peers and open connections under `"addr:port"` names.
  - Messages travel as `JSON + "\r\n"` frames, and each read is decoded by splitting on CRLF.
  - Received messages go to channel subscribers or to a generic event.
  - `sendMessage` and `broadcastMessage` write frames out.
- **The chat-partner list of the `App` component (`src/app/app.tsx`)**: adding partners when peers connect, removing them when peers disconnect, switching the active conversation, renaming partners, recording incoming and outgoing messages, and reacting to the `AUN`/`RUN`/`MSG` message types.

Files:

- `js_text.dfy` (module `JsText`) gives a meaning to the JavaScript string operations the code relies on:
  - `<` on strings, which is lexicographic by character;
  - the decimal rendering of a port inside a template literal;
  - one-argument `substring`;
  - the peer name `` `${addr}:${port}` ``, which is proved injective.
- `frame_codec.dfy` (module `FrameCodec`) covers the framing:
  - JavaScript's `split("\r\n")` and the empty-string filter;
  - the decoder of one read as the code writes it;
  - a separately labelled buffered decoder.
- `arbiter.dfy` (module `Arbiter`) holds the tie-break of `connectToPeer`.
- `peer_network.dfy` (module `PeerNetwork`) holds class `Network`, which models `pseudoServer` and the functions around it:
  - `peers` and `peerConnections` are maps, plus one list for the key order JavaScript iterates them in;
  - `channelSubscriptions` is a sequence.
  - Everything the code does to the outside world is returned as a sequence of `Effect`s: emitting, dialling, answering on multicast DNS, calling a subscriber, writing to a socket.
- `chat_app.dfy` (module `ChatApp`) holds class `App`, whose state is `chatPartners` and `userInfo`. Each handler is a method with the source's loops, and it returns the `send-message` events it emits.

Which side opens a connection is decided by text order on names. `connectToPeer` dials only when the remote name is not its own, is not already held, and is not smaller than its own (src/app/peer2peer.ts:148-158). So of two nodes, the one with the SMALLER name initiates. Between `10.0.0.1:4001` and `10.0.0.1:4002`, it is 4001 that dials (`Arbiter.SameHostLowerPortDials`).

## Model

| member | source | states |
|---|---|---|
| `JsText.Less` | src/app/peer2peer.ts:155 | string `<`: never holds between equal names, and a proper prefix is smaller than the longer name |
| `JsText.LessConnected` | src/app/peer2peer.ts:155 | two different names are always ordered one way or the other by `<` |
| `JsText.LessAsymmetric` | src/app/peer2peer.ts:155 | `<` never holds in both directions |
| `JsText.LessSharedPrefix` | src/app/peer2peer.ts:155 | a common prefix does not change the outcome of `<` |
| `JsText.NatToString` | src/app/peer2peer.ts:146 | `${port}` renders a port as a non-empty run of decimal digits |
| `JsText.NatToStringRoundTrip` | src/app/peer2peer.ts:146 | the decimal text of a port reads back as the port |
| `JsText.PeerName` | src/app/peer2peer.ts:93 | `${addr}:${port}` (also lines 116 and 146, and app.tsx:236) is the address, a colon, and then only the port's digits |
| `JsText.PeerNameInjective` | src/app/peer2peer.ts:146 | `"addr:port"` determines both the address and the port, whatever the address holds |
| `JsText.SubstringFrom` | src/app/peer2peer.ts:113 | `substring(7)` is the suffix after 7 characters, or `""` for a shorter address |
| `FrameCodec.ContainsCRLFAt` | src/app/peer2peer.ts:75 | `indexOf("\r\n") > -1` holds exactly when some position starts a CRLF |
| `FrameCodec.Frame` | src/app/peer2peer.ts:219 | the frame of a framable text (also written at line 232) decodes, read alone, to exactly that text |
| `FrameCodec.FramesAppend` | src/app/peer2peer.ts:219 | frames written one after another give the concatenation of their encodings on the stream |
| `FrameCodec.FirstCRLF` | src/app/peer2peer.ts:75 | the index of the first CRLF; no CRLF starts before it |
| `FrameCodec.Split` | src/app/peer2peer.ts:76 | `split("\r\n")` yields at least one piece and no piece holds a CRLF |
| `FrameCodec.DropEmpty` | src/app/peer2peer.ts:77 | the filter keeps exactly the non-empty pieces |
| `FrameCodec.SplitRead` | src/app/peer2peer.ts:71-80 | the messages of one read: split and filtered if it holds a CRLF, else the whole read; none holds a CRLF |
| `FrameCodec.SplitFrames` | src/app/peer2peer.ts:76 | splitting frames followed by a rest yields the framed texts followed by the split of the rest |
| `FrameCodec.SplitRejoins` | src/app/peer2peer.ts:76 | joining the pieces of a split with CRLF gives back the original text |
| `FrameCodec.SplitAppend` | src/app/peer2peer.ts:76 | splitting `x + y` keeps the complete pieces of `x` and re-splits its last piece with `y` |
| `FrameCodec.DropEmptyAppend` | src/app/peer2peer.ts:77 | the filter distributes over concatenation, so it keeps the order |
| `FrameCodec.FramesRoundTrip` | src/app/peer2peer.ts:75-80 | a read made of whole frames of non-empty CRLF-free texts decodes to exactly those texts, in order |
| `FrameCodec.StatelessDecoderSplitsFrame` | src/app/peer2peer.ts:75-80 | one frame delivered in two reads decodes to two wrong messages; the buffered decoder yields the one message |
| `FrameCodec.Feed` | src/app/peer2peer.ts:75-80 | buffered variant: the pending tail never holds a CRLF |
| `FrameCodec.FeedCompose` | src/app/peer2peer.ts:75-80 | buffered variant: feeding two chunks one after the other equals feeding their concatenation |
| `FrameCodec.FeedAllIsFeed` | src/app/peer2peer.ts:75-80 | buffered variant: the result does not depend on where the text stream was cut into chunks |
| `FrameCodec.BufferedRoundTrip` | src/app/peer2peer.ts:75-80 | buffered variant: any cut of a run of frames decodes to exactly the framed texts, with nothing pending |
| `Arbiter.Arbitrate` | src/app/peer2peer.ts:146-158 | ignore exactly self; report already-connected exactly for a held name; dial only names greater than the own one |
| `Arbiter.ExactlyOneInitiates` | src/app/peer2peer.ts:155-163 | of two fresh nodes exactly one dials, the one with the smaller name; the other only re-sends its response |
| `Arbiter.SameAddressOrder` | src/app/peer2peer.ts:155 | on one address, names compare as the decimal texts of their ports |
| `Arbiter.SameHostLowerPortDials` | src/app/peer2peer.ts:155-160 | `10.0.0.1:4001` dials `10.0.0.1:4002`, and 4002 only responds |
| `Arbiter.TextualOrderNotNumeric` | src/app/peer2peer.ts:155 | names compare as text: `h:10000` dials `h:9999` |
| `PeerNetwork.Without` | src/app/peer2peer.ts:95-96 | after `delete`, exactly the other keys remain and the deleted key is gone |
| `PeerNetwork.WithoutAppend` | src/app/peer2peer.ts:95-96 | `delete` keeps the remaining keys in their order: it distributes over concatenation |
| `PeerNetwork.WithoutDistinct` | src/app/peer2peer.ts:95-96 | deleting a key keeps the key list free of repetitions |
| `PeerNetwork.DistinctCardinality` | src/app/peer2peer.ts:212 | a key list without repetitions has as many entries as keys |
| `PeerNetwork.KeyCount` | src/app/peer2peer.ts:212 | `Object.keys(peerConnections)` is as long as the map is large |
| `PeerNetwork.Register` | src/app/peer2peer.ts:123-124 | filing a peer and its connection under the peer's name keeps the registry invariant; a reassigned key keeps its place |
| `PeerNetwork.NameLocatesPeer` | src/app/peer2peer.ts:123-124 | in the registry, the peer filed under `addr:port` is the peer at that address and port |
| `PeerNetwork.Unregister` | src/app/peer2peer.ts:95-96 | deleting a name from both objects keeps the registry invariant |
| `PeerNetwork.HandlerCalls` | src/app/peer2peer.ts:63-67 | every handler called is subscribed to the message's channel; each call carries the message's data and the sender's address and port |
| `PeerNetwork.HandlerCallsDistinct` | src/app/peer2peer.ts:63-67 | with distinct channels, only the subscriber of the message's channel is called, or nobody |
| `PeerNetwork.Route` | src/app/peer2peer.ts:56-67 | with subscriptions, only handlers subscribed to the message's channel are called, each with the message's data and sender, no more calls than there are subscriptions, and at most one call when channels are distinct |
| `PeerNetwork.RouteDispatch` | src/app/peer2peer.ts:56-67 | the generic event fires iff there are no subscriptions; otherwise only the matching subscriber is called, and an unmatched message is dropped |
| `PeerNetwork.Received` | src/app/peer2peer.ts:82-88 | without subscriptions, one `peer-message-received` per message, carrying that message's data, in order |
| `PeerNetwork.ReceivedOnlyHandlers` | src/app/peer2peer.ts:82-88 | with subscriptions, a read only calls handlers, each with the sender's address and port; the generic event never fires |
| `PeerNetwork.ReceivedAppend` | src/app/peer2peer.ts:82-88 | the messages of a read are dispatched one after the other, in order: the effects of `a + b` are those of `a` followed by those of `b` |
| `PeerNetwork.ReceivedOne` | src/app/peer2peer.ts:83-87 | each message is parsed and routed on its own, so with `RouteDispatch` every message reaches its channel's subscriber |
| `PeerNetwork.Network.constructor` | src/app/peer2peer.ts:46-48 | initial host `127.0.0.1:0`, empty registry, no subscriptions |
| `PeerNetwork.Network.SetIdentity` | src/app/peer2peer.ts:266-268 | the host address, port and name are set together |
| `PeerNetwork.Network.ConnectToPeer` | src/app/peer2peer.ts:144-164 | no change for self or a held name; only a multicast response for a smaller name; otherwise both maps gain exactly that key, appended last, with dial and `peer-connected` |
| `PeerNetwork.Network.OnPeerConnect` | src/app/peer2peer.ts:101-125 | address defaults to `127.0.0.1`, port to 0; IPv6 addresses lose 7 characters; the peer is always registered and `peer-connected` emitted |
| `PeerNetwork.Network.OnPeerDisconnect` | src/app/peer2peer.ts:91-98 | the name is removed from both maps and the key order, and every other key is untouched |
| `PeerNetwork.Network.Subscribe` | src/app/peer2peer.ts:236-248 | a second subscription to a channel is a no-op; otherwise it is appended; channels stay distinct |
| `PeerNetwork.Network.Unsubscribe` | src/app/peer2peer.ts:250-259 | exactly the channel's entry is removed, the others keep their order; no-op when absent |
| `PeerNetwork.WithoutChannelAppend` | src/app/peer2peer.ts:254-255 | removing a channel's entries distributes over concatenation, so the other subscriptions keep their order |
| `PeerNetwork.Network.OnReceiveMessage` | src/app/peer2peer.ts:51-69 | the effects are the dispatch of the message by the current subscriptions |
| `PeerNetwork.Network.ProcessReceivedMessage` | src/app/peer2peer.ts:71-89 | every decoded message of the read is parsed and dispatched, in order |
| `PeerNetwork.Network.SendMessage` | src/app/peer2peer.ts:223-234 | one frame to the connection filed under `addr:port`, nothing when there is none |
| `PeerNetwork.Network.BroadcastMessage` | src/app/peer2peer.ts:211-221 | one frame per open connection, in key order, and every connection receives it |
| `PeerNetwork.Network.SendMessageEvent` | src/app/peer2peer.ts:284 | the `send-message` event writes one frame on channel `"none"` to the connection under `addr:port`, nothing when there is none |
| `PeerNetwork.Network.BroadcastMessageEvent` | src/app/peer2peer.ts:282 | the `broadcast-message` event writes one frame on channel `"broadcast"` to every connection, in key order |
| `PeerNetwork.WriteEach` | src/app/peer2peer.ts:212-220 | the i-th write goes to the connection of the i-th key |
| `PeerNetwork.EveryKeyWritten` | src/app/peer2peer.ts:212 | a write per listed key reaches every registered connection |
| `PeerNetwork.WithoutChannel` | src/app/peer2peer.ts:250-259 | the table without a channel's entry keeps every other entry and distinct channels |
| `PeerNetwork.WithoutAbsentChannel` | src/app/peer2peer.ts:251-258 | unsubscribing from a channel nobody holds changes nothing |
| `PeerNetwork.SpliceIsWithoutChannel` | src/app/peer2peer.ts:254-256 | splicing out the first matching entry removes the channel entirely |
| `PeerNetwork.SubscribeUnsubscribe` | src/app/peer2peer.ts:236-259 | subscribing to a new channel and unsubscribing again restores the table |
| `PeerNetwork.SendThenReceive` | src/app/peer2peer.ts:75-85 | a frame written by `sendMessage`, read in one piece, is dispatched as the envelope that was sent |
| `ChatApp.HasActive` | src/app/app.tsx:244-250 | the loop with `break` finds out whether any conversation is active |
| `ChatApp.WithActive` | src/app/app.tsx:269-281 | a non-empty list ends with an active partner; a list with one is unchanged; only the first may change |
| `ChatApp.NewPartner` | src/app/app.tsx:226-238 | a new partner is inactive, has no messages and is named `addr:port` |
| `ChatApp.PeerConnectedAppends` | src/app/app.tsx:240-253 | exactly one partner is appended at the end; someone is active afterwards; already-active partners stay as they were |
| `ChatApp.Kept` | src/app/app.tsx:263-268 | as written: kept exactly those partners that differ from the peer in address and in port |
| `ChatApp.KeptInOrder` | src/app/app.tsx:263-268 | kept partners stay in their original order |
| `ChatApp.KeptIntended` | src/app/app.tsx:265 | corrected filter: removes exactly the partners at the peer's address and port |
| `ChatApp.KeptIntendedInOrder` | src/app/app.tsx:265 | the corrected filter keeps the original order: it distributes over concatenation |
| `ChatApp.DisconnectRemovesBystanders` | src/app/app.tsx:265 | as written, a disconnect also removes partners sharing only the address or only the port |
| `ChatApp.Switched` | src/app/app.tsx:297-304 | each partner is active iff its address and port equal the chosen one's |
| `ChatApp.SwitchSelectsOne` | src/app/app.tsx:297-304 | with unique address and port, exactly the chosen partner is active |
| `ChatApp.Appended` | src/app/app.tsx:116-125 | the message is appended to the history and becomes the last message; nothing else changes |
| `ChatApp.Renamed` | src/app/app.tsx:98-102 | every partner at `ip:port` gets the name; nothing else changes |
| `ChatApp.Delivered` | src/app/app.tsx:114-126 | every partner at `ip:port` receives the message; other partners are unchanged |
| `ChatApp.SentToActive` | src/app/app.tsx:148-155 | every active partner receives the own message; other partners are unchanged |
| `ChatApp.Destination` | src/app/app.tsx:146-155 | address and port of the last active partner, or `""` and 0 when none is active |
| `ChatApp.App.constructor` | src/app/app.tsx:65-74 | no partners, empty user info |
| `ChatApp.App.UpdateUsername` | src/app/app.tsx:95-109 | the partner list becomes its renamed version |
| `ChatApp.App.UpdateMessages` | src/app/app.tsx:111-134 | matching partners receive `{fromMe: false, body, time}` |
| `ChatApp.App.HandleSendMessage` | src/app/app.tsx:136-171 | active partners receive the `fromMe` message; one `MSG` goes to the last active partner or to `"":0` |
| `ChatApp.App.HandleUsernameEntered` | src/app/app.tsx:173-195 | the own name is set; exactly one `RUN` per partner, in list order |
| `ChatApp.App.HandlePeerMessageReceived` | src/app/app.tsx:197-222 | `AUN` with a name gives one `RUN` reply; `RUN` renames; `MSG` appends; anything else, including `AUN` without a name, changes nothing |
| `ChatApp.App.HandlePeerConnected` | src/app/app.tsx:224-259 | the new partner is appended and a conversation is made active if none was |
| `ChatApp.App.HandlePeerDisconnected` | src/app/app.tsx:261-287 | as written, the filtered list is kept and a kept partner is activated if none is active |
| `ChatApp.App.HandleChangeConversation` | src/app/app.tsx:293-311 | the list becomes the switched version |

## Left out

- Multicast DNS: queries, the 4-second discovery timer, the query and response listeners and `sendMulticastResponse` beyond its effect. This is network I/O through a foreign library. A received response is modelled as a call to `ConnectToPeer`.
- TCP sockets: `net.createServer`, `net.connect`, `socket.write`, `destroy`, the `close`/`error`/`data` callbacks, `server.listen` and the address lookup.
  - A connection is an opaque `Socket` handle passed in by the caller.
  - Writes and dials are returned as effects.
  - The `close` callback's late lookup of `peers[remoteName]` is not modelled. `OnPeerDisconnect` takes the peer directly.
- `peer-connection-failed` and the socket `error` handler: these are I/O failures.
- JSON: `JSON.stringify` and `JSON.parse` are opaque functions held by each class.
  - The end-to-end lemma assumes they round-trip and that the text holds no CRLF.
  - The source has no `try`/`catch`, so no decode-error path is modelled. A parse that would throw is outside the model.
- Event-emitter wiring and React `setState`: handlers are modelled as sequential steps, and emits as returned values.
  - The `publish` and `send-message-to-channel` events only pass their channel on to `BroadcastMessage` and `SendMessage`, and have no method of their own.
- Concurrency: Node runs one callback at a time, so every step is sequential.
- The clock: `Date.now()` is a `now` parameter.
- ChatApp.App.HandleUsernameEntered: uses one `now` for all messages, whereas the source reads the clock once per partner.
- Aliasing of partner objects: partners are values, so the model does not capture that `slice()` copies share partner objects with the previous state.
- Reads as bytes: each `data` chunk is modelled as already decoded text. The model does not cover `data.toString()` decoding each chunk on its own, which garbles a multi-byte UTF-8 character cut across two reads. So `FrameCodec.Feed`, `FrameCodec.FeedAllIsFeed` and `FrameCodec.BufferedRoundTrip` hold for cuts between characters. For arbitrary byte cuts they hold only for a decoder that buffers bytes and decodes after splitting.
- Character order: `Less` compares Dafny `char`s. JavaScript compares UTF-16 code units, which differ only above U+FFFF, and peer names do not contain such characters.
- UI files: `index.ts`, `control-bar.tsx`, `index.tsx`, `sidebar.tsx`, `chat-history.tsx`, `message-form.tsx`, `username-prompt.tsx` and `types.ts`. They are rendering and window glue.
  - `handleOnline` only logs.
  - `renderChatTitle` is rendering.

## Findings

| source | as written | input that shows it | evidently intended | confidence | as-written member | corrected member |
|---|---|---|---|---|---|---|
| src/app/app.tsx:265 | keeps a partner only if its address AND its port both differ from the disconnected peer's | partners `10.0.0.1:5000`, `10.0.0.1:5001`, `10.0.0.2:5000`; peer `10.0.0.1:5000` disconnects; all three are removed | remove only the partner at that address and port | high; not executed | `ChatApp.DisconnectRemovesBystanders` | `ChatApp.KeptIntended` |
| src/app/peer2peer.ts:75-80 | each `data` event is decoded alone; an unfinished frame is parsed as it is | the frame `ab\r\n` arrives as the reads `a` and `b\r\n`; the messages are `a` and `b` | keep the unfinished tail and prepend it to the next read | medium; not executed | `FrameCodec.StatelessDecoderSplitsFrame` | `FrameCodec.BufferedRoundTrip` |

`App.HandlePeerDisconnected` and `Network.ProcessReceivedMessage` keep the behaviour as written, because that is what runs. The corrected definitions stand beside them, with their properties proved.
