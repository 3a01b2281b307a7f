/** The state and event handling of `P2PNetwork` (src/app/peer2peer.ts): the
    `pseudoServer` registry of peers and open connections, the channel
    subscription table, the dispatch of received messages, and sending.

    Sockets, multicast DNS and the event emitter are not modelled as such:
    a connection is an opaque `Socket` handle supplied by the caller, and
    everything the source does to the outside world (emitting an event,
    dialling, answering on multicast DNS, calling a subscriber, writing to a
    socket) is returned as a sequence of `Effect`s, in the order the source
    performs it. */
module PeerNetwork {
  import opened JsText
  import opened FrameCodec
  import opened Arbiter
  import opened SeqFacts

  datatype Option<T> = None | Some(value: T)

  /** `{addr, port}` as the registry stores it. */
  datatype Peer = Peer(addr: string, port: nat)

  /** An open TCP connection, by identity. */
  datatype Socket = Socket(id: nat)

  /** The object `{channel, data}` that travels as JSON. */
  datatype Envelope = Envelope(channel: string, data: string)

  /** A channel subscription; the event handler is known by identity only. */
  datatype Subscription = Subscription(channel: string, handler: nat)

  datatype Event =
    | PeerConnected(peer: Peer)
    | PeerDisconnected(peer: Peer)
    | PeerMessageReceived(addr: string, data: string, port: nat)

  datatype Effect =
    | Emitted(event: Event)
    | Dialled(port: nat, addr: string)               // net.connect(port, addr)
    | MulticastResponse(target: string, port: nat)   // SRV answer for this node
    | HandlerCalled(handler: nat, data: string, addr: string, port: nat)
    | Wrote(socket: Socket, bytes: string)

  /** The channel `broadcastMessage` and `sendMessage` use when none is given. */
  const BroadcastChannel := "broadcast"
  const SendChannel := "none"

  predicate Distinct(s: seq<string>) {
    forall i, j :: 0 <= i < j < |s| ==> s[i] != s[j]
  }

  predicate DistinctChannels(subs: seq<Subscription>) {
    forall i, j :: 0 <= i < j < |subs| ==> subs[i].channel != subs[j].channel
  }

  predicate Subscribed(subs: seq<Subscription>, channel: string) {
    exists i :: 0 <= i < |subs| && subs[i].channel == channel
  }

  // ---------------------------------------------------------------------------
  // Key order of the registry objects
  // ---------------------------------------------------------------------------

  /** The keys of a JavaScript object in iteration order after `delete`: the
      remaining keys, in the order they were first added. */
  function Without(keys: seq<string>, k: string): (r: seq<string>)
    ensures forall x :: x in r <==> x in keys && x != k
    decreases |keys|
  {
    if keys == [] then []
    else
      var rest := Without(keys[1..], k);
      assert forall x :: x in keys <==> x == keys[0] || x in keys[1..];
      if keys[0] == k then rest else [keys[0]] + rest
  }

  lemma {:induction false} WithoutDistinct(keys: seq<string>, k: string)
    requires Distinct(keys)
    ensures Distinct(Without(keys, k))
    decreases |keys|
  {
    if keys != [] {
      WithoutDistinct(keys[1..], k);
      assert keys[0] !in keys[1..];
    }
  }

  /** `delete` keeps the other keys in their order: removing a key from a
      concatenation removes it from each part. */
  lemma {:induction false} WithoutAppend(a: seq<string>, b: seq<string>, k: string)
    ensures Without(a + b, k) == Without(a, k) + Without(b, k)
    decreases |a|
  {
    if a != [] {
      ConsAppend(a, b);
      WithoutAppend(a[1..], b, k);
    } else {
      EmptyAppend(a, b);
    }
  }

  /** Two key lists without repetitions that hold the same keys as a map
      are as long as the map is large. */
  lemma KeyCount(keys: seq<string>, m: map<string, Socket>)
    requires Distinct(keys) && forall k :: k in keys <==> k in m
    ensures |keys| == |m|
  {
    DistinctCardinality(keys);
    assert (set k | k in keys) == m.Keys;
  }

  /** A key list without repetitions has as many entries as it has keys. */
  lemma {:induction false} DistinctCardinality(s: seq<string>)
    requires Distinct(s)
    ensures |set k | k in s| == |s|
    decreases |s|
  {
    if s != [] {
      var init := s[..|s| - 1];
      DistinctCardinality(init);
      assert (set k | k in s) == (set k | k in init) + {s[|s| - 1]};
    }
  }

  /** The registry invariant: `peers` and `peerConnections` have the same
      keys, every peer is filed under its own name, and the key order lists
      each key once. */
  ghost predicate Registry(peers: map<string, Peer>, conns: map<string, Socket>, keys: seq<string>) {
    && peers.Keys == conns.Keys
    && (forall k :: k in peers ==> k == PeerName(peers[k].addr, peers[k].port))
    && Distinct(keys)
    && (forall k :: k in keys <==> k in conns)
  }

  /** Filing a peer and its connection under the peer's name keeps the
      registry invariant; a key assigned again keeps its place. */
  lemma Register(peers: map<string, Peer>, conns: map<string, Socket>, keys: seq<string>, peer: Peer, socket: Socket)
    requires Registry(peers, conns, keys)
    ensures var name := PeerName(peer.addr, peer.port);
      Registry(peers[name := peer], conns[name := socket], if name in keys then keys else keys + [name])
  {
  }

  /** In the registry, the peer filed under `addr:port` is the peer at that
      address and port, so `sendMessage(addr, port, …)` reaches exactly it. */
  lemma NameLocatesPeer(peers: map<string, Peer>, conns: map<string, Socket>, keys: seq<string>, addr: string, port: nat)
    requires Registry(peers, conns, keys)
    requires PeerName(addr, port) in conns
    ensures var p := peers[PeerName(addr, port)]; p.addr == addr && p.port == port
  {
    var p := peers[PeerName(addr, port)];
    PeerNameInjective(p.addr, p.port, addr, port);
  }

  /** Deleting a key from both objects keeps the registry invariant. */
  lemma Unregister(peers: map<string, Peer>, conns: map<string, Socket>, keys: seq<string>, name: string)
    requires Registry(peers, conns, keys)
    ensures Registry(peers - {name}, conns - {name}, Without(keys, name))
  {
    WithoutDistinct(keys, name);
  }

  // ---------------------------------------------------------------------------
  // Dispatch of a received message
  // ---------------------------------------------------------------------------

  /** The subscribers `onReceiveMessage` calls, in subscription order: every
      one whose channel is the message's channel. */
  function HandlerCalls(subs: seq<Subscription>, env: Envelope, addr: string, port: nat): (calls: seq<Effect>)
    ensures |calls| <= |subs|
    ensures forall k :: 0 <= k < |calls| ==>
      calls[k].HandlerCalled? && calls[k].data == env.data && calls[k].addr == addr && calls[k].port == port
    ensures forall k :: 0 <= k < |calls| ==> Subscription(env.channel, calls[k].handler) in subs
    decreases |subs|
  {
    if subs == [] then []
    else
      var last := subs[|subs| - 1];
      HandlerCalls(subs[..|subs| - 1], env, addr, port)
        + (if last.channel == env.channel then [HandlerCalled(last.handler, env.data, addr, port)] else [])
  }

  /** What `onReceiveMessage` does with one decoded message. */
  function Route(subs: seq<Subscription>, env: Envelope, addr: string, port: nat): (effects: seq<Effect>)
    ensures |subs| > 0 ==> |effects| <= |subs| && forall k :: 0 <= k < |effects| ==>
      effects[k].HandlerCalled? && Subscription(env.channel, effects[k].handler) in subs
      && effects[k].data == env.data && effects[k].addr == addr && effects[k].port == port
    ensures |subs| > 0 && DistinctChannels(subs) ==> |effects| <= 1
  {
    if |subs| == 0 then [Emitted(PeerMessageReceived(addr, env.data, port))]
    else
      var calls := HandlerCalls(subs, env, addr, port);
      assert DistinctChannels(subs) ==> |calls| <= 1 by {
        if DistinctChannels(subs) {
          HandlerCallsDistinct(subs, env, addr, port);
        }
      }
      calls
  }

  /** With pairwise distinct channels, at most one subscriber is called: the
      one for the message's channel. */
  lemma {:induction false} HandlerCallsDistinct(subs: seq<Subscription>, env: Envelope, addr: string, port: nat)
    requires DistinctChannels(subs)
    ensures !Subscribed(subs, env.channel) ==> HandlerCalls(subs, env, addr, port) == []
    ensures forall i :: 0 <= i < |subs| && subs[i].channel == env.channel ==>
      HandlerCalls(subs, env, addr, port) == [HandlerCalled(subs[i].handler, env.data, addr, port)]
    decreases |subs|
  {
    if subs != [] {
      var init, last := subs[..|subs| - 1], subs[|subs| - 1];
      HandlerCallsDistinct(init, env, addr, port);
      if last.channel == env.channel {
        assert !Subscribed(init, env.channel);
      } else {
        assert Subscribed(subs, env.channel) ==> Subscribed(init, env.channel);
      }
    }
  }

  /** The generic `peer-message-received` event fires exactly when nobody has
      subscribed; otherwise the subscriber of the message's channel is called,
      and a message for a channel nobody subscribed to is dropped. */
  lemma RouteDispatch(subs: seq<Subscription>, env: Envelope, addr: string, port: nat)
    requires DistinctChannels(subs)
    ensures Route(subs, env, addr, port) == [Emitted(PeerMessageReceived(addr, env.data, port))] <==> |subs| == 0
    ensures |subs| > 0 && !Subscribed(subs, env.channel) ==> Route(subs, env, addr, port) == []
    ensures forall i :: 0 <= i < |subs| && subs[i].channel == env.channel ==>
      Route(subs, env, addr, port) == [HandlerCalled(subs[i].handler, env.data, addr, port)]
  {
    HandlerCallsDistinct(subs, env, addr, port);
    if |subs| > 0 {
      var r := Route(subs, env, addr, port);
      assert r != [] ==> r[0].HandlerCalled?;
    }
  }

  /** What `processReceivedMessage` does with the decoded messages of one
      read: each is parsed and routed, in order. */
  function Received(subs: seq<Subscription>, parse: string -> Envelope, messages: seq<string>, addr: string, port: nat): (effects: seq<Effect>)
    ensures |subs| == 0 ==> |effects| == |messages| && forall k :: 0 <= k < |effects| ==>
      effects[k] == Emitted(PeerMessageReceived(addr, parse(messages[k]).data, port))
    decreases |messages|
  {
    if messages == [] then []
    else
      var init := messages[..|messages| - 1];
      assert forall k :: 0 <= k < |init| ==> init[k] == messages[k];
      Received(subs, parse, init, addr, port) + Route(subs, parse(messages[|messages| - 1]), addr, port)
  }

  /** With subscriptions, a read only ever calls handlers, each with the
      sender's address and port; the generic event never fires. */
  lemma {:induction false} ReceivedOnlyHandlers(subs: seq<Subscription>, parse: string -> Envelope, messages: seq<string>, addr: string, port: nat)
    requires |subs| > 0
    ensures forall e :: e in Received(subs, parse, messages, addr, port) ==>
      e.HandlerCalled? && e.addr == addr && e.port == port
    decreases |messages|
  {
    if messages != [] {
      ReceivedOnlyHandlers(subs, parse, messages[..|messages| - 1], addr, port);
    }
  }

  /** A read of several messages dispatches them one after the other: the
      effects of `a + b` are those of `a` followed by those of `b`. */
  lemma {:induction false} ReceivedAppend(subs: seq<Subscription>, parse: string -> Envelope, a: seq<string>, b: seq<string>, addr: string, port: nat)
    ensures Received(subs, parse, a + b, addr, port) == Received(subs, parse, a, addr, port) + Received(subs, parse, b, addr, port)
    decreases |b|
  {
    if b == [] {
      assert a + b == a;
    } else {
      var init, last := b[..|b| - 1], b[|b| - 1];
      assert (a + b)[..|a + b| - 1] == a + init && (a + b)[|a + b| - 1] == last;
      ReceivedAppend(subs, parse, a, init, addr, port);
      AppendAssoc(Received(subs, parse, a, addr, port), Received(subs, parse, init, addr, port),
        Route(subs, parse(last), addr, port));
    }
  }

  /** One message is parsed and routed on its own. */
  lemma ReceivedOne(subs: seq<Subscription>, parse: string -> Envelope, m: string, addr: string, port: nat)
    ensures Received(subs, parse, [m], addr, port) == Route(subs, parse(m), addr, port)
  {
    assert [m][..0] == [];
  }

  // ---------------------------------------------------------------------------
  // The network object
  // ---------------------------------------------------------------------------

  class Network {
    /** `JSON.stringify` and `JSON.parse` on envelopes. */
    const stringify: Envelope -> string
    const parse: string -> Envelope

    var hostAddr: string
    var hostPort: nat
    var hostName: string

    /** `pseudoServer.peers` and `pseudoServer.peerConnections`. Both objects
        always receive and lose the same keys at the same time, so one list
        gives the iteration order of both. */
    var peers: map<string, Peer>
    var peerConnections: map<string, Socket>
    var keyOrder: seq<string>

    var channelSubscriptions: seq<Subscription>

    ghost predicate Valid()
      reads this
    {
      && hostName == PeerName(hostAddr, hostPort)
      && Registry(peers, peerConnections, keyOrder)
      && DistinctChannels(channelSubscriptions)
    }

    constructor (stringify: Envelope -> string, parse: string -> Envelope)
      ensures Valid()
      ensures this.stringify == stringify && this.parse == parse
      ensures hostAddr == "127.0.0.1" && hostPort == 0
      ensures peers == map[] && peerConnections == map[] && keyOrder == []
      ensures channelSubscriptions == []
    {
      this.stringify := stringify;
      this.parse := parse;
      hostAddr := "127.0.0.1";
      hostPort := 0;
      hostName := "127.0.0.1:0";
      peers := map[];
      peerConnections := map[];
      keyOrder := [];
      channelSubscriptions := [];
      assert NatToString(0) == "0";
    }

    /** Recording the address and port the server listens on. */
    method SetIdentity(addr: string, port: nat)
      requires Valid()
      modifies this`hostAddr, this`hostPort, this`hostName
      ensures Valid()
      ensures hostAddr == addr && hostPort == port && hostName == PeerName(addr, port)
    {
      hostAddr := addr;
      hostPort := port;
      hostName := PeerName(hostAddr, hostPort);
    }

    /** `connectToPeer(remoteAddr, remotePort)`; `connection` stands for the
        socket `net.connect` returns. */
    method ConnectToPeer(remoteAddr: string, remotePort: nat, connection: Socket) returns (effects: seq<Effect>)
      requires Valid()
      modifies this`peers, this`peerConnections, this`keyOrder
      ensures Valid()
      ensures var remoteName := PeerName(remoteAddr, remotePort);
        match Arbitrate(hostName, old(peerConnections).Keys, remoteName)
        case Connect =>
          && peers == old(peers)[remoteName := Peer(remoteAddr, remotePort)]
          && peerConnections == old(peerConnections)[remoteName := connection]
          && keyOrder == old(keyOrder) + [remoteName]
          && effects == [Dialled(remotePort, remoteAddr), Emitted(PeerConnected(Peer(remoteAddr, remotePort)))]
        case RespondOnly =>
          && peers == old(peers) && peerConnections == old(peerConnections) && keyOrder == old(keyOrder)
          && effects == [MulticastResponse(hostAddr, hostPort)]
        case _ =>
          && peers == old(peers) && peerConnections == old(peerConnections) && keyOrder == old(keyOrder)
          && effects == []
    {
      var remoteName := PeerName(remoteAddr, remotePort);
      if remoteName == hostName {
        return [];
      }
      if remoteName in peerConnections {
        return [];
      }
      if Less(remoteName, hostName) {
        return [MulticastResponse(hostAddr, hostPort)];
      }
      var peer := Peer(remoteAddr, remotePort);
      Register(peers, peerConnections, keyOrder, peer, connection);
      peers := peers[remoteName := peer];
      peerConnections := peerConnections[remoteName := connection];
      keyOrder := keyOrder + [remoteName];
      effects := [Dialled(remotePort, remoteAddr), Emitted(PeerConnected(peers[remoteName]))];
    }

    /** `onPeerConnect` for an inbound connection whose socket reports
        `remoteAddress` and `remotePort` (either may be missing); `isIPv6` is
        `net.isIPv6`. */
    method OnPeerConnect(remoteAddress: Option<string>, remotePort: Option<nat>, isIPv6: string -> bool, connection: Socket)
      returns (peer: Peer, effects: seq<Effect>)
      requires Valid()
      modifies this`peers, this`peerConnections, this`keyOrder
      ensures Valid()
      ensures var addr := if remoteAddress.Some? then remoteAddress.value else "127.0.0.1";
        peer.addr == (if isIPv6(addr) then SubstringFrom(addr, 7) else addr)
      ensures peer.port == if remotePort.Some? then remotePort.value else 0
      ensures var name := PeerName(peer.addr, peer.port);
        && peers == old(peers)[name := peer]
        && peerConnections == old(peerConnections)[name := connection]
        && keyOrder == if name in old(keyOrder) then old(keyOrder) else old(keyOrder) + [name]
      ensures effects == [Emitted(PeerConnected(peer))]
    {
      var peerAddr := "127.0.0.1";
      if remoteAddress.Some? {
        peerAddr := remoteAddress.value;
      }
      var peerPort := 0;
      if remotePort.Some? {
        peerPort := remotePort.value;
      }
      if isIPv6(peerAddr) {
        peerAddr := SubstringFrom(peerAddr, 7);
      }
      peer := Peer(peerAddr, peerPort);
      var peerName := PeerName(peer.addr, peer.port);
      Register(peers, peerConnections, keyOrder, peer, connection);
      peers := peers[peerName := peer];
      peerConnections := peerConnections[peerName := connection];
      keyOrder := if peerName in keyOrder then keyOrder else keyOrder + [peerName];
      effects := [Emitted(PeerConnected(peer))];
    }

    /** `onPeerDisconnect(peer)`, run when a connection closes. */
    method OnPeerDisconnect(peer: Peer) returns (effects: seq<Effect>)
      requires Valid()
      modifies this`peers, this`peerConnections, this`keyOrder
      ensures Valid()
      ensures var name := PeerName(peer.addr, peer.port);
        && peers == old(peers) - {name}
        && peerConnections == old(peerConnections) - {name}
        && keyOrder == Without(old(keyOrder), name)
      ensures effects == [Emitted(PeerDisconnected(peer))]
    {
      var peerName := PeerName(peer.addr, peer.port);
      Unregister(peers, peerConnections, keyOrder, peerName);
      peers := peers - {peerName};
      peerConnections := peerConnections - {peerName};
      keyOrder := Without(keyOrder, peerName);
      effects := [Emitted(PeerDisconnected(peer))];
    }

    /** `subscribe(channel, eventHandler)`: the first subscriber of a channel
        keeps it. */
    method Subscribe(channel: string, handler: nat)
      requires Valid()
      modifies this`channelSubscriptions
      ensures Valid()
      ensures channelSubscriptions ==
        if Subscribed(old(channelSubscriptions), channel) then old(channelSubscriptions)
        else old(channelSubscriptions) + [Subscription(channel, handler)]
    {
      var i := 0;
      while i < |channelSubscriptions|
        invariant 0 <= i <= |channelSubscriptions|
        invariant forall j :: 0 <= j < i ==> channelSubscriptions[j].channel != channel
      {
        if channelSubscriptions[i].channel == channel {
          return;
        }
        i := i + 1;
      }
      channelSubscriptions := channelSubscriptions + [Subscription(channel, handler)];
    }

    /** `unsubscribe(channel)`: the entry for the channel is spliced out. */
    method Unsubscribe(channel: string)
      requires Valid()
      modifies this`channelSubscriptions
      ensures Valid()
      ensures channelSubscriptions == WithoutChannel(old(channelSubscriptions), channel)
    {
      var i := 0;
      while i < |channelSubscriptions|
        invariant 0 <= i <= |channelSubscriptions|
        invariant channelSubscriptions == old(channelSubscriptions)
        invariant forall j :: 0 <= j < i ==> channelSubscriptions[j].channel != channel
      {
        if channelSubscriptions[i].channel == channel {
          SpliceIsWithoutChannel(channelSubscriptions, channel, i);
          channelSubscriptions := channelSubscriptions[..i] + channelSubscriptions[i + 1..];
          return;
        }
        i := i + 1;
      }
      WithoutAbsentChannel(channelSubscriptions, channel);
    }

    /** `onReceiveMessage` for one parsed message from `remoteAddr:remotePort`. */
    method OnReceiveMessage(remoteAddr: string, remoteData: Envelope, remotePort: nat) returns (effects: seq<Effect>)
      ensures effects == Route(channelSubscriptions, remoteData, remoteAddr, remotePort)
    {
      if |channelSubscriptions| == 0 {
        return [Emitted(PeerMessageReceived(remoteAddr, remoteData.data, remotePort))];
      }
      var subs := channelSubscriptions;
      effects := [];
      var i := 0;
      while i < |subs|
        invariant 0 <= i <= |subs|
        invariant effects == HandlerCalls(subs[..i], remoteData, remoteAddr, remotePort)
      {
        assert subs[..i + 1][..i] == subs[..i];
        var subscription := subs[i];
        if subscription.channel == remoteData.channel {
          effects := effects + [HandlerCalled(subscription.handler, remoteData.data, remoteAddr, remotePort)];
        }
        i := i + 1;
      }
      assert subs[..i] == subs;
    }

    /** `processReceivedMessage(data, remoteAddr, remotePort)` for one read
        `data` from a connection. */
    method ProcessReceivedMessage(data: string, remoteAddr: string, remotePort: nat) returns (effects: seq<Effect>)
      ensures effects == Received(channelSubscriptions, parse, SplitRead(data), remoteAddr, remotePort)
    {
      var messages := SplitRead(data);
      effects := [];
      var i := 0;
      while i < |messages|
        invariant 0 <= i <= |messages|
        invariant effects == Received(channelSubscriptions, parse, messages[..i], remoteAddr, remotePort)
      {
        assert messages[..i + 1][..i] == messages[..i];
        var routed := OnReceiveMessage(remoteAddr, parse(messages[i]), remotePort);
        effects := effects + routed;
        i := i + 1;
      }
      assert messages[..i] == messages;
    }

    /** The bytes written for `content` on channel `ch`. */
    function Encoded(content: string, ch: string): string
      reads this
    {
      Frame(stringify(Envelope(ch, content)))
    }

    /** `sendMessage(remoteAddr, remotePort, content, ch)`. */
    method SendMessage(remoteAddr: string, remotePort: nat, content: string, ch: string) returns (effects: seq<Effect>)
      ensures PeerName(remoteAddr, remotePort) !in peerConnections ==> effects == []
      ensures PeerName(remoteAddr, remotePort) in peerConnections ==>
        effects == [Wrote(peerConnections[PeerName(remoteAddr, remotePort)], Encoded(content, ch))]
    {
      var name := PeerName(remoteAddr, remotePort);
      if name in peerConnections {
        var connection := peerConnections[name];
        effects := [Wrote(connection, Frame(stringify(Envelope(ch, content))))];
      } else {
        effects := [];
      }
    }

    /** The `send-message` event: `sendMessage` on the default channel. */
    method SendMessageEvent(remoteAddr: string, remotePort: nat, content: string) returns (effects: seq<Effect>)
      ensures PeerName(remoteAddr, remotePort) !in peerConnections ==> effects == []
      ensures PeerName(remoteAddr, remotePort) in peerConnections ==>
        effects == [Wrote(peerConnections[PeerName(remoteAddr, remotePort)], Encoded(content, "none"))]
    {
      effects := SendMessage(remoteAddr, remotePort, content, SendChannel);
    }

    /** The `broadcast-message` event: `broadcastMessage` on the default channel. */
    method BroadcastMessageEvent(content: string) returns (effects: seq<Effect>)
      requires Valid()
      ensures |effects| == |keyOrder| == |peerConnections|
      ensures forall i :: 0 <= i < |effects| ==>
        effects[i] == Wrote(peerConnections[keyOrder[i]], Encoded(content, "broadcast"))
    {
      effects := BroadcastMessage(content, BroadcastChannel);
    }

    /** `broadcastMessage(content, ch)`: one frame to every open connection,
        in the registry's key order. */
    method BroadcastMessage(content: string, ch: string) returns (effects: seq<Effect>)
      requires Valid()
      ensures |effects| == |keyOrder| == |peerConnections|
      ensures forall i :: 0 <= i < |effects| ==>
        effects[i] == Wrote(peerConnections[keyOrder[i]], Encoded(content, ch))
      ensures forall k :: k in peerConnections ==> Wrote(peerConnections[k], Encoded(content, ch)) in effects
    {
      var message := Envelope(ch, content);
      effects := WriteEach(keyOrder, peerConnections, Frame(stringify(message)));
      KeyCount(keyOrder, peerConnections);
      EveryKeyWritten(effects, keyOrder, peerConnections, Frame(stringify(message)));
    }
  }

  /** The `forEach` of `broadcastMessage`: `bytes` written to the connection
      of each listed key, in list order. */
  method WriteEach(keys: seq<string>, conns: map<string, Socket>, bytes: string) returns (effects: seq<Effect>)
    requires forall k :: k in keys ==> k in conns
    ensures |effects| == |keys|
    ensures forall i :: 0 <= i < |effects| ==> effects[i] == Wrote(conns[keys[i]], bytes)
  {
    effects := [];
    var i := 0;
    while i < |keys|
      invariant 0 <= i <= |keys|
      invariant |effects| == i
      invariant forall j :: 0 <= j < i ==> effects[j] == Wrote(conns[keys[j]], bytes)
    {
      effects := effects + [Wrote(conns[keys[i]], bytes)];
      i := i + 1;
    }
  }

  /** A write per listed key reaches every connection of the registry. */
  lemma EveryKeyWritten(effects: seq<Effect>, keys: seq<string>, m: map<string, Socket>, bytes: string)
    requires forall k :: k in keys <==> k in m
    requires |effects| == |keys|
    requires forall i :: 0 <= i < |effects| ==> keys[i] in m && effects[i] == Wrote(m[keys[i]], bytes)
    ensures forall k :: k in m ==> Wrote(m[k], bytes) in effects
  {
    forall k | k in m
      ensures Wrote(m[k], bytes) in effects
    {
      var j :| 0 <= j < |keys| && keys[j] == k;
      assert effects[j] == Wrote(m[k], bytes);
    }
  }

  // ---------------------------------------------------------------------------
  // Subscription table
  // ---------------------------------------------------------------------------

  /** The subscriptions without the one for `channel`, others in order. */
  function WithoutChannel(subs: seq<Subscription>, channel: string): (r: seq<Subscription>)
    ensures forall s :: s in r <==> s in subs && s.channel != channel
    ensures DistinctChannels(subs) ==> DistinctChannels(r)
    decreases |subs|
  {
    if subs == [] then []
    else
      var rest := WithoutChannel(subs[1..], channel);
      assert forall s :: s in subs <==> s == subs[0] || s in subs[1..];
      if subs[0].channel == channel then rest else [subs[0]] + rest
  }

  lemma {:induction false} WithoutAbsentChannel(subs: seq<Subscription>, channel: string)
    requires forall j :: 0 <= j < |subs| ==> subs[j].channel != channel
    ensures WithoutChannel(subs, channel) == subs
    decreases |subs|
  {
    if subs != [] {
      WithoutAbsentChannel(subs[1..], channel);
    }
  }

  lemma {:induction false} WithoutChannelAppend(a: seq<Subscription>, b: seq<Subscription>, channel: string)
    ensures WithoutChannel(a + b, channel) == WithoutChannel(a, channel) + WithoutChannel(b, channel)
    decreases |a|
  {
    if a != [] {
      ConsAppend(a, b);
      WithoutChannelAppend(a[1..], b, channel);
    } else {
      EmptyAppend(a, b);
    }
  }

  /** Splicing out the first entry for a channel removes every entry for it,
      because channels are pairwise distinct. */
  lemma SpliceIsWithoutChannel(subs: seq<Subscription>, channel: string, i: nat)
    requires DistinctChannels(subs)
    requires i < |subs| && subs[i].channel == channel
    ensures subs[..i] + subs[i + 1..] == WithoutChannel(subs, channel)
  {
    assert subs == subs[..i] + ([subs[i]] + subs[i + 1..]);
    WithoutChannelAppend(subs[..i], [subs[i]] + subs[i + 1..], channel);
    WithoutAbsentChannel(subs[..i], channel);
    WithoutAbsentChannel(subs[i + 1..], channel);
  }

  /** Subscribing to a new channel and unsubscribing from it again restores
      the table; unsubscribing from a channel nobody holds changes nothing. */
  lemma SubscribeUnsubscribe(subs: seq<Subscription>, channel: string, handler: nat)
    requires !Subscribed(subs, channel)
    ensures WithoutChannel(subs + [Subscription(channel, handler)], channel) == subs
    ensures WithoutChannel(subs, channel) == subs
  {
    WithoutChannelAppend(subs, [Subscription(channel, handler)], channel);
    WithoutAbsentChannel(subs, channel);
  }

  // ---------------------------------------------------------------------------
  // End to end
  // ---------------------------------------------------------------------------

  /** What one node writes for an envelope, read by the other node in one
      piece, is routed there as that envelope, provided the JSON layer
      round-trips it and its text holds no raw CRLF. */
  lemma SendThenReceive(subs: seq<Subscription>, stringify: Envelope -> string, parse: string -> Envelope,
                        env: Envelope, addr: string, port: nat)
    requires parse(stringify(env)) == env && Framable(stringify(env))
    ensures Received(subs, parse, SplitRead(Frame(stringify(env))), addr, port) == Route(subs, env, addr, port)
  {
    var text := stringify(env);
    FramesRoundTrip([text]);
    assert Frames([text]) == Frame(text) by {
      assert Frames([text]) == Frame(text) + Frames([]);
    }
    assert Received(subs, parse, [text], addr, port) == Received(subs, parse, [], addr, port) + Route(subs, env, addr, port);
  }
}
