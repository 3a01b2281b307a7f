/** The chat-partner bookkeeping of the `App` component (src/app/app.tsx):
    the list of partners shown in the sidebar, which conversation is active,
    and the messages exchanged with each partner. The React rendering and
    `setState` plumbing are not modelled; each handler is a step on the
    component's state, and the `send-message` events it emits are returned. */
module ChatApp {
  import opened JsText
  import opened PeerNetwork

  datatype Message = Message(fromMe: bool, text: string, time: int)

  datatype User = User(
    activeConversation: bool,
    image: string,
    ip: string,
    messages: seq<Message>,
    lastMessage: Message,
    name: string,
    port: nat)

  datatype UserInfo = UserInfo(image: string, ip: string, name: string, port: nat)

  /** The JSON body of every message between two apps; `kind` is its `type`. */
  datatype NetworkMessage = NetworkMessage(body: string, time: int, kind: string)

  /** A `send-message` event handed to the network. */
  datatype SendRequest = SendRequest(remoteAddr: string, remotePort: nat, content: string)

  /** Message types: ask for the user name, reply with it, chat message. */
  const AskUsername := "AUN"
  const ReplyUsername := "RUN"
  const ChatMessage := "MSG"

  const NoMessagesYet := "There are no messages send within this conversation."

  predicate Matches(u: User, ip: string, port: nat) {
    u.ip == ip && u.port == port
  }

  predicate AnyActive(ps: seq<User>) {
    exists i :: 0 <= i < |ps| && ps[i].activeConversation
  }

  /** The loop with `break` that looks for an active conversation. */
  method HasActive(ps: seq<User>) returns (b: bool)
    ensures b <==> AnyActive(ps)
  {
    b := false;
    var i := 0;
    while i < |ps|
      invariant 0 <= i <= |ps|
      invariant !b
      invariant forall j :: 0 <= j < i ==> !ps[j].activeConversation
    {
      if ps[i].activeConversation {
        b := true;
        break;
      }
      i := i + 1;
    }
  }

  /** "If there is no active conversation make the first conversation active." */
  function WithActive(ps: seq<User>): (r: seq<User>)
    ensures |r| == |ps|
    ensures |ps| > 0 ==> AnyActive(r)
    ensures AnyActive(ps) ==> r == ps
    ensures forall i :: 0 < i < |ps| ==> r[i] == ps[i]
    ensures |ps| > 0 ==> r[0] == ps[0].(activeConversation := true) || r[0] == ps[0]
  {
    if |ps| == 0 || AnyActive(ps) then ps
    else
      var r := ps[0 := ps[0].(activeConversation := true)];
      assert r[0].activeConversation;
      r
  }

  /** The partner `handlePeerConnected` creates for a new peer. */
  function NewPartner(peer: Peer, now: int): (u: User)
    ensures !u.activeConversation && u.messages == []
    ensures Matches(u, peer.addr, peer.port) && u.name == PeerName(peer.addr, peer.port)
  {
    User(false, "", peer.addr, [], Message(false, NoMessagesYet, now), PeerName(peer.addr, peer.port), peer.port)
  }

  /** Appending a new partner keeps every existing partner but possibly the
      first, activates something, and keeps an active partner active. */
  lemma PeerConnectedAppends(ps: seq<User>, peer: Peer, now: int)
    ensures var r := WithActive(ps + [NewPartner(peer, now)]);
      && |r| == |ps| + 1
      && r[|ps|] == NewPartner(peer, now).(activeConversation := ps == [])
      && AnyActive(r)
      && (forall i :: 0 <= i < |ps| && ps[i].activeConversation ==> r[i] == ps[i])
      && (forall i :: 0 < i < |ps| ==> r[i] == ps[i])
  {
  }

  /** The partners `handlePeerDisconnected` keeps, AS WRITTEN: those that
      differ from the peer in address AND in port. */
  function Kept(ps: seq<User>, peer: Peer): (r: seq<User>)
    ensures forall u :: u in r <==> u in ps && u.ip != peer.addr && u.port != peer.port
    ensures |r| <= |ps|
    decreases |ps|
  {
    if ps == [] then []
    else
      var init, last := ps[..|ps| - 1], ps[|ps| - 1];
      assert forall u :: u in ps <==> u in init || u == last;
      Kept(init, peer) + (if last.ip != peer.addr && last.port != peer.port then [last] else [])
  }

  /** Filtering keeps the original order: it distributes over concatenation. */
  lemma {:induction false} KeptInOrder(a: seq<User>, b: seq<User>, peer: Peer)
    ensures Kept(a + b, peer) == Kept(a, peer) + Kept(b, peer)
    decreases |b|
  {
    if b == [] {
      assert a + b == a;
    } else {
      var init := b[..|b| - 1];
      assert (a + b)[..|a + b| - 1] == a + init;
      KeptInOrder(a, init, peer);
    }
  }

  /** The partners the disconnect of `peer` evidently should remove: the one
      at the peer's address and port, and no other. */
  function KeptIntended(ps: seq<User>, peer: Peer): (r: seq<User>)
    ensures forall u :: u in r <==> u in ps && !Matches(u, peer.addr, peer.port)
    ensures |r| <= |ps|
    decreases |ps|
  {
    if ps == [] then []
    else
      var init, last := ps[..|ps| - 1], ps[|ps| - 1];
      assert forall u :: u in ps <==> u in init || u == last;
      KeptIntended(init, peer) + (if !Matches(last, peer.addr, peer.port) then [last] else [])
  }

  /** The corrected filter keeps the original order too. */
  lemma {:induction false} KeptIntendedInOrder(a: seq<User>, b: seq<User>, peer: Peer)
    ensures KeptIntended(a + b, peer) == KeptIntended(a, peer) + KeptIntended(b, peer)
    decreases |b|
  {
    if b == [] {
      assert a + b == a;
    } else {
      var init := b[..|b| - 1];
      assert (a + b)[..|a + b| - 1] == a + init;
      KeptIntendedInOrder(a, init, peer);
    }
  }

  /** Two apps on one address (different ports) and one more on another
      address with the same port: the disconnect of the first drops all
      partners as written, although only one of them went away. */
  lemma DisconnectRemovesBystanders()
    ensures var a := NewPartner(Peer("10.0.0.1", 5000), 0);
      var b := NewPartner(Peer("10.0.0.1", 5001), 0);
      var c := NewPartner(Peer("10.0.0.2", 5000), 0);
      && Kept([a, b, c], Peer("10.0.0.1", 5000)) == []
      && KeptIntended([a, b, c], Peer("10.0.0.1", 5000)) == [b, c]
  {
    var p := Peer("10.0.0.1", 5000);
    var a, b, c := NewPartner(p, 0), NewPartner(Peer("10.0.0.1", 5001), 0), NewPartner(Peer("10.0.0.2", 5000), 0);
    assert "10.0.0.1" != "10.0.0.2" by {
      assert "10.0.0.1"[7] != "10.0.0.2"[7];
    }
    assert [a, b, c][..2] == [a, b] && [a, b][..1] == [a] && [a][..0] == [];
    assert Kept([a], p) == [] && KeptIntended([a], p) == [];
    assert Kept([a, b], p) == [] && KeptIntended([a, b], p) == [b];
  }

  /** The active flags after switching to the partner at `ip:port`. */
  function Switched(ps: seq<User>, ip: string, port: nat): (r: seq<User>)
    ensures |r| == |ps|
    ensures forall i :: 0 <= i < |ps| ==> r[i] == ps[i].(activeConversation := Matches(ps[i], ip, port))
    decreases |ps|
  {
    if ps == [] then []
    else [ps[0].(activeConversation := Matches(ps[0], ip, port))] + Switched(ps[1..], ip, port)
  }

  /** When address and port identify partners, switching to a listed partner
      leaves exactly that partner active. */
  lemma SwitchSelectsOne(ps: seq<User>, k: nat)
    requires k < |ps|
    requires forall i, j :: 0 <= i < j < |ps| ==> !Matches(ps[i], ps[j].ip, ps[j].port)
    ensures var r := Switched(ps, ps[k].ip, ps[k].port);
      forall i :: 0 <= i < |r| ==> (r[i].activeConversation <==> i == k)
  {
    var r := Switched(ps, ps[k].ip, ps[k].port);
    forall i | 0 <= i < |r|
      ensures r[i].activeConversation <==> i == k
    {
      if i < k {
        assert !Matches(ps[i], ps[k].ip, ps[k].port);
      } else if k < i {
        assert !Matches(ps[k], ps[i].ip, ps[i].port);
      }
    }
  }

  /** A message added to a partner's history, which also becomes its
      latest message. */
  function Appended(u: User, m: Message): (v: User)
    ensures v.messages == u.messages + [m] && v.lastMessage == m
    ensures v.(messages := u.messages, lastMessage := u.lastMessage) == u
  {
    u.(messages := u.messages + [m], lastMessage := m)
  }

  /** Every partner at `ip:port` renamed. */
  function Renamed(ps: seq<User>, ip: string, port: nat, name: string): (r: seq<User>)
    ensures |r| == |ps|
    ensures forall i :: 0 <= i < |ps| ==> r[i] == if Matches(ps[i], ip, port) then ps[i].(name := name) else ps[i]
    decreases |ps|
  {
    if ps == [] then []
    else [if Matches(ps[0], ip, port) then ps[0].(name := name) else ps[0]] + Renamed(ps[1..], ip, port, name)
  }

  /** `m` added to every partner at `ip:port`. */
  function Delivered(ps: seq<User>, ip: string, port: nat, m: Message): (r: seq<User>)
    ensures |r| == |ps|
    ensures forall i :: 0 <= i < |ps| ==> r[i] == if Matches(ps[i], ip, port) then Appended(ps[i], m) else ps[i]
    decreases |ps|
  {
    if ps == [] then []
    else [if Matches(ps[0], ip, port) then Appended(ps[0], m) else ps[0]] + Delivered(ps[1..], ip, port, m)
  }

  /** `m` added to every active partner. */
  function SentToActive(ps: seq<User>, m: Message): (r: seq<User>)
    ensures |r| == |ps|
    ensures forall i :: 0 <= i < |ps| ==> r[i] == if ps[i].activeConversation then Appended(ps[i], m) else ps[i]
    decreases |ps|
  {
    if ps == [] then []
    else [if ps[0].activeConversation then Appended(ps[0], m) else ps[0]] + SentToActive(ps[1..], m)
  }

  /** Where `handleSendMessage` sends: the address and port of the LAST
      active partner, or `""` and `0` when no partner is active. */
  function Destination(ps: seq<User>): (d: (string, nat))
    ensures !AnyActive(ps) ==> d == ("", 0)
    ensures AnyActive(ps) ==> exists i :: (0 <= i < |ps| && ps[i].activeConversation && d == (ps[i].ip, ps[i].port)
      && forall j :: i < j < |ps| ==> !ps[j].activeConversation)
    decreases |ps|
  {
    if ps == [] then ("", 0)
    else
      var init, last := ps[..|ps| - 1], ps[|ps| - 1];
      if last.activeConversation then (last.ip, last.port)
      else
        assert AnyActive(ps) ==> AnyActive(init) by {
          if AnyActive(ps) {
            var i :| 0 <= i < |ps| && ps[i].activeConversation;
            assert init[i].activeConversation;
          }
        }
        Destination(init)
  }

  class App {
    /** `JSON.stringify` and `JSON.parse` on message bodies. */
    const stringify: NetworkMessage -> string
    const parse: string -> NetworkMessage

    var chatPartners: seq<User>
    var userInfo: UserInfo

    constructor (stringify: NetworkMessage -> string, parse: string -> NetworkMessage)
      ensures this.stringify == stringify && this.parse == parse
      ensures chatPartners == [] && userInfo == UserInfo("", "", "", 0)
    {
      this.stringify := stringify;
      this.parse := parse;
      chatPartners := [];
      userInfo := UserInfo("", "", "", 0);
    }

    /** `updateUsername(ip, port, name)`. */
    method UpdateUsername(ip: string, port: nat, name: string)
      modifies this`chatPartners
      ensures chatPartners == Renamed(old(chatPartners), ip, port, name)
    {
      var ps := chatPartners;
      var i := 0;
      while i < |ps|
        invariant 0 <= i <= |ps| == |chatPartners|
        invariant forall j :: 0 <= j < i ==>
          ps[j] == if Matches(chatPartners[j], ip, port) then chatPartners[j].(name := name) else chatPartners[j]
        invariant forall j :: i <= j < |ps| ==> ps[j] == chatPartners[j]
      {
        if ps[i].ip == ip && ps[i].port == port {
          ps := ps[i := ps[i].(name := name)];
        }
        i := i + 1;
      }
      assert ps == Renamed(chatPartners, ip, port, name);
      chatPartners := ps;
    }

    /** `updateMessages(ip, port, networkMessage)`. */
    method UpdateMessages(ip: string, port: nat, networkMessage: NetworkMessage)
      modifies this`chatPartners
      ensures chatPartners ==
        Delivered(old(chatPartners), ip, port, Message(false, networkMessage.body, networkMessage.time))
    {
      var m := Message(false, networkMessage.body, networkMessage.time);
      var ps := chatPartners;
      var i := 0;
      while i < |ps|
        invariant 0 <= i <= |ps| == |chatPartners|
        invariant forall j :: 0 <= j < i ==>
          ps[j] == if Matches(chatPartners[j], ip, port) then Appended(chatPartners[j], m) else chatPartners[j]
        invariant forall j :: i <= j < |ps| ==> ps[j] == chatPartners[j]
      {
        if ps[i].ip == ip && ps[i].port == port {
          ps := ps[i := ps[i].(lastMessage := m)];
          ps := ps[i := ps[i].(messages := ps[i].messages + [m])];
        }
        i := i + 1;
      }
      assert ps == Delivered(chatPartners, ip, port, m);
      chatPartners := ps;
    }

    /** `handleSendMessage(message)` at time `now`. */
    method HandleSendMessage(message: string, now: int) returns (send: SendRequest)
      modifies this`chatPartners
      ensures chatPartners == SentToActive(old(chatPartners), Message(true, message, now))
      ensures send == SendRequest(Destination(old(chatPartners)).0, Destination(old(chatPartners)).1,
                                  stringify(NetworkMessage(message, now, ChatMessage)))
    {
      var msg := Message(true, message, now);
      var ps := chatPartners;
      var addr, port := "", 0;
      var i := 0;
      while i < |ps|
        invariant 0 <= i <= |ps| == |chatPartners|
        invariant (addr, port) == Destination(chatPartners[..i])
        invariant forall j :: 0 <= j < i ==>
          ps[j] == if chatPartners[j].activeConversation then Appended(chatPartners[j], msg) else chatPartners[j]
        invariant forall j :: i <= j < |ps| ==> ps[j] == chatPartners[j]
      {
        assert chatPartners[..i + 1][..i] == chatPartners[..i];
        if ps[i].activeConversation {
          addr := ps[i].ip;
          port := ps[i].port;
          ps := ps[i := ps[i].(messages := ps[i].messages + [msg])];
          ps := ps[i := ps[i].(lastMessage := msg)];
        }
        i := i + 1;
      }
      assert chatPartners[..i] == chatPartners;
      send := SendRequest(addr, port, stringify(NetworkMessage(message, now, ChatMessage)));
      assert ps == SentToActive(chatPartners, msg);
      chatPartners := ps;
    }

    /** `handleUsernameEntered(username)` at time `now`: the own name is set
        and announced to every partner. */
    method HandleUsernameEntered(username: string, now: int) returns (sends: seq<SendRequest>)
      modifies this`userInfo
      ensures userInfo == old(userInfo).(name := username)
      ensures |sends| == |chatPartners|
      ensures forall i :: 0 <= i < |sends| ==>
        sends[i] == SendRequest(chatPartners[i].ip, chatPartners[i].port, stringify(NetworkMessage(username, now, ReplyUsername)))
    {
      userInfo := userInfo.(name := username);
      sends := [];
      var i := 0;
      while i < |chatPartners|
        invariant 0 <= i <= |chatPartners|
        invariant |sends| == i
        invariant forall j :: 0 <= j < i ==>
          sends[j] == SendRequest(chatPartners[j].ip, chatPartners[j].port, stringify(NetworkMessage(username, now, ReplyUsername)))
      {
        var partner := chatPartners[i];
        sends := sends + [SendRequest(partner.ip, partner.port, stringify(NetworkMessage(username, now, ReplyUsername)))];
        i := i + 1;
      }
    }

    /** `handlePeerMessageReceived({addr, port, data})` at time `now`. */
    method HandlePeerMessageReceived(addr: string, port: nat, data: string, now: int) returns (sends: seq<SendRequest>)
      modifies this`chatPartners
      ensures var m := parse(data);
        if m.kind == AskUsername && userInfo.name != "" then
          && sends == [SendRequest(addr, port, stringify(NetworkMessage(userInfo.name, now, ReplyUsername)))]
          && chatPartners == old(chatPartners)
        else if m.kind == ReplyUsername then
          sends == [] && chatPartners == Renamed(old(chatPartners), addr, port, m.body)
        else if m.kind == ChatMessage then
          sends == [] && chatPartners == Delivered(old(chatPartners), addr, port, Message(false, m.body, m.time))
        else
          sends == [] && chatPartners == old(chatPartners)
    {
      var messageObj := parse(data);
      var kind, body := messageObj.kind, messageObj.body;
      sends := [];
      if kind == AskUsername && userInfo.name != "" {
        sends := [SendRequest(addr, port, stringify(NetworkMessage(userInfo.name, now, ReplyUsername)))];
      } else if kind == ReplyUsername {
        UpdateUsername(addr, port, body);
      } else if kind == ChatMessage {
        UpdateMessages(addr, port, messageObj);
      }
    }

    /** `handlePeerConnected(peer)` at time `now`. */
    method HandlePeerConnected(peer: Peer, now: int)
      modifies this`chatPartners
      ensures chatPartners == WithActive(old(chatPartners) + [NewPartner(peer, now)])
    {
      var ps := chatPartners + [NewPartner(peer, now)];
      var anyActiveConversation := HasActive(ps);
      if !anyActiveConversation {
        ps := ps[0 := ps[0].(activeConversation := true)];
      }
      chatPartners := ps;
    }

    /** `handlePeerDisconnected(peer)`, with its filter as written. */
    method HandlePeerDisconnected(peer: Peer)
      modifies this`chatPartners
      ensures chatPartners == WithActive(Kept(old(chatPartners), peer))
    {
      var ps: seq<User> := [];
      var i := 0;
      while i < |chatPartners|
        invariant 0 <= i <= |chatPartners|
        invariant ps == Kept(chatPartners[..i], peer)
      {
        assert chatPartners[..i + 1][..i] == chatPartners[..i];
        var partner := chatPartners[i];
        if partner.ip != peer.addr && partner.port != peer.port {
          ps := ps + [partner];
        }
        i := i + 1;
      }
      assert chatPartners[..i] == chatPartners;
      if |ps| > 0 {
        var anyActiveConversation := HasActive(ps);
        if !anyActiveConversation {
          ps := ps[0 := ps[0].(activeConversation := true)];
        }
      }
      chatPartners := ps;
    }

    /** `handleChangeConversation(newActivePartner)`. */
    method HandleChangeConversation(newActivePartner: User)
      modifies this`chatPartners
      ensures chatPartners == Switched(old(chatPartners), newActivePartner.ip, newActivePartner.port)
    {
      var ps := chatPartners;
      var i := 0;
      while i < |ps|
        invariant 0 <= i <= |ps| == |chatPartners|
        invariant forall j :: 0 <= j < i ==>
          ps[j] == chatPartners[j].(activeConversation := Matches(chatPartners[j], newActivePartner.ip, newActivePartner.port))
        invariant forall j :: i <= j < |ps| ==> ps[j] == chatPartners[j]
      {
        ps := ps[i := ps[i].(activeConversation := false)];
        if ps[i].ip == newActivePartner.ip && ps[i].port == newActivePartner.port {
          ps := ps[i := ps[i].(activeConversation := true)];
        }
        i := i + 1;
      }
      assert ps == Switched(chatPartners, newActivePartner.ip, newActivePartner.port);
      chatPartners := ps;
    }
  }
}
