/** The decision `connectToPeer` (src/app/peer2peer.ts) takes when multicast
    DNS reports a peer: whether this node opens the TCP connection, leaves it
    to the other side, or ignores the report. */
module Arbiter {
  import opened JsText

  datatype Decision =
    | IgnoreSelf        // the report names this node itself
    | AlreadyConnected  // a connection under that name is already open
    | RespondOnly       // the other side is to connect: re-send the response
    | Connect           // this side dials the peer and registers it

  /** The branch `connectToPeer` takes for `remoteName`, given this node's
      own name and the names it already holds connections for. */
  function Arbitrate(hostName: string, connected: set<string>, remoteName: string): (d: Decision)
    ensures d == IgnoreSelf <==> remoteName == hostName
    ensures d == AlreadyConnected <==> remoteName != hostName && remoteName in connected
    ensures d == Connect ==> remoteName !in connected && Less(hostName, remoteName)
  {
    if remoteName == hostName then IgnoreSelf
    else if remoteName in connected then AlreadyConnected
    else if Less(remoteName, hostName) then RespondOnly
    else
      LessConnected(remoteName, hostName);
      Connect
  }

  /** For two nodes that know nothing of each other yet, exactly one of them
      dials the other, and it is the one whose own name is smaller. */
  lemma ExactlyOneInitiates(a: string, connectedA: set<string>, b: string, connectedB: set<string>)
    requires a != b && b !in connectedA && a !in connectedB
    ensures (Arbitrate(a, connectedA, b) == Connect) != (Arbitrate(b, connectedB, a) == Connect)
    ensures Arbitrate(a, connectedA, b) == Connect <==> Less(a, b)
    ensures Arbitrate(a, connectedA, b) != Connect ==> Arbitrate(a, connectedA, b) == RespondOnly
  {
    LessConnected(a, b);
    LessAsymmetric(a, b);
  }

  /** On one address, names compare as the decimal texts of their ports. */
  lemma SameAddressOrder(addr: string, p: nat, q: nat)
    ensures Less(PeerName(addr, p), PeerName(addr, q)) <==> Less(NatToString(p), NatToString(q))
  {
    assert PeerName(addr, p) == (addr + ":") + NatToString(p);
    assert PeerName(addr, q) == (addr + ":") + NatToString(q);
    LessSharedPrefix(addr + ":", NatToString(p), NatToString(q));
  }

  /** Two instances on one host: the one listening on the smaller port
      (compared as text) dials the other. */
  lemma SameHostLowerPortDials()
    ensures Arbitrate(PeerName("10.0.0.1", 4001), {}, PeerName("10.0.0.1", 4002)) == Connect
    ensures Arbitrate(PeerName("10.0.0.1", 4002), {}, PeerName("10.0.0.1", 4001)) == RespondOnly
  {
    var x, y := NatToString(4001), NatToString(4002);
    assert x == "400" + "1" && y == "400" + "2";
    LessSharedPrefix("400", "1", "2");
    SameAddressOrder("10.0.0.1", 4001, 4002);
    LessAsymmetric(PeerName("10.0.0.1", 4001), PeerName("10.0.0.1", 4002));
  }

  /** Names compare as text, not by port number: port 10000 sorts before
      port 9999 on the same address, so the node on 10000 dials. */
  lemma TextualOrderNotNumeric()
    ensures Arbitrate(PeerName("h", 10000), {}, PeerName("h", 9999)) == Connect
  {
    assert NatToString(10000) == "10000" && NatToString(9999) == "9999";
    SameAddressOrder("h", 10000, 9999);
  }
}
