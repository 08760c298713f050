/** The messages that travel over the overlay. */
module Messages {
  /** What a message finally delivers: a contribution, a signed value or an accepted value. */
  type Payload(!new, ==)

  /** An encrypted body can be opened only by the node whose key it was encrypted with. */
  datatype Lock = Plain | For(owner: int)

  datatype Body =
    | Empty
    | Carries(payload: Payload)
    | Encloses(inner: Message)

  datatype Message =
    | Overlay(destination: int, lock: Lock, flood: bool, body: Body)
    | PathOverlay(destination: int, lock: Lock, flood: bool, body: Body, remainingPath: seq<int>)

  /** The wrapper one node puts around a message to send it in one round. */
  datatype Transport = Transport(sender: int, round: nat, isFinal: bool, message: Message)

  /** All a node sends in one round; it goes to one recipient. */
  datatype Batch = Batch(sender: int, recipient: int, round: nat, messages: seq<Transport>)

  /** A node's own key opens what was locked for it; there is nothing to open in a message without body. */
  predicate Opens(m: Message, node: int) {
    m.lock == Plain || m.lock.owner == node || m.body == Empty
  }

  /** Decryption in place; it fails, by an exception nobody catches, unless the message opens. */
  function Decrypt(m: Message, node: int): Message
    requires Opens(m, node)
  {
    m.(lock := Plain)
  }

  /** The onion for a path: one layer per hop, each locked for the hop it is addressed to. */
  function Onion(path: seq<int>, payload: Payload): Message
    requires path != []
  {
    Overlay(path[0], For(path[0]), false,
            if |path| == 1 then Carries(payload) else Encloses(Onion(path[1..], payload)))
  }

  /** A path message as it is made: addressed to the first hop, the others still to come. */
  function PathMessage(path: seq<int>, lock: Lock, payload: Payload): Message
    requires path != []
  {
    PathOverlay(path[0], lock, false, Carries(payload), path[1..])
  }

  /** Builds the onion from its last layer outward. */
  method BuildEncryptedOnion(path: seq<int>, payload: Payload) returns (layer: Message)
    requires path != []
    ensures layer == Onion(path, payload)
  {
    var last := path[|path| - 1];
    layer := Overlay(last, For(last), false, Carries(payload));
    var hop := |path| - 1;
    while hop > 0
      invariant 0 <= hop < |path|
      invariant layer == Onion(path[hop..], payload)
    {
      hop := hop - 1;
      assert path[hop..][1..] == path[hop + 1..];
      layer := Overlay(path[hop], For(path[hop]), false, Encloses(layer));
    }
    assert path[0..] == path;
  }
}
