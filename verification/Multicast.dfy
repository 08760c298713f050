/** What a node puts into circulation: onions to its proxies, and locked path messages to fellow proxies. */
module Multicast {
  import opened Messages
  import opened Overlay
  import opened PathFinder
  import opened PathSpec

  /** One onion for each route. */
  function Onions(routes: seq<seq<int>>, payload: Payload): (r: seq<Message>)
    requires forall k :: 0 <= k < |routes| ==> routes[k] != []
    ensures |r| == |routes| && forall k :: 0 <= k < |routes| ==> r[k] == Onion(routes[k], payload)
  {
    seq(|routes|, k requires 0 <= k < |routes| => Onion(routes[k], payload))
  }

  /** One message for each route, locked for the route's last node. */
  function PathMessages(routes: seq<seq<int>>, payload: Payload): (r: seq<Message>)
    requires forall k :: 0 <= k < |routes| ==> routes[k] != []
    ensures |r| == |routes|
    ensures forall k :: 0 <= k < |routes| ==>
              r[k] == PathMessage(routes[k], For(routes[k][|routes[k]| - 1]), payload)
  {
    seq(|routes|, k requires 0 <= k < |routes| => PathMessage(routes[k], For(routes[k][|routes[k]| - 1]), payload))
  }

  lemma {:induction false} PathsHaveHops(source: int, targets: seq<int>, n: nat, start: nat, limit: int, used: set<int>)
    requires n >= 2 && 0 <= source < n && FindEach(source, targets, n, start, limit, used).Found?
    ensures var paths := FindEach(source, targets, n, start, limit, used).value;
            |paths| == |targets| && forall a :: 0 <= a < |paths| ==> |paths[a]| >= 2
    decreases |targets|
  {
    if targets != [] {
      var h := Search(source, targets[0], n, start, used).FindFrom(0, limit).value;
      PathsHaveHops(source, targets[1..], n, start, limit, used + Interior(h, source, targets[0]));
    }
  }

  /** The routes of the paths found, without the source; none is empty. */
  function Routes(source: int, targets: seq<int>, n: nat, start: nat): (routes: seq<seq<int>>)
    requires n >= 2 && 0 <= source < n && FindPathsSpec(source, targets, n, start).Found?
    ensures var paths := FindPathsSpec(source, targets, n, start).value;
            && |routes| == |targets| == |paths|
            && (forall k :: 0 <= k < |routes| ==> |paths[k]| >= 2 && routes[k] == Nodes(paths[k])[1..] != [])
  {
    PathsHaveHops(source, targets, n, start, RoundsLimit(targets, n), set t | t in targets);
    WithoutSource(AllNodes(FindPathsSpec(source, targets, n, start).value))
  }

  /** The onions for a contribution, along independent paths from round 0 on; the search may throw. */
  method EncryptedMulticastToProxies(tables: GossipTables, source: int, proxies: seq<int>, n: nat,
                                     contribution: Payload)
    returns (outgoing: Outcome<seq<Message>>)
    requires tables.Valid() && 2 <= n < TWO_TO_31 && 0 <= source < n && RoundsLimit(proxies, n) < TWO_TO_32
    modifies tables
    ensures tables.Valid()
    ensures outgoing == match FindPathsSpec(source, proxies, n, 0)
                        case Found(_) => Found(Onions(Routes(source, proxies, n, 0), contribution))
                        case InvalidNode => InvalidNode
                        case NoPath => NoPath
  {
    var found := FindPaths(tables, source, proxies, n, 0);
    match found
    case InvalidNode => return InvalidNode;
    case NoPath => return NoPath;
    case Found(paths) =>
      ghost var routes := Routes(source, proxies, n, 0);
      ghost var all := Onions(routes, contribution);
      var messages: seq<Message> := [];
      var k := 0;
      while k < |paths|
        invariant 0 <= k <= |paths| && paths == routes && tables.Valid()
        invariant messages == all[..k]
      {
        var onion := BuildEncryptedOnion(paths[k], contribution);
        messages := messages + [onion];
        k := k + 1;
      }
      assert all[..k] == all;
      outgoing := Found(messages);
  }

  /** The messages for a signed value or package, along independent paths from the next round on. */
  method EncryptedMulticastFrom(tables: GossipTables, source: int, others: seq<int>, n: nat, round: nat, value: Payload)
    returns (outgoing: Outcome<seq<Message>>)
    requires tables.Valid() && 2 <= n < TWO_TO_31 && 0 <= source < n
    requires round + 1 + RoundsLimit(others, n) < TWO_TO_32
    modifies tables
    ensures tables.Valid()
    ensures outgoing == match FindPathsSpec(source, others, n, round + 1)
                        case Found(_) => Found(PathMessages(Routes(source, others, n, round + 1), value))
                        case InvalidNode => InvalidNode
                        case NoPath => NoPath
  {
    var found := FindPaths(tables, source, others, n, round + 1);
    match found
    case InvalidNode => return InvalidNode;
    case NoPath => return NoPath;
    case Found(paths) =>
      ghost var routes := Routes(source, others, n, round + 1);
      ghost var all := PathMessages(routes, value);
      var messages: seq<Message> := [];
      var k := 0;
      while k < |paths|
        invariant 0 <= k <= |paths| && paths == routes && tables.Valid()
        invariant messages == all[..k]
      {
        var last := paths[k][|paths[k]| - 1];
        messages := messages + [PathOverlay(paths[k][0], For(last), false, Carries(value), paths[k][1..])];
        k := k + 1;
      }
      assert all[..k] == all;
      outgoing := Found(messages);
  }
}
