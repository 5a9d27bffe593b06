/** The consistent-hash ring (src/distributed_cluster/cache/distributed.py, ConsistentHashing).
    The hash is any function from strings to naturals, so collisions are included. */
module HashRing {
  import opened Common

  type NodeId = string
  datatype Node = Node(id: NodeId, weight: int, healthy: bool)

  /** A virtual node: its position on the ring and the node it stands for. */
  datatype Point = Point(hash: nat, node: NodeId)

  function ByHash(): Point -> real {
    (p: Point) => p.hash as real
  }

  function PointNotOf(id: NodeId): Point -> bool {
    (p: Point) => p.node != id
  }

  function FromHash(h: nat): Point -> bool {
    (p: Point) => p.hash >= h
  }

  function BelowHash(h: nat): Point -> bool {
    (p: Point) => p.hash < h
  }

  function IdOtherThan(id: NodeId): NodeId -> bool {
    (x: NodeId) => x != id
  }

  predicate IsHealthy(nodes: map<NodeId, Node>, id: NodeId) {
    id in nodes && nodes[id].healthy
  }

  function HealthyIn(nodes: map<NodeId, Node>): NodeId -> bool {
    (x: NodeId) => IsHealthy(nodes, x)
  }

  function Decimal(n: nat): string {
    if n < 10 then ["0123456789"[n]] else Decimal(n / 10) + ["0123456789"[n % 10]]
  }

  function VirtualKey(id: NodeId, i: nat): string {
    id + ":" + Decimal(i)
  }

  /** The points of the first `n` virtual nodes of `id`; none when `n` is not positive. */
  function VirtualPoints(hash: string -> nat, id: NodeId, n: int): seq<Point> {
    if n <= 0 then [] else VirtualPoints(hash, id, n - 1) + [Point(hash(VirtualKey(id, n - 1)), id)]
  }

  function AddedRing(ring: seq<Point>, hash: string -> nat, id: NodeId, n: int): seq<Point> {
    StableSort(ring + VirtualPoints(hash, id, n), ByHash())
  }

  function RemovedRing(ring: seq<Point>, id: NodeId): seq<Point> {
    Filter(ring, PointNotOf(id))
  }

  /** Every point belongs to a registered node. */
  ghost predicate Known(points: seq<Point>, nodes: map<NodeId, Node>) {
    forall p :: p in points ==> p.node in nodes
  }

  /** What `add_node` and `remove_node` keep: the ring is sorted and names only known nodes. */
  ghost predicate RingOk(ring: seq<Point>, nodes: map<NodeId, Node>) {
    && Sorted(ring, ByHash())
    && Known(ring, nodes)
    && (forall id :: id in nodes ==> nodes[id].id == id)
  }

  // ----- the clockwise order -----

  /** All points in clockwise order from hash `h`, wrapping once. */
  function Clockwise(ring: seq<Point>, h: nat): seq<Point> {
    Filter(ring, FromHash(h)) + Filter(ring, BelowHash(h))
  }

  /** The distinct nodes of a list of points, by first appearance. */
  function Owners(points: seq<Point>): seq<NodeId>
    decreases |points|
  {
    if points == [] then []
    else
      FilterLength(points[1..], PointNotOf(points[0].node));
      [points[0].node] + Owners(Filter(points[1..], PointNotOf(points[0].node)))
  }

  /** The distinct healthy nodes clockwise from `h`. */
  function Replicas(ring: seq<Point>, nodes: map<NodeId, Node>, h: nat): seq<NodeId> {
    Filter(Owners(Clockwise(ring, h)), HealthyIn(nodes))
  }

  /** The first `count` elements, none when `count` is not positive, all when there are fewer. */
  function Take<T>(s: seq<T>, count: int): (r: seq<T>)
    ensures |r| == Max(0, Min(count, |s|)) && r <= s
  {
    if count <= 0 then [] else if count <= |s| then s[..count] else s
  }

  lemma {:induction false} OwnersMember(points: seq<Point>, id: NodeId)
    ensures id in Owners(points) <==> exists p :: p in points && p.node == id
    decreases |points|
  {
    if points == [] {
    } else {
      var rest := Filter(points[1..], PointNotOf(points[0].node));
      FilterLength(points[1..], PointNotOf(points[0].node));
      OwnersMember(rest, id);
      if id != points[0].node {
        if p :| p in points && p.node == id {
          assert p in points[1..];
          FilterMember(points[1..], PointNotOf(points[0].node), p);
        }
        if p :| p in rest && p.node == id {
          FilterMember(points[1..], PointNotOf(points[0].node), p);
        }
      } else {
        assert points[0] in points;
      }
    }
  }

  lemma {:induction false} OwnersDistinct(points: seq<Point>)
    ensures Distinct(Owners(points))
    decreases |points|
  {
    if points == [] {
    } else {
      var rest := Filter(points[1..], PointNotOf(points[0].node));
      FilterLength(points[1..], PointNotOf(points[0].node));
      OwnersDistinct(rest);
      OwnersMember(rest, points[0].node);
      FilterMembers(points[1..], PointNotOf(points[0].node));
    }
  }

  /** Forgetting a node's points forgets the node and disturbs nothing else. */
  lemma {:induction false} OwnersWithout(points: seq<Point>, m: NodeId)
    ensures Owners(Filter(points, PointNotOf(m))) == Filter(Owners(points), IdOtherThan(m))
    decreases |points|
  {
    if points == [] {
    } else {
      var n := points[0].node;
      var rest := Filter(points[1..], PointNotOf(n));
      FilterLength(points[1..], PointNotOf(n));
      if n == m {
        OwnersMember(rest, m);
        FilterMembers(points[1..], PointNotOf(n));
        FilterAll(Owners(rest), IdOtherThan(m));
      } else {
        var kept := Filter(points, PointNotOf(m));
        assert kept[0] == points[0] && kept[1..] == Filter(points[1..], PointNotOf(m));
        FilterCommute(points[1..], PointNotOf(m), PointNotOf(n));
        OwnersWithout(rest, m);
        assert Owners(points)[1..] == Owners(rest);
      }
    }
  }

  lemma {:induction false} OwnersSnoc(points: seq<Point>, p: Point)
    ensures Owners(points + [p])
         == if p.node in Owners(points) then Owners(points) else Owners(points) + [p.node]
    decreases |points|
  {
    if points == [] {
      assert points + [p] == [p];
      assert Owners([p]) == [p.node] + Owners(Filter([p][1..], PointNotOf(p.node)));
    } else {
      var n := points[0].node;
      assert (points + [p])[0] == points[0] && (points + [p])[1..] == points[1..] + [p];
      FilterConcat(points[1..], [p], PointNotOf(n));
      var rest := Filter(points[1..], PointNotOf(n));
      FilterLength(points[1..], PointNotOf(n));
      assert Filter([p], PointNotOf(n)) == if p.node != n then [p] else [];
      if p.node == n {
        assert rest + [] == rest;
      } else {
        OwnersSnoc(rest, p);
      }
    }
  }

  // ----- where a node's points are -----

  function Digit(c: char): int {
    if '0' <= c <= '9' then c as int - '0' as int else -1
  }

  /** The number that a string of digits stands for. */
  function ReadDigits(t: string): int {
    if t == "" then 0 else 10 * ReadDigits(t[..|t| - 1]) + Digit(t[|t| - 1])
  }

  /** How Python prints `i`: digits without leading zeros that read as `i`. */
  predicate Numeral(t: string, i: nat) {
    t != "" && (forall c :: c in t ==> Digit(c) >= 0) && (t[0] == '0' ==> t == "0") && ReadDigits(t) == i
  }

  lemma {:induction false} DecimalIsNumeral(i: nat)
    ensures Numeral(Decimal(i), i)
    ensures i > 0 ==> Decimal(i)[0] != '0'
  {
    if i < 10 {
      var t := Decimal(i);
      assert t[..0] == "" && Digit(t[0]) == i;
    } else {
      var front, last := Decimal(i / 10), "0123456789"[i % 10];
      DecimalIsNumeral(i / 10);
      assert Decimal(i)[..|front|] == front && Digit(last) == i % 10;
    }
  }

  /** Distinct virtual nodes of one node are hashed from distinct keys. */
  lemma VirtualKeysDiffer(id: NodeId, i: nat, j: nat)
    requires i != j
    ensures VirtualKey(id, i) != VirtualKey(id, j)
  {
    DecimalIsNumeral(i);
    DecimalIsNumeral(j);
    assert (id + ":" + Decimal(i))[|id| + 1..] == Decimal(i);
    assert (id + ":" + Decimal(j))[|id| + 1..] == Decimal(j);
  }

  /** The points that `n` virtual nodes add: one for each index below `n`, hashed from the node's id,
      a colon and the index. */
  ghost predicate GainsPoints(before: seq<Point>, after: seq<Point>, hash: string -> nat, id: NodeId, n: int) {
    exists names: seq<string> ::
      && |names| == Max(n, 0)
      && (forall i :: 0 <= i < |names| ==> Numeral(names[i], i))
      && multiset(after)
         == multiset(before)
            + multiset(seq(|names|, i requires 0 <= i < |names| => Point(hash(id + ":" + names[i]), id)))
  }

  function Decimals(n: nat): (names: seq<string>)
    ensures |names| == n
  {
    seq(n, i requires 0 <= i < n => Decimal(i))
  }

  lemma {:induction false} VirtualPointsAre(hash: string -> nat, id: NodeId, n: nat)
    ensures VirtualPoints(hash, id, n)
         == seq(n, i requires 0 <= i < n => Point(hash(id + ":" + Decimals(n)[i]), id))
  {
    if n == 0 {
    } else {
      VirtualPointsAre(hash, id, n - 1);
      assert Decimals(n) == Decimals(n - 1) + [Decimal(n - 1)];
    }
  }

  /** Adding a node adds exactly its virtual nodes' points, whatever was on the ring. */
  lemma AddGainsPoints(ring: seq<Point>, hash: string -> nat, id: NodeId, n: int)
    ensures GainsPoints(ring, AddedRing(ring, hash, id, n), hash, id, n)
  {
    var names := Decimals(Max(n, 0));
    SortMultiset(ring + VirtualPoints(hash, id, n), ByHash());
    VirtualPointsAre(hash, id, Max(n, 0));
    forall i | 0 <= i < |names| ensures Numeral(names[i], i) {
      DecimalIsNumeral(i);
    }
  }

  // ----- minimal key movement -----

  lemma {:induction false} VirtualPointsOwner(hash: string -> nat, id: NodeId, n: int)
    ensures forall p :: p in VirtualPoints(hash, id, n) ==> p.node == id
    ensures |VirtualPoints(hash, id, n)| == Max(n, 0)
  {
    if n <= 0 {
    } else {
      VirtualPointsOwner(hash, id, n - 1);
    }
  }

  lemma AddKeepsRing(ring: seq<Point>, nodes: map<NodeId, Node>, hash: string -> nat, node: Node, n: int)
    requires RingOk(ring, nodes)
    ensures RingOk(AddedRing(ring, hash, node.id, n), nodes[node.id := node])
  {
    var all := ring + VirtualPoints(hash, node.id, n);
    SortSorted(all, ByHash());
    SortMultiset(all, ByHash());
    VirtualPointsOwner(hash, node.id, n);
  }

  lemma RemoveKeepsRing(ring: seq<Point>, nodes: map<NodeId, Node>, id: NodeId)
    requires RingOk(ring, nodes)
    ensures RingOk(RemovedRing(ring, id), nodes - {id})
  {
    FilterMembers(ring, PointNotOf(id));
    SortOfSorted(ring, ByHash());
    SortFilter(ring, ByHash(), PointNotOf(id));
    SortSorted(Filter(ring, PointNotOf(id)), ByHash());
  }

  /** Adding points of `id` leaves the points of every other node exactly as they were. */
  lemma AddThenRemove(ring: seq<Point>, nodes: map<NodeId, Node>, hash: string -> nat, id: NodeId, n: int)
    requires RingOk(ring, nodes)
    ensures RemovedRing(AddedRing(ring, hash, id, n), id) == RemovedRing(ring, id)
  {
    var vs := VirtualPoints(hash, id, n);
    SortFilter(ring + vs, ByHash(), PointNotOf(id));
    FilterConcat(ring, vs, PointNotOf(id));
    VirtualPointsOwner(hash, id, n);
    FilterNone(vs, PointNotOf(id));
    RemoveKeepsRing(ring, nodes, id);
    SortOfSorted(RemovedRing(ring, id), ByHash());
    assert RemovedRing(ring, id) + [] == RemovedRing(ring, id);
  }

  /** Removing a fresh node right after adding it restores the ring and the node table. */
  lemma RemoveUndoesAdd(ring: seq<Point>, nodes: map<NodeId, Node>, hash: string -> nat, node: Node, n: int)
    requires RingOk(ring, nodes) && node.id !in nodes
    ensures RemovedRing(AddedRing(ring, hash, node.id, n), node.id) == ring
    ensures nodes[node.id := node] - {node.id} == nodes
  {
    AddThenRemove(ring, nodes, hash, node.id, n);
    FilterAll(ring, PointNotOf(node.id));
  }

  /** Removing a node only deletes it from every key's clockwise list. */
  lemma RemoveMovesOnlyItsKeys(ring: seq<Point>, nodes: map<NodeId, Node>, m: NodeId, h: nat)
    ensures Replicas(RemovedRing(ring, m), nodes - {m}, h) == Filter(Replicas(ring, nodes, h), IdOtherThan(m))
  {
    FilterCommute(ring, PointNotOf(m), FromHash(h));
    FilterCommute(ring, PointNotOf(m), BelowHash(h));
    FilterConcat(Filter(ring, FromHash(h)), Filter(ring, BelowHash(h)), PointNotOf(m));
    OwnersWithout(Clockwise(ring, h), m);
    var owners := Owners(Clockwise(ring, h));
    var others := Filter(owners, IdOtherThan(m));
    FilterMembers(owners, IdOtherThan(m));
    FilterExt(others, HealthyIn(nodes - {m}), HealthyIn(nodes));
    FilterCommute(owners, IdOtherThan(m), HealthyIn(nodes));
  }

  /** Adding a fresh node only inserts it into every key's clockwise list. */
  lemma AddMovesOnlyItsKeys(ring: seq<Point>, nodes: map<NodeId, Node>, hash: string -> nat, node: Node, n: int, h: nat)
    requires RingOk(ring, nodes) && node.id !in nodes
    ensures Filter(Replicas(AddedRing(ring, hash, node.id, n), nodes[node.id := node], h), IdOtherThan(node.id))
         == Replicas(ring, nodes, h)
  {
    RemoveUndoesAdd(ring, nodes, hash, node, n);
    RemoveMovesOnlyItsKeys(AddedRing(ring, hash, node.id, n), nodes[node.id := node], node.id, h);
  }

  lemma {:induction false} WithoutLength(l: seq<NodeId>, m: NodeId)
    requires Distinct(l) && m in l
    ensures |Filter(l, IdOtherThan(m))| == |l| - 1
  {
    if l[0] == m {
      FilterAll(l[1..], IdOtherThan(m));
    } else {
      WithoutLength(l[1..], m);
    }
  }

  /** Minimal key movement for replica sets. `l` is a key's clockwise list with node `m` on the
      ring, and the same list without `m` is the one with `m` off it. Asking for `k` replicas
      gives the same list either way, unless `m` is among them; then `m` has displaced exactly
      one node, the last of the others. */
  lemma ReplicaSetsDifferByOne(l: seq<NodeId>, m: NodeId, k: int)
    requires Distinct(l)
    ensures var without, head := Filter(l, IdOtherThan(m)), Take(l, k);
            if m !in head then head == Take(without, k)
            else |head| <= k && Filter(head, IdOtherThan(m)) == Take(without, |head| - 1)
  {
    var head := Take(l, k);
    var rest := l[|head|..];
    assert l == head + rest;
    FilterConcat(head, rest, IdOtherThan(m));
    if m in head {
      assert m !in rest;
      WithoutLength(head, m);
    } else {
      FilterAll(head, IdOtherThan(m));
    }
  }

  lemma ReplicasDistinct(ring: seq<Point>, nodes: map<NodeId, Node>, h: nat)
    ensures Distinct(Replicas(ring, nodes, h))
  {
    OwnersDistinct(Clockwise(ring, h));
    FilterDistinct(Owners(Clockwise(ring, h)), HealthyIn(nodes));
  }

  lemma AddChangesOneReplica(ring: seq<Point>, nodes: map<NodeId, Node>, hash: string -> nat, node: Node, n: int,
                             h: nat, k: int)
    requires RingOk(ring, nodes) && node.id !in nodes
    ensures var before := Replicas(ring, nodes, h);
            var after := Take(Replicas(AddedRing(ring, hash, node.id, n), nodes[node.id := node], h), k);
            if node.id !in after then after == Take(before, k)
            else |after| <= k && Filter(after, IdOtherThan(node.id)) == Take(before, |after| - 1)
  {
    AddMovesOnlyItsKeys(ring, nodes, hash, node, n, h);
    ReplicasDistinct(AddedRing(ring, hash, node.id, n), nodes[node.id := node], h);
    ReplicaSetsDifferByOne(Replicas(AddedRing(ring, hash, node.id, n), nodes[node.id := node], h), node.id, k);
  }

  lemma RemoveChangesOneReplica(ring: seq<Point>, nodes: map<NodeId, Node>, m: NodeId, h: nat, k: int)
    ensures var before := Take(Replicas(ring, nodes, h), k);
            var after := Replicas(RemovedRing(ring, m), nodes - {m}, h);
            if m !in before then before == Take(after, k)
            else |before| <= k && Filter(before, IdOtherThan(m)) == Take(after, |before| - 1)
  {
    RemoveMovesOnlyItsKeys(ring, nodes, m, h);
    ReplicasDistinct(ring, nodes, h);
    ReplicaSetsDifferByOne(Replicas(ring, nodes, h), m, k);
  }

  /** A failing node is only deleted from every key's clockwise list, and a recovering one only
      inserted into it: failover moves no other key. */
  lemma FailoverMovesOnlyItsKeys(ring: seq<Point>, nodes: map<NodeId, Node>, m: NodeId, h: nat)
    requires m in nodes
    ensures Replicas(ring, nodes[m := nodes[m].(healthy := false)], h)
         == Filter(Replicas(ring, nodes, h), IdOtherThan(m))
    ensures Filter(Replicas(ring, nodes[m := nodes[m].(healthy := true)], h), IdOtherThan(m))
         == Filter(Replicas(ring, nodes, h), IdOtherThan(m))
  {
    var owners := Owners(Clockwise(ring, h));
    var down, up := nodes[m := nodes[m].(healthy := false)], nodes[m := nodes[m].(healthy := true)];
    var others := Filter(owners, IdOtherThan(m));
    FilterMembers(owners, IdOtherThan(m));
    FilterCommute(owners, IdOtherThan(m), HealthyIn(nodes));
    FilterCommute(owners, IdOtherThan(m), HealthyIn(down));
    FilterCommute(owners, IdOtherThan(m), HealthyIn(up));
    FilterExt(others, HealthyIn(down), HealthyIn(nodes));
    FilterExt(others, HealthyIn(up), HealthyIn(nodes));
    FilterMembers(owners, HealthyIn(down));
    FilterAll(Filter(owners, HealthyIn(down)), IdOtherThan(m));
  }

  /** So a failing node changes each replica list by at most one later node moving up. */
  lemma FailoverChangesOneReplica(ring: seq<Point>, nodes: map<NodeId, Node>, m: NodeId, h: nat, k: int)
    requires m in nodes
    ensures var before := Take(Replicas(ring, nodes, h), k);
            var after := Replicas(ring, nodes[m := nodes[m].(healthy := false)], h);
            if m !in before then before == Take(after, k)
            else |before| <= k && Filter(before, IdOtherThan(m)) == Take(after, |before| - 1)
  {
    FailoverMovesOnlyItsKeys(ring, nodes, m, h);
    ReplicasDistinct(ring, nodes, h);
    ReplicaSetsDifferByOne(Replicas(ring, nodes, h), m, k);
  }

  // ----- the replica walk -----

  function IdsOf(points: seq<Point>): set<NodeId> {
    set p <- points :: p.node
  }

  /** `bisect_left` over the hashes of the ring. */
  function Bisect(ring: seq<Point>, h: nat): nat {
    |Filter(ring, BelowHash(h))|
  }

  lemma HeadIsLeast(ring: seq<Point>)
    requires Sorted(ring, ByHash()) && ring != []
    ensures forall p :: p in ring ==> ring[0].hash <= p.hash
  {
    forall p | p in ring ensures ring[0].hash <= p.hash {
      var i :| 0 <= i < |ring| && ring[i] == p;
      assert i == 0 || ByHash()(ring[0]) <= ByHash()(ring[i]);
    }
  }

  lemma {:induction false} BisectSplits(ring: seq<Point>, h: nat)
    requires Sorted(ring, ByHash())
    ensures Bisect(ring, h) <= |ring|
    ensures forall i :: 0 <= i < Bisect(ring, h) ==> ring[i].hash < h
    ensures forall i :: Bisect(ring, h) <= i < |ring| ==> ring[i].hash >= h
    ensures ring[..Bisect(ring, h)] == Filter(ring, BelowHash(h))
    ensures ring[Bisect(ring, h)..] == Filter(ring, FromHash(h))
  {
    if ring == [] {
    } else {
      BisectSplits(ring[1..], h);
      if ring[0].hash < h {
        var b := Bisect(ring[1..], h);
        assert ring[..b + 1] == [ring[0]] + ring[1..][..b];
        assert ring[b + 1..] == ring[1..][b..];
        assert forall i :: 1 <= i < |ring| ==> ring[i] == ring[1..][i - 1];
      } else {
        HeadIsLeast(ring);
        FilterNone(ring, BelowHash(h));
        FilterAll(ring, FromHash(h));
        assert forall i :: 0 <= i < |ring| ==> ring[i] in ring;
      }
    }
  }

  /** The ring index visited after `t` steps from the bisected one, wrapping at the end. */
  function Position(start: nat, n: nat, t: nat): (i: nat)
    requires 0 < n && start <= n
    ensures i < n
    ensures t < n ==> i == if start + t < n then start + t else start + t - n
  {
    if t == 0 then (if start >= n then 0 else start)
    else
      var i := Position(start, n, t - 1);
      if i + 1 >= n then 0 else i + 1
  }

  lemma BisectInRange(ring: seq<Point>, h: nat)
    ensures Bisect(ring, h) <= |ring|
  {
    FilterLength(ring, BelowHash(h));
  }

  function Visit(ring: seq<Point>, h: nat, t: nat): Point
    requires ring != []
  {
    BisectInRange(ring, h);
    ring[Position(Bisect(ring, h), |ring|, t)]
  }

  /** The points visited in the first `t` rounds. */
  function Visited(ring: seq<Point>, h: nat, t: nat): (v: seq<Point>)
    requires ring != []
    ensures |v| == t
  {
    if t == 0 then [] else Visited(ring, h, t - 1) + [Visit(ring, h, t - 1)]
  }

  lemma ClockwiseAt(ring: seq<Point>, h: nat, t: nat)
    requires Sorted(ring, ByHash()) && t < |ring|
    ensures |Clockwise(ring, h)| == |ring| && Clockwise(ring, h)[t] == Visit(ring, h, t)
  {
    BisectSplits(ring, h);
    var b := Bisect(ring, h);
    assert Clockwise(ring, h) == ring[b..] + ring[..b];
    assert Position(b, |ring|, t) == if b + t < |ring| then b + t else b + t - |ring|;
  }

  lemma {:induction false} PositionRepeats(start: nat, n: nat, t: nat)
    requires 0 < n && start <= n
    ensures Position(start, n, t + n) == Position(start, n, t)
  {
    if t == 0 {
      assert Position(start, n, n - 1) == if start + n - 1 < n then start + n - 1 else start - 1;
    } else {
      PositionRepeats(start, n, t - 1);
    }
  }

  /** `start` is the first index whose hash is not below `h`. */
  ghost predicate StartsAt(ring: seq<Point>, h: nat, start: nat) {
    && start <= |ring|
    && (forall i :: 0 <= i < start ==> ring[i].hash < h)
    && (forall i :: start <= i < |ring| ==> ring[i].hash >= h)
  }

  lemma StartIsBisect(ring: seq<Point>, h: nat, start: nat)
    requires Sorted(ring, ByHash()) && StartsAt(ring, h, start)
    ensures start == Bisect(ring, h)
    ensures Clockwise(ring, h) == ring[start..] + ring[..start]
  {
    assert ring == ring[..start] + ring[start..];
    FilterConcat(ring[..start], ring[start..], BelowHash(h));
    FilterAll(ring[..start], BelowHash(h));
    FilterNone(ring[start..], BelowHash(h));
    BisectSplits(ring, h);
  }

  /** The point passed after `t` steps, in the ring's own terms: one turn of the ring from `start`,
      over and over. */
  lemma VisitExactly(ring: seq<Point>, h: nat, start: nat, t: nat)
    requires Sorted(ring, ByHash()) && ring != [] && StartsAt(ring, h, start)
    ensures t < |ring| ==> Visit(ring, h, t) == (ring[start..] + ring[..start])[t]
    ensures t >= |ring| ==> Visit(ring, h, t) == Visit(ring, h, t - |ring|)
  {
    StartIsBisect(ring, h, start);
    if t < |ring| {
      ClockwiseAt(ring, h, t);
    } else {
      PositionRepeats(start, |ring|, t - |ring|);
    }
  }

  lemma {:induction false} VisitedAlong(ring: seq<Point>, h: nat, c: seq<Point>, t: nat)
    requires ring != [] && t <= |c|
    requires forall j: nat :: j < t ==> c[j] == Visit(ring, h, j)
    ensures Visited(ring, h, t) == c[..t]
  {
    if t == 0 {
      assert c[..t] == [];
    } else {
      VisitedAlong(ring, h, c, t - 1);
      assert c[..t] == c[..t - 1] + [c[t - 1]];
    }
  }

  lemma VisitedPrefix(ring: seq<Point>, h: nat, t: nat)
    requires ring != [] && Sorted(ring, ByHash()) && t <= |ring|
    ensures |Clockwise(ring, h)| == |ring|
    ensures Visited(ring, h, t) == Clockwise(ring, h)[..t]
  {
    ClockwiseAt(ring, h, 0);
    var c := Clockwise(ring, h);
    forall j: nat | j < t ensures c[j] == Visit(ring, h, j) {
      ClockwiseAt(ring, h, j);
    }
    VisitedAlong(ring, h, c, t);
  }

  lemma FirstTurn(ring: seq<Point>, h: nat)
    requires ring != [] && Sorted(ring, ByHash())
    ensures Visited(ring, h, |ring|) == Clockwise(ring, h)
    ensures IdsOf(Visited(ring, h, |ring|)) == IdsOf(ring)
  {
    VisitedPrefix(ring, h, |ring|);
    var c := Clockwise(ring, h);
    assert c[..|ring|] == c;
    FilterMembers(ring, FromHash(h));
    FilterMembers(ring, BelowHash(h));
    assert forall p :: p in c <==> p in ring;
  }

  // ----- what the replica list is -----

  /** `a` has a point before the first one of `b`, if `b` has any. */
  ghost predicate Earlier(points: seq<Point>, a: NodeId, b: NodeId) {
    exists s :: 0 <= s < |points| && points[s].node == a && forall u :: 0 <= u <= s ==> points[u].node != b
  }

  ghost predicate AllEarlier(points: seq<Point>, l: seq<NodeId>) {
    forall i, j :: 0 <= i < j < |l| ==> Earlier(points, l[i], l[j])
  }

  lemma EarlierSnoc(points: seq<Point>, p: Point, a: NodeId, b: NodeId)
    requires Earlier(points, a, b)
    ensures Earlier(points + [p], a, b)
  {
    var s :| 0 <= s < |points| && points[s].node == a && forall u :: 0 <= u <= s ==> points[u].node != b;
    assert (points + [p])[s] == points[s];
    assert forall u :: 0 <= u <= s ==> (points + [p])[u] == points[u];
  }

  lemma {:induction false} OwnersEarlier(points: seq<Point>)
    ensures AllEarlier(points, Owners(points))
  {
    if points == [] {
    } else {
      var before, p := points[..|points| - 1], points[|points| - 1];
      var owners := Owners(before);
      assert points == before + [p];
      OwnersEarlier(before);
      OwnersSnoc(before, p);
      forall i, j | 0 <= i < j < |Owners(points)| ensures Earlier(points, Owners(points)[i], Owners(points)[j]) {
        if j < |owners| {
          EarlierSnoc(before, p, owners[i], owners[j]);
        } else {
          OwnersMember(before, owners[i]);
          OwnersMember(before, p.node);
          var q :| q in before && q.node == owners[i];
          var s :| 0 <= s < |before| && before[s] == q;
          assert points[s] == q && forall u :: 0 <= u <= s ==> points[u] in before;
        }
      }
    }
  }

  lemma {:induction false} FilterEarlier(points: seq<Point>, l: seq<NodeId>, p: NodeId -> bool)
    requires AllEarlier(points, l)
    ensures AllEarlier(points, Filter(l, p))
    decreases |l|
  {
    if l == [] {
    } else {
      var f := Filter(l[1..], p);
      FilterEarlier(points, l[1..], p);
      forall j | 0 <= j < |f| ensures Earlier(points, l[0], f[j]) {
        FilterMember(l[1..], p, f[j]);
        var i :| 0 <= i < |l[1..]| && l[1..][i] == f[j];
        assert l[i + 1] == f[j];
      }
    }
  }

  /** The replica list in the ring's own terms: each healthy node that has a point once, in the order
      of their first points from `start` on, wrapping at the end. */
  lemma ReplicasExactly(ring: seq<Point>, nodes: map<NodeId, Node>, h: nat, start: nat)
    requires Sorted(ring, ByHash()) && StartsAt(ring, h, start)
    ensures var r := Replicas(ring, nodes, h);
            && Distinct(r)
            && (forall id :: id in r <==> id in nodes && nodes[id].healthy && exists p :: p in ring && p.node == id)
            && AllEarlier(ring[start..] + ring[..start], r)
  {
    var c := Clockwise(ring, h);
    StartIsBisect(ring, h, start);
    ReplicasDistinct(ring, nodes, h);
    OwnersEarlier(c);
    FilterEarlier(c, Owners(c), HealthyIn(nodes));
    forall id
      ensures id in Replicas(ring, nodes, h)
         <==> id in nodes && nodes[id].healthy && exists p :: p in ring && p.node == id
    {
      FilterMember(Owners(c), HealthyIn(nodes), id);
      OwnersMember(c, id);
      assert forall p :: p in c <==> p in ring by {
        assert ring == ring[..start] + ring[start..];
      }
    }
  }

  /** The loop variables of `get_nodes`. */
  datatype Walk = Walk(seen: set<NodeId>, found: seq<NodeId>)

  function WalkStep(w: Walk, nodes: map<NodeId, Node>, p: Point): Walk {
    if p.node in w.seen then w
    else Walk(w.seen + {p.node}, if IsHealthy(nodes, p.node) then w.found + [p.node] else w.found)
  }

  /** The variables after `t` rounds, if the guard lets the loop go on that long. */
  function WalkAfter(ring: seq<Point>, nodes: map<NodeId, Node>, h: nat, t: nat): Walk
    requires ring != []
  {
    if t == 0 then Walk({}, []) else WalkStep(WalkAfter(ring, nodes, h, t - 1), nodes, Visit(ring, h, t - 1))
  }

  lemma WalkNext(ring: seq<Point>, nodes: map<NodeId, Node>, h: nat, t: nat)
    requires ring != []
    ensures Bisect(ring, h) <= |ring|
    ensures var i := Position(Bisect(ring, h), |ring|, t);
            && WalkAfter(ring, nodes, h, t + 1) == WalkStep(WalkAfter(ring, nodes, h, t), nodes, ring[i])
            && Position(Bisect(ring, h), |ring|, t + 1) == if i + 1 >= |ring| then 0 else i + 1
  {
    BisectInRange(ring, h);
  }

  predicate Goes(w: Walk, nodes: map<NodeId, Node>, count: int) {
    |w.found| < count && |w.seen| < |nodes|
  }

  /** The variables after passing the given points. */
  function WalkOver(points: seq<Point>, nodes: map<NodeId, Node>): Walk {
    if points == [] then Walk({}, [])
    else WalkStep(WalkOver(points[..|points| - 1], nodes), nodes, points[|points| - 1])
  }

  lemma WalkMeetsOneMore(points: seq<Point>, nodes: map<NodeId, Node>, p: Point)
    ensures WalkStep(Walk(IdsOf(points), Filter(Owners(points), HealthyIn(nodes))), nodes, p)
         == Walk(IdsOf(points + [p]), Filter(Owners(points + [p]), HealthyIn(nodes)))
  {
    var owners := Owners(points);
    OwnersSnoc(points, p);
    assert IdsOf(points + [p]) == IdsOf(points) + {p.node};
    assert p.node in owners <==> p.node in IdsOf(points) by {
      OwnersMember(points, p.node);
    }
    if p.node !in owners {
      FilterConcat(owners, [p.node], HealthyIn(nodes));
      assert Filter([p.node], HealthyIn(nodes)) == if IsHealthy(nodes, p.node) then [p.node] else [];
    }
  }

  /** The loop has met exactly the owners of the points it passed. */
  lemma {:induction false} WalkMeetsOwners(points: seq<Point>, nodes: map<NodeId, Node>)
    ensures WalkOver(points, nodes) == Walk(IdsOf(points), Filter(Owners(points), HealthyIn(nodes)))
  {
    if points == [] {
    } else {
      var before, p := points[..|points| - 1], points[|points| - 1];
      assert points == before + [p];
      WalkMeetsOwners(before, nodes);
      WalkMeetsOneMore(before, nodes, p);
    }
  }

  lemma {:induction false} WalkAfterVisited(ring: seq<Point>, nodes: map<NodeId, Node>, h: nat, t: nat)
    requires ring != []
    ensures WalkAfter(ring, nodes, h, t) == WalkOver(Visited(ring, h, t), nodes)
  {
    if t == 0 {
    } else {
      WalkAfterVisited(ring, nodes, h, t - 1);
      assert Visited(ring, h, t)[..t - 1] == Visited(ring, h, t - 1);
    }
  }

  /** When the loop of `get_nodes` stops: the ring is empty, it holds enough healthy nodes, or
      every known node has a point on it. */
  predicate WalkStops(ring: seq<Point>, nodes: map<NodeId, Node>, h: nat, count: int) {
    ring == [] || count <= |Replicas(ring, nodes, h)| || IdsOf(ring) == nodes.Keys
  }

  lemma FirstTurnWalk(ring: seq<Point>, nodes: map<NodeId, Node>, h: nat)
    requires Sorted(ring, ByHash()) && ring != []
    ensures WalkAfter(ring, nodes, h, |ring|) == Walk(IdsOf(ring), Replicas(ring, nodes, h))
  {
    FirstTurn(ring, h);
    WalkAfterVisited(ring, nodes, h, |ring|);
    WalkMeetsOwners(Visited(ring, h, |ring|), nodes);
  }

  /** One turn meets everybody, and further turns meet nobody new. */
  lemma {:induction false} FullTurn(ring: seq<Point>, nodes: map<NodeId, Node>, h: nat, t: nat)
    requires Sorted(ring, ByHash()) && ring != [] && |ring| <= t
    ensures WalkAfter(ring, nodes, h, t) == Walk(IdsOf(ring), Replicas(ring, nodes, h))
  {
    if t == |ring| {
      FirstTurnWalk(ring, nodes, h);
    } else {
      FullTurn(ring, nodes, h, t - 1);
      assert Visit(ring, h, t - 1) in ring;
    }
  }

  lemma {:induction false} SubsetSize(a: set<NodeId>, b: set<NodeId>)
    requires a <= b
    ensures |a| <= |b| && (|a| == |b| ==> a == b)
    decreases |a|
  {
    if a == {} {
    } else {
      var x :| x in a;
      SubsetSize(a - {x}, b - {x});
      assert b == (b - {x}) + {x};
    }
  }

  lemma RingIdsKnown(ring: seq<Point>, nodes: map<NodeId, Node>)
    requires Known(ring, nodes)
    ensures |IdsOf(ring)| <= |nodes|
    ensures |IdsOf(ring)| == |nodes| <==> IdsOf(ring) == nodes.Keys
  {
    assert IdsOf(ring) <= nodes.Keys;
    SubsetSize(IdsOf(ring), nodes.Keys);
    assert |nodes| == |nodes.Keys|;
  }

  lemma {:induction false} WalkGrows(ring: seq<Point>, nodes: map<NodeId, Node>, h: nat, t: nat, u: nat)
    requires ring != [] && t <= u
    ensures WalkAfter(ring, nodes, h, t).seen <= WalkAfter(ring, nodes, h, u).seen
    ensures WalkAfter(ring, nodes, h, t).found <= WalkAfter(ring, nodes, h, u).found
    decreases u - t
  {
    if t == u {
    } else {
      WalkGrows(ring, nodes, h, t, u - 1);
    }
  }

  /** Exactly when the loop ends: some round fails the guard if and only if `WalkStops`. In
      particular it always ends when every node has a virtual node, and never ends when a node
      without one leaves too few healthy nodes to find. */
  lemma WalkEndsExactly(ring: seq<Point>, nodes: map<NodeId, Node>, h: nat, count: int)
    requires RingOk(ring, nodes) && ring != []
    ensures WalkStops(ring, nodes, h, count) <==> exists t :: !Goes(WalkAfter(ring, nodes, h, t), nodes, count)
  {
    RingIdsKnown(ring, nodes);
    FullTurn(ring, nodes, h, |ring|);
    if !WalkStops(ring, nodes, h, count) {
      forall t: nat ensures Goes(WalkAfter(ring, nodes, h, t), nodes, count) {
        var u := Max(t, |ring|);
        FullTurn(ring, nodes, h, u);
        WalkGrows(ring, nodes, h, t, u);
        SubsetSize(WalkAfter(ring, nodes, h, t).seen, IdsOf(ring));
      }
    } else {
      assert !Goes(WalkAfter(ring, nodes, h, |ring|), nodes, count);
    }
  }

  /** A node registered with weight 0 has no virtual node: asking a one-point ring for two
      replicas then spins for ever. */
  lemma ZeroWeightNodeSpins()
    ensures var ring, nodes := [Point(5, "a")], map["a" := Node("a", 1, true), "b" := Node("b", 0, true)];
            RingOk(ring, nodes) && forall t :: Goes(WalkAfter(ring, nodes, 0, t), nodes, 2)
  {
    var ring, nodes := [Point(5, "a")], map["a" := Node("a", 1, true), "b" := Node("b", 0, true)];
    FullTurn(ring, nodes, 0, 1);
    assert WalkAfter(ring, nodes, 0, 1) == WalkStep(WalkAfter(ring, nodes, 0, 0), nodes, Visit(ring, 0, 0));
    assert "b" in nodes.Keys && "b" !in IdsOf(ring);
    WalkEndsExactly(ring, nodes, 0, 2);
  }

  lemma {:induction false} NothingNew(ring: seq<Point>, nodes: map<NodeId, Node>, h: nat, t: nat, u: nat)
    requires ring != [] && t <= u && WalkAfter(ring, nodes, h, t).seen == IdsOf(ring)
    ensures WalkAfter(ring, nodes, h, u) == WalkAfter(ring, nodes, h, t)
    decreases u
  {
    if t == u {
    } else {
      NothingNew(ring, nodes, h, t, u - 1);
      assert Visit(ring, h, u - 1) in ring;
    }
  }

  /** What the loop has found when its guard fails. */
  lemma WalkResult(ring: seq<Point>, nodes: map<NodeId, Node>, h: nat, count: int, t: nat)
    requires RingOk(ring, nodes) && ring != [] && t <= |ring|
    requires var w := WalkAfter(ring, nodes, h, t); !Goes(w, nodes, count) && |w.found| <= Max(count, 0)
    ensures WalkAfter(ring, nodes, h, t).found == Take(Replicas(ring, nodes, h), count)
  {
    var w, n := WalkAfter(ring, nodes, h, t), |ring|;
    FirstTurnWalk(ring, nodes, h);
    WalkGrows(ring, nodes, h, t, n);
    if |w.found| < count {
      RingIdsKnown(ring, nodes);
      SubsetSize(w.seen, IdsOf(ring));
      NothingNew(ring, nodes, h, t, n);
    }
  }

  lemma WalkTurn(c: seq<Point>, nodes: map<NodeId, Node>, t: nat)
    requires t < |c|
    ensures WalkOver(c[..t + 1], nodes) == WalkStep(WalkOver(c[..t], nodes), nodes, c[t])
  {
    assert c[..t + 1][..t] == c[..t];
  }

  /** The ring read from index `start` once around. */
  function Turn(ring: seq<Point>, start: nat): seq<Point>
    requires start <= |ring|
  {
    ring[start..] + ring[..start]
  }

  lemma LoopStops(ring: seq<Point>, nodes: map<NodeId, Node>, h: nat, count: int)
    requires RingOk(ring, nodes) && ring != [] && WalkStops(ring, nodes, h, count)
    ensures Bisect(ring, h) <= |ring|
    ensures !Goes(WalkOver(Turn(ring, Bisect(ring, h)), nodes), nodes, count)
  {
    BisectSplits(ring, h);
    RingIdsKnown(ring, nodes);
    FirstTurn(ring, h);
    FullTurn(ring, nodes, h, |ring|);
    WalkAfterVisited(ring, nodes, h, |ring|);
  }

  lemma LoopResult(ring: seq<Point>, nodes: map<NodeId, Node>, h: nat, count: int, t: nat)
    requires RingOk(ring, nodes) && ring != [] && Bisect(ring, h) <= |ring| && t <= |ring|
    requires var w := WalkOver(Turn(ring, Bisect(ring, h))[..t], nodes);
             !Goes(w, nodes, count) && |w.found| <= Max(count, 0)
    ensures WalkOver(Turn(ring, Bisect(ring, h))[..t], nodes).found == Take(Replicas(ring, nodes, h), count)
  {
    BisectSplits(ring, h);
    VisitedPrefix(ring, h, t);
    WalkAfterVisited(ring, nodes, h, t);
    WalkResult(ring, nodes, h, count, t);
  }

  // ----- the single-node lookup -----

  lemma {:induction false} NoneHealthyYet(ring: seq<Point>, nodes: map<NodeId, Node>, h: nat, a: nat)
    requires ring != []
    requires forall j: nat :: j < a ==> !IsHealthy(nodes, Visit(ring, h, j).node)
    ensures WalkAfter(ring, nodes, h, a).found == []
  {
    if a == 0 {
    } else {
      NoneHealthyYet(ring, nodes, h, a - 1);
    }
  }

  lemma {:induction false} NotSeenYet(ring: seq<Point>, nodes: map<NodeId, Node>, h: nat, a: nat, id: NodeId)
    requires ring != []
    requires forall j: nat :: j < a ==> Visit(ring, h, j).node != id
    ensures id !in WalkAfter(ring, nodes, h, a).seen
  {
    if a == 0 {
    } else {
      NotSeenYet(ring, nodes, h, a - 1, id);
    }
  }

  lemma FirstHealthyFound(ring: seq<Point>, nodes: map<NodeId, Node>, h: nat, a: nat)
    requires ring != [] && IsHealthy(nodes, Visit(ring, h, a).node)
    requires forall j: nat :: j < a ==> !IsHealthy(nodes, Visit(ring, h, j).node)
    ensures WalkAfter(ring, nodes, h, a + 1).found == [Visit(ring, h, a).node]
  {
    NoneHealthyYet(ring, nodes, h, a);
    NotSeenYet(ring, nodes, h, a, Visit(ring, h, a).node);
    WalkNext(ring, nodes, h, a);
  }

  lemma FoundStays(ring: seq<Point>, nodes: map<NodeId, Node>, h: nat, t: nat)
    requires Sorted(ring, ByHash()) && ring != []
    ensures WalkAfter(ring, nodes, h, t).found <= Replicas(ring, nodes, h)
  {
    var u := Max(t, |ring|);
    WalkGrows(ring, nodes, h, t, u);
    FullTurn(ring, nodes, h, u);
  }

  lemma FoundIsHead(ring: seq<Point>, nodes: map<NodeId, Node>, h: nat, t: nat, id: NodeId)
    requires Sorted(ring, ByHash()) && ring != [] && WalkAfter(ring, nodes, h, t).found == [id]
    ensures Replicas(ring, nodes, h) != [] && Replicas(ring, nodes, h)[0] == id
  {
    FoundStays(ring, nodes, h, t);
  }

  /** The first healthy point met is the head of the replica list. */
  lemma FirstHealthyIsHead(ring: seq<Point>, nodes: map<NodeId, Node>, h: nat, a: nat)
    requires Sorted(ring, ByHash()) && ring != []
    requires IsHealthy(nodes, Visit(ring, h, a).node)
    requires forall j: nat :: j < a ==> !IsHealthy(nodes, Visit(ring, h, j).node)
    ensures Replicas(ring, nodes, h) != [] && Replicas(ring, nodes, h)[0] == Visit(ring, h, a).node
  {
    FirstHealthyFound(ring, nodes, h, a);
    FoundIsHead(ring, nodes, h, a + 1, Visit(ring, h, a).node);
  }

  /** The loop of `get_nodes`, on the ring and the node table of the moment. */
  method Collect(ring: seq<Point>, start: nat, nodes: map<NodeId, Node>, count: int)
    returns (found: seq<NodeId>, ghost t: nat)
    requires ring != [] && start <= |ring|
    requires !Goes(WalkOver(Turn(ring, start), nodes), nodes, count)
    ensures t <= |ring| && found == WalkOver(Turn(ring, start)[..t], nodes).found
    ensures !Goes(WalkOver(Turn(ring, start)[..t], nodes), nodes, count) && |found| <= Max(count, 0)
  {
    var idx := start;
    found := [];
    var seen: set<NodeId> := {};
    ghost var c := Turn(ring, start);
    t := 0;
    while |found| < count && |seen| < |nodes|
      invariant 0 <= t <= |ring| && 0 <= idx <= |ring|
      invariant idx == start + t || idx == start + t - |ring|
      invariant Walk(seen, found) == WalkOver(c[..t], nodes)
      invariant |found| <= Max(count, 0)
      decreases |ring| - t
    {
      assert t < |ring| by {
        assert c[..|ring|] == c;
      }
      if idx >= |ring| {
        idx := 0;
      }
      assert ring[idx] == c[t];
      WalkTurn(c, nodes, t);
      ghost var next := WalkStep(Walk(seen, found), nodes, ring[idx]);
      var id := ring[idx].node;
      if id !in seen {
        seen := seen + {id};
        if id in nodes && nodes[id].healthy {
          found := found + [id];
        }
      }
      assert Walk(seen, found) == next;
      idx := idx + 1;
      t := t + 1;
    }
  }

  lemma NextIndex(i: nat, n: nat)
    requires i < n
    ensures (i + 1) % n == if i + 1 >= n then 0 else i + 1
  {
    if i + 1 == n {
      assert n % n == 0;
    }
  }

  /** The loop of `get_node`: moves on over unhealthy points, at most `|nodes|` times. */
  method Skip(ring: seq<Point>, start: nat, nodes: map<NodeId, Node>) returns (idx: nat, attempts: nat)
    requires ring != [] && start <= |ring| && Known(ring, nodes)
    ensures attempts <= |nodes| && idx < |ring| && idx == Position(start, |ring|, attempts)
    ensures nodes[ring[idx].node].healthy || attempts == |nodes|
    ensures forall j: nat :: j < attempts ==> !IsHealthy(nodes, ring[Position(start, |ring|, j)].node)
  {
    idx := start;
    if idx >= |ring| {
      idx := 0;
    }
    attempts := 0;
    while !nodes[ring[idx].node].healthy && attempts < |nodes|
      invariant attempts <= |nodes| && idx < |ring|
      invariant idx == Position(start, |ring|, attempts)
      invariant forall j: nat :: j < attempts ==> !IsHealthy(nodes, ring[Position(start, |ring|, j)].node)
    {
      NextIndex(idx, |ring|);
      idx := (idx + 1) % |ring|;
      attempts := attempts + 1;
    }
  }

  /** The loop of `add_node`: one point per virtual node, appended in index order. */
  method AppendVirtual(ring: seq<Point>, hash: string -> nat, id: NodeId, n: int) returns (points: seq<Point>)
    ensures points == ring + VirtualPoints(hash, id, n)
  {
    points := ring;
    for i := 0 to Max(n, 0)
      invariant points == ring + VirtualPoints(hash, id, i)
    {
      points := points + [Point(hash(VirtualKey(id, i)), id)];
    }
  }

  // ----- the ring object -----

  class ConsistentHashing {
    const virtualNodes: int
    const hash: string -> nat
    var ring: seq<Point>
    var nodes: map<NodeId, Node>

    ghost predicate Valid()
      reads this
    {
      RingOk(ring, nodes)
    }

    constructor (hash: string -> nat, virtualNodes: int := 150)
      ensures Valid() && ring == [] && nodes == map[]
      ensures this.hash == hash && this.virtualNodes == virtualNodes
    {
      this.hash, this.virtualNodes, ring, nodes := hash, virtualNodes, [], map[];
    }

    method AddNode(node: Node)
      requires Valid()
      modifies this
      ensures Valid()
      ensures nodes == old(nodes)[node.id := node]
      ensures ring == AddedRing(old(ring), hash, node.id, virtualNodes * node.weight)
      ensures GainsPoints(old(ring), ring, hash, node.id, virtualNodes * node.weight)
    {
      var n := virtualNodes * node.weight;
      AddGainsPoints(ring, hash, node.id, n);
      AddKeepsRing(ring, nodes, hash, node, n);
      nodes := nodes[node.id := node];
      ring := AppendVirtual(ring, hash, node.id, n);
      ring := StableSort(ring, ByHash());
    }

    method RemoveNode(id: NodeId)
      requires Valid()
      modifies this
      ensures Valid()
      ensures nodes == old(nodes) - {id}
      ensures ring == RemovedRing(old(ring), id)
    {
      if id !in nodes {
        FilterAll(ring, PointNotOf(id));
        return;
      }
      RemoveKeepsRing(ring, nodes, id);
      ring := Filter(ring, PointNotOf(id));
      nodes := nodes - {id};
    }

    /** The health monitor flips the flag of a registered node in place. */
    method SetHealth(id: NodeId, healthy: bool)
      requires Valid() && id in nodes
      modifies this`nodes
      ensures Valid()
      ensures nodes == old(nodes)[id := old(nodes)[id].(healthy := healthy)]
    {
      nodes := nodes[id := nodes[id].(healthy := healthy)];
    }

    /** The first `count` distinct healthy nodes clockwise from the key, fewer if there are fewer. */
    method GetNodes(key: string, count: int) returns (found: seq<NodeId>)
      requires Valid()
      requires WalkStops(ring, nodes, hash(key), count)
      ensures found == Take(Replicas(ring, nodes, hash(key)), count)
    {
      if ring == [] {
        return [];
      }
      var h := hash(key);
      BisectInRange(ring, h);
      ghost var t;
      LoopStops(ring, nodes, h, count);
      found, t := Collect(ring, Bisect(ring, h), nodes, count);
      LoopResult(ring, nodes, h, count, t);
    }

    /** The node for a key: skips at most `|nodes|` unhealthy virtual nodes, then gives up. */
    method GetNode(key: string) returns (r: Option<NodeId>)
      requires Valid()
      ensures r.None? <==> ring == []
      ensures r.Some? ==> r.value in nodes
      ensures r.Some? && !IsHealthy(nodes, r.value) ==> r.value == Visit(ring, hash(key), |nodes|).node
      ensures r.Some? ==> (IsHealthy(nodes, r.value) <==>
                exists j: nat :: j <= |nodes| && IsHealthy(nodes, Visit(ring, hash(key), j).node))
      ensures r.Some? && IsHealthy(nodes, r.value) ==>
                Replicas(ring, nodes, hash(key)) != [] && Replicas(ring, nodes, hash(key))[0] == r.value
    {
      if ring == [] {
        return None;
      }
      var h := hash(key);
      BisectInRange(ring, h);
      var idx, steps := Skip(ring, Bisect(ring, h), nodes);
      assert ring[idx] == Visit(ring, h, steps);
      if nodes[ring[idx].node].healthy {
        FirstHealthyIsHead(ring, nodes, h, steps);
      }
      r := Some(ring[idx].node);
    }
  }

  /** The guard "whenever it returns a healthy node" is needed: three points of an unhealthy
      node in a row exhaust the two attempts, though the ring has a healthy node. */
  lemma LookupGivesUpEarly()
    ensures var ring := [Point(1, "a"), Point(2, "a"), Point(3, "a"), Point(4, "b")];
            var nodes := map["a" := Node("a", 3, false), "b" := Node("b", 1, true)];
            && RingOk(ring, nodes)
            && Replicas(ring, nodes, 0) != [] && Replicas(ring, nodes, 0)[0] == "b"
            && forall j: nat :: j <= |nodes| ==> !IsHealthy(nodes, Visit(ring, 0, j).node)
  {
    var ring := [Point(1, "a"), Point(2, "a"), Point(3, "a"), Point(4, "b")];
    var nodes := map["a" := Node("a", 3, false), "b" := Node("b", 1, true)];
    FilterNone(ring, BelowHash(0));
    assert |nodes| == |nodes.Keys| && nodes.Keys == {"a", "b"};
    assert forall t: nat :: t < 4 ==> Position(0, 4, t) == t;
    FirstHealthyIsHead(ring, nodes, 0, 3);
  }
}
