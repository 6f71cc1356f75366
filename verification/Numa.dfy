/**
 Spreading workers over NUMA nodes: one physical core per node in turn, then the next
 core of every node, and so on.
 */
module Numa {
  import opened Sequences

  // ---- one CPU per physical core ----

  /** The core a CPU stands for: its lowest-numbered hyperthread sibling. */
  type Siblings = int -> seq<int>

  function Lowest(cpus: seq<int>): (m: int)
    requires cpus != []
    ensures m in cpus && forall c :: c in cpus ==> m <= c
  {
    if |cpus| == 1 then cpus[0]
    else
      var rest := Lowest(cpus[1..]);
      assert forall c :: c in cpus ==> c == cpus[0] || c in cpus[1..];
      if cpus[0] <= rest then cpus[0] else rest
  }

  function Representative(cpu: int, siblings: Siblings): int {
    if siblings(cpu) == [] then cpu else Lowest(siblings(cpu))
  }

  predicate Distinct(s: seq<int>) { forall i, j :: 0 <= i < j < |s| ==> s[i] != s[j] }

  /** CPU `k`'s core is listed, no later than the CPU itself. */
  ghost predicate Represented(cores: seq<int>, cpus: seq<int>, siblings: Siblings, k: nat)
    requires k < |cpus|
  {
    exists q :: 0 <= q < |cores| && q <= k && cores[q] == Representative(cpus[k], siblings)
  }

  /** The cores come in the order of the CPUs that bring them in: `at[p]` is the first of core `p`. */
  ghost predicate FirstSeen(cores: seq<int>, at: seq<nat>, cpus: seq<int>, siblings: Siblings) {
    && |at| == |cores|
    && (forall p, q :: 0 <= p < q < |at| ==> at[p] < at[q])
    && forall p :: 0 <= p < |at| ==>
         && at[p] < |cpus| && cores[p] == Representative(cpus[at[p]], siblings)
         && forall k :: 0 <= k < at[p] ==> Representative(cpus[k], siblings) != cores[p]
  }

  /** `_node_core_cpus`: no core twice, every listed CPU's core, no others, in the order of first mention. */
  method NodeCoreCpus(cpus: seq<int>, siblings: Siblings) returns (cores: seq<int>, ghost at: seq<nat>)
    ensures Distinct(cores) && FirstSeen(cores, at, cpus, siblings)
    ensures forall k :: 0 <= k < |cpus| ==> Represented(cores, cpus, siblings, k)
    ensures forall c :: c in cores ==> exists k :: 0 <= k < |cpus| && c == Representative(cpus[k], siblings)
  {
    var seen: set<int> := {};
    cores, at := [], [];
    for k := 0 to |cpus|
      invariant Distinct(cores) && |cores| <= k
      invariant FirstSeen(cores, at, cpus, siblings) && forall p :: 0 <= p < |at| ==> at[p] < k
      invariant forall c :: c in seen <==> c in cores
      invariant forall c :: c in cores ==> exists i :: 0 <= i < k && c == Representative(cpus[i], siblings)
      invariant forall i :: 0 <= i < k ==> Represented(cores, cpus, siblings, i)
    {
      var representative := Representative(cpus[k], siblings);
      ghost var before := cores;
      if representative !in seen {
        forall i | 0 <= i < k ensures Representative(cpus[i], siblings) != representative {
          assert Represented(cores, cpus, siblings, i);
        }
        seen := seen + {representative};
        cores, at := cores + [representative], at + [k];
        assert cores[|before|] == representative;
      }
      forall i | 0 <= i < k + 1 ensures Represented(cores, cpus, siblings, i) {
        if i < k {
          assert Represented(before, cpus, siblings, i);
          var q :| 0 <= q < |before| && q <= i && before[q] == Representative(cpus[i], siblings);
          assert cores[q] == before[q];
        }
      }
    }
  }

  /** CPU `k` is the first of its core. */
  predicate BringsIn(cpus: seq<int>, siblings: Siblings, k: nat)
    requires k < |cpus|
  {
    forall i :: 0 <= i < k ==> Representative(cpus[i], siblings) != Representative(cpus[k], siblings)
  }

  /** Every CPU that is the first of its core stands for a higher core than all CPUs before it. */
  ghost predicate CoresRise(cpus: seq<int>, siblings: Siblings) {
    forall j, k :: 0 <= j < k < |cpus| && BringsIn(cpus, siblings, k) ==>
      Representative(cpus[j], siblings) < Representative(cpus[k], siblings)
  }

  /** The documentation says that the cores ascend. They do exactly then. */
  lemma CoresAscendIff(cores: seq<int>, at: seq<nat>, cpus: seq<int>, siblings: Siblings)
    requires FirstSeen(cores, at, cpus, siblings)
    requires forall k :: 0 <= k < |cpus| ==> Represented(cores, cpus, siblings, k)
    ensures (forall p, q :: 0 <= p < q < |cores| ==> cores[p] < cores[q]) <==> CoresRise(cpus, siblings)
  {
    if forall p, q :: 0 <= p < q < |cores| ==> cores[p] < cores[q] {
      forall j, k | 0 <= j < k < |cpus| && BringsIn(cpus, siblings, k)
        ensures Representative(cpus[j], siblings) < Representative(cpus[k], siblings)
      {
        var p := CoreOf(cores, at, cpus, siblings, j);
        var q := CoreOf(cores, at, cpus, siblings, k);
        assert at[p] <= j && at[q] == k;
      }
    } else {
      var p, q :| 0 <= p < q < |cores| && cores[p] >= cores[q];
      assert BringsIn(cpus, siblings, at[q]);
    }
  }

  /** The core of a CPU and the first CPU that has it. */
  lemma CoreOf(cores: seq<int>, at: seq<nat>, cpus: seq<int>, siblings: Siblings, k: nat) returns (p: nat)
    requires FirstSeen(cores, at, cpus, siblings) && k < |cpus| && Represented(cores, cpus, siblings, k)
    ensures p < |cores| && cores[p] == Representative(cpus[k], siblings) && at[p] <= k
    ensures BringsIn(cpus, siblings, k) ==> at[p] == k
  {
    var q :| 0 <= q < |cores| && q <= k && cores[q] == Representative(cpus[k], siblings);
    p := q;
  }

  lemma {:induction false} Climbs(at: seq<nat>, n: nat)
    requires n <= |at| && forall p, q :: 0 <= p < q < |at| ==> at[p] < at[q]
    ensures n > 0 ==> at[n - 1] >= n - 1
  {
    if n > 1 {
      Climbs(at, n - 1);
    }
  }

  /** A list on which they do not: CPU 5's lowest sibling, 3, comes behind CPU 4. */
  lemma CoresDescend(cores: seq<int>, at: seq<nat>)
    requires var siblings := (cpu: int) => if cpu == 5 then [3, 5] else [cpu];
             FirstSeen(cores, at, [4, 5], siblings) &&
             forall k :: 0 <= k < 2 ==> Represented(cores, [4, 5], siblings, k)
    ensures cores == [4, 3]
  {
    var siblings := (cpu: int) => if cpu == 5 then [3, 5] else [cpu];
    var cpus := [4, 5];
    assert Lowest([4]) == 4 && [3, 5][1..] == [5] && Lowest([5]) == 5 && Lowest([3, 5]) == 3;
    assert Representative(cpus[0], siblings) == 4 && Representative(cpus[1], siblings) == 3;
    assert BringsIn(cpus, siblings, 0) && BringsIn(cpus, siblings, 1);
    var p := CoreOf(cores, at, cpus, siblings, 0);
    var q := CoreOf(cores, at, cpus, siblings, 1);
    assert at[p] == 0 && at[q] == 1;
    Climbs(at, p + 1);
    Climbs(at, q + 1);
    assert p == 0 && q == 1;
    Climbs(at, |at|);
  }

  /** They do where the list ascends and holds, with each CPU, its lowest sibling, which stands for itself. */
  lemma WholeCoresAscend(cores: seq<int>, at: seq<nat>, cpus: seq<int>, siblings: Siblings)
    requires FirstSeen(cores, at, cpus, siblings)
    requires forall k :: 0 <= k < |cpus| ==> Represented(cores, cpus, siblings, k)
    requires forall i, j :: 0 <= i < j < |cpus| ==> cpus[i] < cpus[j]
    requires forall k :: 0 <= k < |cpus| ==>
               var r := Representative(cpus[k], siblings);
               r in cpus && r <= cpus[k] && Representative(r, siblings) == r
    ensures forall p, q :: 0 <= p < q < |cores| ==> cores[p] < cores[q]
  {
    forall j, k | 0 <= j < k < |cpus| && BringsIn(cpus, siblings, k)
      ensures Representative(cpus[j], siblings) < Representative(cpus[k], siblings)
    {
      var r := Representative(cpus[k], siblings);
      var i :| 0 <= i < |cpus| && cpus[i] == r;
      assert i <= k && i >= k;
      assert Representative(cpus[j], siblings) <= cpus[j] < cpus[k] == r;
    }
    CoresAscendIff(cores, at, cpus, siblings);
  }

  // ---- the order ----

  /** Core `level` of node `node`. */
  datatype Slot = Slot(node: nat, level: nat)

  /** The slots before node `node` of level `level`, level by level. */
  function SlotsUpTo(perNode: seq<seq<int>>, level: nat, node: nat): (slots: seq<Slot>)
    requires node <= |perNode|
    decreases level, node
  {
    if node > 0 then
      SlotsUpTo(perNode, level, node - 1) +
      (if level < |perNode[node - 1]| then [Slot(node - 1, level)] else [])
    else if level > 0 then SlotsUpTo(perNode, level - 1, |perNode|)
    else []
  }

  /** A slot that is there, before node `node` of level `level`. */
  predicate Before(perNode: seq<seq<int>>, s: Slot, level: nat, node: nat) {
    && s.node < |perNode| && s.level < |perNode[s.node]|
    && (s.level < level || (s.level == level && s.node < node))
  }

  /** Distinct slots, all of them before a position. */
  predicate Ordered(perNode: seq<seq<int>>, slots: seq<Slot>, level: nat, node: nat) {
    && (forall i :: 0 <= i < |slots| ==> Before(perNode, slots[i], level, node))
    && (forall i, j :: 0 <= i < j < |slots| ==> slots[i] != slots[j])
  }

  lemma {:induction false} SlotsAre(perNode: seq<seq<int>>, level: nat, node: nat)
    requires node <= |perNode|
    ensures Ordered(perNode, SlotsUpTo(perNode, level, node), level, node)
    decreases level, node
  {
    if node > 0 {
      SlotsAre(perNode, level, node - 1);
    } else if level > 0 {
      SlotsAre(perNode, level - 1, |perNode|);
    }
  }

  /** Level by level, and within a level node by node. */
  predicate Earlier(level: int, node: int, otherLevel: int, otherNode: int) {
    level < otherLevel || (level == otherLevel && node < otherNode)
  }

  predicate Ascend(slots: seq<Slot>) {
    forall i, j :: 0 <= i < j < |slots| ==> Earlier(slots[i].level, slots[i].node, slots[j].level, slots[j].node)
  }

  lemma {:induction false} SlotsAscend(perNode: seq<seq<int>>, level: nat, node: nat)
    requires node <= |perNode|
    ensures Ascend(SlotsUpTo(perNode, level, node))
    decreases level, node
  {
    if node > 0 {
      SlotsAscend(perNode, level, node - 1);
      SlotsAre(perNode, level, node - 1);
    } else if level > 0 {
      SlotsAscend(perNode, level - 1, |perNode|);
    }
  }

  /** No core before the position is left out. */
  lemma {:induction false} SlotsComplete(perNode: seq<seq<int>>, level: nat, node: nat, s: Slot)
    requires node <= |perNode| && Before(perNode, s, level, node)
    ensures s in SlotsUpTo(perNode, level, node)
    decreases level, node
  {
    if node > 0 {
      if s != Slot(node - 1, level) {
        SlotsComplete(perNode, level, node - 1, s);
      }
    } else if level > 0 {
      SlotsComplete(perNode, level - 1, |perNode|, s);
    }
  }

  function Count(slots: seq<Slot>, node: nat): nat {
    if slots == [] then 0
    else Count(slots[..|slots| - 1], node) + (if slots[|slots| - 1].node == node then 1 else 0)
  }

  lemma CountOne(slots: seq<Slot>, s: Slot, node: nat)
    ensures Count(slots + [s], node) == Count(slots, node) + (if s.node == node then 1 else 0)
  {
    assert (slots + [s])[..|slots + [s]| - 1] == slots;
  }

  /** How many cores of a node have been used: one per level begun, until there are no more. */
  lemma {:induction false} CountAt(perNode: seq<seq<int>>, level: nat, node: nat, a: nat)
    requires node <= |perNode| && a < |perNode|
    ensures Count(SlotsUpTo(perNode, level, node), a) == Min(|perNode[a]|, if a < node then level + 1 else level)
    decreases level, node
  {
    if node > 0 {
      CountAt(perNode, level, node - 1, a);
      var before := SlotsUpTo(perNode, level, node - 1);
      CountOne(before, Slot(node - 1, level), a);
      assert before + [] == before;
    } else if level > 0 {
      CountAt(perNode, level - 1, |perNode|, a);
    }
  }

  function Depth(perNode: seq<seq<int>>): (d: nat)
    ensures forall a :: 0 <= a < |perNode| ==> |perNode[a]| <= d
  {
    if perNode == [] then 0
    else
      var n := |perNode| - 1;
      var rest := Depth(perNode[..n]);
      assert forall a :: 0 <= a < n ==> perNode[..n][a] == perNode[a];
      Max(rest, |perNode[n]|)
  }

  function AllSlots(perNode: seq<seq<int>>): seq<Slot> { SlotsUpTo(perNode, Depth(perNode), 0) }

  lemma {:induction false} LevelWithin(perNode: seq<seq<int>>, level: nat, node: nat, more: nat)
    requires node <= more <= |perNode|
    ensures SlotsUpTo(perNode, level, node) <= SlotsUpTo(perNode, level, more)
    decreases more
  {
    if node < more {
      LevelWithin(perNode, level, node, more - 1);
    }
  }

  lemma {:induction false} SlotsPrefix(perNode: seq<seq<int>>, level: nat, node: nat, deeper: nat)
    requires node <= |perNode| && level < deeper
    ensures SlotsUpTo(perNode, level, node) <= SlotsUpTo(perNode, deeper, 0)
    decreases deeper
  {
    LevelWithin(perNode, deeper - 1, 0, |perNode|);
    if level == deeper - 1 {
      LevelWithin(perNode, level, node, |perNode|);
    } else {
      SlotsPrefix(perNode, level, node, deeper - 1);
    }
  }

  /** Every prefix of the order is where some level had got to at some node. */
  lemma {:induction false} PrefixPosition(perNode: seq<seq<int>>, level: nat, node: nat, k: nat)
    returns (l: nat, m: nat)
    requires node <= |perNode| && k <= |SlotsUpTo(perNode, level, node)|
    ensures m <= |perNode| && SlotsUpTo(perNode, l, m) == SlotsUpTo(perNode, level, node)[..k]
    decreases level, node
  {
    var slots := SlotsUpTo(perNode, level, node);
    if k == |slots| {
      l, m := level, node;
      assert slots[..k] == slots;
    } else if node > 0 {
      l, m := PrefixPosition(perNode, level, node - 1, k);
      assert slots[..k] == SlotsUpTo(perNode, level, node - 1)[..k];
    } else {
      l, m := PrefixPosition(perNode, level - 1, |perNode|, k);
    }
  }

  // ---- `spread_cpu_order` ----

  function CoresOf(perNode: seq<seq<int>>, slots: seq<Slot>): seq<int>
    requires forall i :: 0 <= i < |slots| ==> slots[i].node < |perNode| && slots[i].level < |perNode[slots[i].node]|
  {
    seq(|slots|, i requires 0 <= i < |slots| => perNode[slots[i].node][slots[i].level])
  }

  /** The whole order, and its first `n` CPUs. */
  function WholeOrder(perNode: seq<seq<int>>): seq<int> {
    SlotsAre(perNode, Depth(perNode), 0);
    CoresOf(perNode, AllSlots(perNode))
  }

  function Spread(perNode: seq<seq<int>>, n: int): seq<int> {
    WholeOrder(perNode)[..Min(Max(n, 0), |WholeOrder(perNode)|)]
  }

  lemma SpreadAt(perNode: seq<seq<int>>, level: nat, node: nat, n: int)
    requires node <= |perNode| && level < Depth(perNode)
    ensures forall s :: s in SlotsUpTo(perNode, level, node) ==> s.node < |perNode| && s.level < |perNode[s.node]|
    ensures SlotsUpTo(perNode, level, node) <= AllSlots(perNode)
    ensures n == |SlotsUpTo(perNode, level, node)| ==>
              Spread(perNode, n) == CoresOf(perNode, SlotsUpTo(perNode, level, node))
  {
    SlotsAre(perNode, level, node);
    SlotsAre(perNode, Depth(perNode), 0);
    SlotsPrefix(perNode, level, node, Depth(perNode));
    var slots, all := SlotsUpTo(perNode, level, node), AllSlots(perNode);
    assert all[..|slots|] == slots;
  }

  method SpreadCpuOrder(perNode: seq<seq<int>>, n: int) returns (order: seq<int>)
    ensures order == Spread(perNode, n)
    ensures DisjointCores(perNode) ==> RoundRobin(perNode, n, order)
  {
    if DisjointCores(perNode) {
      SpreadIsRoundRobin(perNode, n);
    }
    if n <= 0 { return []; }
    order := [];
    var depth := Depth(perNode);
    SlotsAre(perNode, depth, 0);
    ghost var slots: seq<Slot> := [];
    for level := 0 to depth
      invariant slots == SlotsUpTo(perNode, level, 0)
      invariant forall s :: s in slots ==> s.node < |perNode| && s.level < |perNode[s.node]|
      invariant order == CoresOf(perNode, slots) && |order| < n
    {
      for node := 0 to |perNode|
        invariant slots == SlotsUpTo(perNode, level, node)
        invariant forall s :: s in slots ==> s.node < |perNode| && s.level < |perNode[s.node]|
        invariant order == CoresOf(perNode, slots) && |order| < n
      {
        SpreadAt(perNode, level, node + 1, n);
        if level < |perNode[node]| {
          order := order + [perNode[node][level]];
          slots := slots + [Slot(node, level)];
          assert order == CoresOf(perNode, slots);
          if |order| >= n { return; }
        }
      }
    }
  }

  // ---- what the order promises ----

  /** No core belongs to two nodes, or twice to one. */
  predicate DisjointCores(perNode: seq<seq<int>>) {
    forall a, b, i, j ::
      (0 <= a < |perNode| && 0 <= b < |perNode| && 0 <= i < |perNode[a]| && 0 <= j < |perNode[b]|
       && perNode[a][i] == perNode[b][j]) ==> (a == b && i == j)
  }

  function TotalCores(perNode: seq<seq<int>>): nat {
    if perNode == [] then 0 else TotalCores(perNode[..|perNode| - 1]) + |perNode[|perNode| - 1]|
  }

  function CountSum(slots: seq<Slot>, nodes: nat): nat {
    if nodes == 0 then 0 else CountSum(slots, nodes - 1) + Count(slots, nodes - 1)
  }

  lemma {:induction false} CountSumStep(slots: seq<Slot>, s: Slot, nodes: nat)
    ensures CountSum(slots + [s], nodes) == CountSum(slots, nodes) + (if s.node < nodes then 1 else 0)
  {
    if nodes > 0 {
      CountSumStep(slots, s, nodes - 1);
      CountOne(slots, s, nodes - 1);
    }
  }

  lemma {:induction false} CountSumIsLength(slots: seq<Slot>, nodes: nat)
    requires forall i :: 0 <= i < |slots| ==> slots[i].node < nodes
    ensures CountSum(slots, nodes) == |slots|
  {
    if slots == [] {
      NothingCounted(nodes);
    } else {
      var n := |slots| - 1;
      CountSumIsLength(slots[..n], nodes);
      CountSumStep(slots[..n], slots[n], nodes);
      assert slots[..n] + [slots[n]] == slots;
    }
  }

  lemma {:induction false} NothingCounted(nodes: nat)
    ensures CountSum([], nodes) == 0
  {
    if nodes > 0 {
      NothingCounted(nodes - 1);
    }
  }

  lemma {:induction false} EveryCoreOnce(perNode: seq<seq<int>>, slots: seq<Slot>, nodes: nat)
    requires nodes <= |perNode| && forall a :: 0 <= a < |perNode| ==> Count(slots, a) == |perNode[a]|
    ensures CountSum(slots, nodes) == TotalCores(perNode[..nodes])
  {
    if nodes > 0 {
      EveryCoreOnce(perNode, slots, nodes - 1);
      assert perNode[..nodes][..nodes - 1] == perNode[..nodes - 1];
    }
  }

  /** `min(n, total cores)` distinct CPUs, each result for a smaller `n` a prefix of the larger one. */
  lemma SpreadIsDistinct(perNode: seq<seq<int>>, n: int, m: int)
    requires DisjointCores(perNode)
    ensures |Spread(perNode, n)| == Min(Max(n, 0), TotalCores(perNode))
    ensures Distinct(Spread(perNode, n))
    ensures m <= n ==> Spread(perNode, m) <= Spread(perNode, n)
  {
    var slots := AllSlots(perNode);
    var depth := Depth(perNode);
    SlotsAre(perNode, depth, 0);
    forall a | 0 <= a < |perNode| ensures Count(slots, a) == |perNode[a]| {
      CountAt(perNode, depth, 0, a);
    }
    CountSumIsLength(slots, |perNode|);
    EveryCoreOnce(perNode, slots, |perNode|);
    assert perNode[..|perNode|] == perNode;
  }

  /** The CPU is core `i` of node `a`. */
  predicate IsCore(perNode: seq<seq<int>>, a: int, i: int, cpu: int) {
    0 <= a < |perNode| && 0 <= i < |perNode[a]| && perNode[a][i] == cpu
  }

  ghost predicate SomeCore(perNode: seq<seq<int>>, cpu: int) {
    exists a, i :: IsCore(perNode, a, i, cpu)
  }

  /** First every node's first core, node by node, then every node's second core, and so on. */
  ghost predicate InTurn(perNode: seq<seq<int>>, order: seq<int>) {
    forall p, q, a, i, b, j ::
      0 <= p < |order| && 0 <= q < |order| && IsCore(perNode, a, i, order[p]) && IsCore(perNode, b, j, order[q]) ==>
        (p < q <==> i < j || (i == j && a < b))
  }

  /** No core is left out in favour of a later one. */
  ghost predicate LeavesNone(perNode: seq<seq<int>>, order: seq<int>) {
    forall p, b, j, a, i, cpu ::
      (0 <= p < |order| && IsCore(perNode, b, j, order[p]) && IsCore(perNode, a, i, cpu)
       && (i < j || (i == j && a < b))) ==> cpu in order
  }

  /** As many cores as asked for, one from each node in turn. */
  ghost predicate RoundRobin(perNode: seq<seq<int>>, n: int, order: seq<int>) {
    && |order| == Min(Max(n, 0), TotalCores(perNode))
    && (forall p :: 0 <= p < |order| ==> SomeCore(perNode, order[p]))
    && InTurn(perNode, order) && LeavesNone(perNode, order)
  }

  /** The slots behind the CPUs of an order, and where they end. */
  lemma SpreadSlots(perNode: seq<seq<int>>, n: int) returns (used: seq<Slot>, l: nat, m: nat)
    ensures m <= |perNode| && used == SlotsUpTo(perNode, l, m) && |used| == |Spread(perNode, n)|
    ensures used == AllSlots(perNode)[..|used|]
    ensures forall p :: 0 <= p < |used| ==> Before(perNode, used[p], l, m)
    ensures forall p :: 0 <= p < |used| ==> IsCore(perNode, used[p].node, used[p].level, Spread(perNode, n)[p])
  {
    SlotsAre(perNode, Depth(perNode), 0);
    var k := |Spread(perNode, n)|;
    l, m := PrefixPosition(perNode, Depth(perNode), 0, k);
    used := SlotsUpTo(perNode, l, m);
    SlotsAre(perNode, l, m);
  }

  /** Where the cores are apart, the order is the round robin. */
  lemma SpreadIsRoundRobin(perNode: seq<seq<int>>, n: int)
    requires DisjointCores(perNode)
    ensures RoundRobin(perNode, n, Spread(perNode, n))
  {
    SpreadIsDistinct(perNode, n, n);
    hide TotalCores;
    hide Spread;
    var order := Spread(perNode, n);
    var used, l, m := SpreadSlots(perNode, n);
    SlotsAscend(perNode, l, m);
    forall p | 0 <= p < |order| ensures SomeCore(perNode, order[p]) {
      assert IsCore(perNode, used[p].node, used[p].level, order[p]);
    }
    forall p, q, a, i, b, j | 0 <= p < |order| && 0 <= q < |order| &&
                              IsCore(perNode, a, i, order[p]) && IsCore(perNode, b, j, order[q])
      ensures p < q <==> i < j || (i == j && a < b)
    {
      assert used[p] == Slot(a, i) && used[q] == Slot(b, j);
      assert p < q ==> Earlier(used[p].level, used[p].node, used[q].level, used[q].node);
      assert q < p ==> Earlier(used[q].level, used[q].node, used[p].level, used[p].node);
    }
    forall p, b, j, a, i, cpu | 0 <= p < |order| && IsCore(perNode, b, j, order[p]) &&
                                IsCore(perNode, a, i, cpu) && (i < j || (i == j && a < b))
      ensures cpu in order
    {
      assert used[p] == Slot(b, j);
      SlotsComplete(perNode, l, m, Slot(a, i));
      var q :| 0 <= q < |used| && used[q] == Slot(a, i);
      assert order[q] == cpu;
    }
    assert InTurn(perNode, order);
    assert LeavesNone(perNode, order);
  }

  /** How many of the CPUs are cores of the node. */
  function UsedOf(cpus: seq<int>, cores: seq<int>): nat {
    if cpus == [] then 0
    else UsedOf(cpus[..|cpus| - 1], cores) + (if cpus[|cpus| - 1] in cores then 1 else 0)
  }

  lemma {:induction false} UsedIsCount(perNode: seq<seq<int>>, slots: seq<Slot>, cpus: seq<int>, a: nat)
    requires DisjointCores(perNode) && a < |perNode| && |cpus| == |slots|
    requires forall p :: 0 <= p < |slots| ==>
               slots[p].node < |perNode| && IsCore(perNode, slots[p].node, slots[p].level, cpus[p])
    ensures UsedOf(cpus, perNode[a]) == Count(slots, a)
  {
    if cpus != [] {
      var n := |cpus| - 1;
      UsedIsCount(perNode, slots[..n], cpus[..n], a);
      if cpus[n] in perNode[a] {
        var i :| 0 <= i < |perNode[a]| && perNode[a][i] == cpus[n];
        assert slots[n].node == a;
      }
    }
  }

  /** Among the first `k` slots of the order a node is behind another by at most one, unless it is exhausted. */
  lemma SlotsAreBalanced(perNode: seq<seq<int>>, k: nat, a: nat, b: nat)
    requires k <= |AllSlots(perNode)| && a < |perNode| && b < |perNode|
    ensures var used := AllSlots(perNode)[..k];
            Count(used, a) + 1 >= Count(used, b) || Count(used, a) == |perNode[a]|
  {
    var l, m := PrefixPosition(perNode, Depth(perNode), 0, k);
    CountAt(perNode, l, m, a);
    CountAt(perNode, l, m, b);
  }

  /**
   Balance: among the first `k` CPUs of the order, a node is behind another by at most one
   core, unless all of its cores are already used.
   */
  lemma SpreadIsBalanced(perNode: seq<seq<int>>, n: int, k: nat, a: nat, b: nat)
    requires DisjointCores(perNode) && k <= |Spread(perNode, n)| && a < |perNode| && b < |perNode|
    ensures var used := Spread(perNode, n)[..k];
            || UsedOf(used, perNode[a]) + 1 >= UsedOf(used, perNode[b])
            || UsedOf(used, perNode[a]) == |perNode[a]|
  {
    assert Spread(perNode, n)[..k] == Spread(perNode, k);
    var slots, l, m := SpreadSlots(perNode, k);
    SlotsAreBalanced(perNode, k, a, b);
    UsedIsCount(perNode, slots, Spread(perNode, k), a);
    UsedIsCount(perNode, slots, Spread(perNode, k), b);
  }
}
