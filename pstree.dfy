/** The process-tree bookkeeping of pstree/pstree.c: the direct-mapped
    table of (pid, ppid) pairs, the node list built from it, and the search
    for the root of the tree. */
module PsTree {
  const HASH_SIZE: int := 1000
  const MAX_NODES: int := 1000
  /** Room for every node the build can create: a parent and a child per
      table slot. The source gives the node list MAX_NODES entries only
      (see NodesOverflow). */
  const NODES_CAPACITY: int := 2 * HASH_SIZE
  const INT_MIN: int := -0x8000_0000
  const INT_MAX: int := 0x7fff_ffff

  /** A table slot (pstree/pstree.h:5-9); pid 0 marks an empty slot. */
  datatype HashNode = HashNode(pid: int, ppid: int)

  /** hashFunction (pstree/pstree.c:27-30): `key % HASH_SIZE`, with C's
      remainder, which truncates toward zero and so takes the sign of key. */
  function HashFunction(key: int): (r: int)
    ensures key >= 0 ==> 0 <= r < HASH_SIZE
    ensures key < 0 ==> -HASH_SIZE < r <= 0
    ensures (key - r) % HASH_SIZE == 0
  {
    if key >= 0 then key % HASH_SIZE else -((-key) % HASH_SIZE)
  }

  /** The slot of a pid is the slot of every pid a multiple of HASH_SIZE
      away with the same sign: such pids overwrite each other. */
  lemma HashCollides(pid: int, n: nat)
    requires pid >= 0
    ensures HashFunction(pid + n * HASH_SIZE) == HashFunction(pid)
  {
    assert (pid + n * HASH_SIZE) % HASH_SIZE == pid % HASH_SIZE;
  }

  /** compareInt (pstree/pstree.c:372-382). */
  function CompareInt(a: int, b: int): (r: int)
    ensures r == -1 <==> a < b
    ensures r == 0 <==> a == b
    ensures r == 1 <==> a > b
  {
    if a < b then -1 else if a > b then 1 else 0
  }

  /** compareInt is antisymmetric and transitive: an ordering qsort can use. */
  lemma CompareIntOrder(a: int, b: int, c: int)
    ensures CompareInt(a, b) == -CompareInt(b, a)
    ensures CompareInt(a, b) <= 0 && CompareInt(b, c) <= 0 ==> CompareInt(a, c) <= 0
  {
  }

  /** compareNodes (pstree/pstree.c:59-64): the difference of the pids, an
      int; the subtraction must not overflow. */
  function CompareNodes(a: int, b: int): (r: int)
    requires INT_MIN <= a - b <= INT_MAX
    ensures INT_MIN <= r <= INT_MAX
  {
    a - b
  }

  /** For pids that are not negative the difference never overflows, and
      its sign is the answer compareInt gives. */
  lemma CompareNodesAgrees(a: int, b: int)
    requires 0 <= a <= INT_MAX && 0 <= b <= INT_MAX
    ensures INT_MIN <= a - b <= INT_MAX
    ensures CompareInt(CompareNodes(a, b), 0) == CompareInt(a, b)
  {
  }

  predicate IsDigit(c: char) {
    '0' <= c <= '9'
  }

  /** isNumber (pstree/pstree.c:331-342): walks the string until its end or
      the first non-digit; the empty string is a number. */
  method IsNumber(s: string) returns (b: bool)
    ensures b <==> forall i :: 0 <= i < |s| ==> IsDigit(s[i])
  {
    var i := 0;
    while i < |s|
      invariant 0 <= i <= |s|
      invariant forall j :: 0 <= j < i ==> IsDigit(s[j])
    {
      if !IsDigit(s[i]) {
        return false;
      }
      i := i + 1;
    }
    return true;
  }

  /** hashTable (pstree/pstree.c:13): a global array of HASH_SIZE slots,
      zero-initialised. */
  class ProcTable {
    const slots: array<HashNode>

    constructor ()
      ensures slots.Length == HASH_SIZE && fresh(slots)
      ensures forall i :: 0 <= i < HASH_SIZE ==> slots[i] == HashNode(0, 0)
    {
      slots := new HashNode[HASH_SIZE](_ => HashNode(0, 0));
    }

    /** insertHash (pstree/pstree.c:32-37): writes slot hashFunction(pid),
        overwriting whatever it held; the index must be in the table. */
    method InsertHash(pid: int, ppid: int)
      requires slots.Length == HASH_SIZE && 0 <= HashFunction(pid)
      modifies slots
      ensures slots[..] == old(slots[..])[HashFunction(pid) := HashNode(pid, ppid)]
    {
      var index := HashFunction(pid);
      slots[index] := HashNode(pid, ppid);
    }
  }

  /** A process node (pstree/pstree.h:11-16). `children` holds the first
      child_count entries of the children array. */
  class Node {
    const pid: int
    var children: seq<Node>

    /** createNode (pstree/pstree.c:15-25). */
    constructor (pid: int)
      ensures this.pid == pid && children == []
    {
      this.pid := pid;
      children := [];
    }

    /** addChild (pstree/pstree.c:40-43): the child goes at index
        child_count, which must be inside the array. */
    method AddChild(child: Node)
      requires |children| < MAX_NODES
      modifies this
      ensures children == old(children) + [child]
    {
      children := children + [child];
    }
  }

  // ---------------------------------------------------------------------
  // The node list

  /** The pids the tree build appends to the node list for the slots of t,
      in order: for a used slot, the parent when no node has its pid yet,
      then the child when no node had its pid before the slot. */
  function BuildPids(t: seq<HashNode>): (ps: seq<int>)
  {
    if |t| == 0 then []
    else BuildStep(BuildPids(t[..|t| - 1]), t[|t| - 1])
  }

  /** One slot's creations (pstree/pstree.c:197-211); see BuildStepExtends. */
  function BuildStep(ps: seq<int>, e: HashNode): seq<int> {
    if e.pid == 0 then ps
    else ps + (if e.ppid in ps then [] else [e.ppid]) + (if e.pid in ps then [] else [e.pid])
  }

  /** Both lookups of a slot see the list as it was before the slot, so the
      list is only extended, only by pids it did not hold, and afterwards
      holds both pids of a used slot. */
  lemma BuildStepExtends(ps: seq<int>, e: HashNode)
    ensures |ps| <= |BuildStep(ps, e)| <= |ps| + 2 && BuildStep(ps, e)[..|ps|] == ps
    ensures forall k :: |ps| <= k < |BuildStep(ps, e)| ==> BuildStep(ps, e)[k] !in ps
    ensures forall x :: x in BuildStep(ps, e) <==> x in ps || (e.pid != 0 && (x == e.pid || x == e.ppid))
  {
  }

  /** The build creates at most two nodes per slot. */
  lemma {:induction false} BuildPidsBound(t: seq<HashNode>)
    ensures |BuildPids(t)| <= 2 * |t|
  {
    if |t| > 0 {
      BuildPidsBound(t[..|t| - 1]);
    }
  }

  /** The pids of the node list are the pids and ppids of the used slots. */
  lemma {:induction false} BuildPidsCover(t: seq<HashNode>)
    ensures forall x :: x in BuildPids(t) <==> exists s :: 0 <= s < |t| && t[s].pid != 0 && (x == t[s].pid || x == t[s].ppid)
  {
    if |t| > 0 {
      var u := t[..|t| - 1];
      BuildPidsCover(u);
      forall x | x in BuildPids(t)
        ensures exists s :: 0 <= s < |t| && t[s].pid != 0 && (x == t[s].pid || x == t[s].ppid)
      {
        if x in BuildPids(u) {
          var s :| 0 <= s < |u| && u[s].pid != 0 && (x == u[s].pid || x == u[s].ppid);
          assert t[s] == u[s];
        }
      }
      forall x | exists s :: 0 <= s < |t| && t[s].pid != 0 && (x == t[s].pid || x == t[s].ppid)
        ensures x in BuildPids(t)
      {
        var s :| 0 <= s < |t| && t[s].pid != 0 && (x == t[s].pid || x == t[s].ppid);
        if s < |u| {
          assert u[s] == t[s];
          assert x in BuildPids(u);
        }
      }
    }
  }

  /** No used slot of t names its own process as its parent. */
  ghost predicate NoSelfParent(t: seq<HashNode>) {
    forall s :: 0 <= s < |t| && t[s].pid != 0 ==> t[s].pid != t[s].ppid
  }

  /** x is the pid of a used slot of t. */
  ghost predicate SlotPid(t: seq<HashNode>, x: int) {
    exists s :: 0 <= s < |t| && t[s].pid != 0 && t[s].pid == x
  }

  /** When no used slot is its own parent, the build never creates two
      nodes for the same pid. */
  lemma {:induction false} BuildPidsDistinct(t: seq<HashNode>)
    requires NoSelfParent(t)
    ensures forall i, j :: 0 <= i < j < |BuildPids(t)| ==> BuildPids(t)[i] != BuildPids(t)[j]
  {
    if |t| > 0 {
      BuildPidsDistinct(t[..|t| - 1]);
    }
  }

  /** The parent-child pairs of the used slots of t. */
  ghost function SlotEdges(t: seq<HashNode>): set<(int, int)> {
    set s | 0 <= s < |t| && t[s].pid != 0 :: (t[s].ppid, t[s].pid)
  }

  /** The first `count` entries of the node list are nodes. */
  ghost predicate NodeList(nodes: array<Node?>, count: nat)
    reads nodes
  {
    count <= nodes.Length && forall i :: 0 <= i < count ==> nodes[i] != null
  }

  /** The pids of the first `count` nodes. */
  function Pids(nodes: array<Node?>, count: nat): (ps: seq<int>)
    requires count <= nodes.Length && forall i :: 0 <= i < count ==> nodes[i] != null
    reads nodes
    ensures |ps| == count && forall i :: 0 <= i < count ==> ps[i] == nodes[i].pid
  {
    seq(count, i requires 0 <= i < count reads nodes => if nodes[i] != null then nodes[i].pid else 0)
  }

  /** The (parent pid, child pid) pairs of the tree the first `count` nodes
      form through their children. */
  ghost function Edges(nodes: array<Node?>, count: nat): set<(int, int)>
    requires NodeList(nodes, count)
    reads nodes, set i | 0 <= i < nodes.Length :: nodes[i]
  {
    set j, c | 0 <= j < count && c in nodes[j].children :: (nodes[j].pid, c.pid)
  }

  /** Every child of one of the first `count` nodes is itself one of them. */
  ghost predicate ChildrenListed(nodes: array<Node?>, count: nat)
    requires NodeList(nodes, count)
    reads nodes, set i | 0 <= i < nodes.Length :: nodes[i]
  {
    forall j, c :: 0 <= j < count && c in nodes[j].children ==> exists i :: 0 <= i < count && nodes[i] == c
  }

  /** findNode (pstree/pstree.c:46-56): the first of the first `count`
      nodes with the given pid, or null. */
  method FindNode(nodes: array<Node?>, pid: int, count: nat) returns (r: Node?)
    requires count <= nodes.Length && forall i :: 0 <= i < count ==> nodes[i] != null
    ensures r == null <==> pid !in Pids(nodes, count)
    ensures r != null ==>
      exists i :: 0 <= i < count && nodes[i] == r && r.pid == pid && forall j :: 0 <= j < i ==> nodes[j].pid != pid
  {
    var i := 0;
    while i < count
      invariant 0 <= i <= count
      invariant forall j :: 0 <= j < i ==> nodes[j].pid != pid
    {
      if nodes[i].pid == pid {
        return nodes[i];
      }
      i := i + 1;
    }
    return null;
  }

  /** The tree build of main (pstree/pstree.c:188-214): for every used slot,
      find or create the parent node and the child node and make the child
      a child of the parent. The node list gets the pids BuildPids gives,
      the tree has exactly the parent-child pairs of the used slots, and
      every child is a node of the list. */
  method BuildTree(table: array<HashNode>) returns (nodes: array<Node?>, count: nat)
    requires table.Length == HASH_SIZE
    ensures fresh(nodes) && nodes.Length == NODES_CAPACITY && NodeList(nodes, count)
    ensures Pids(nodes, count) == BuildPids(table[..])
    ensures Edges(nodes, count) == SlotEdges(table[..])
    ensures ChildrenListed(nodes, count)
  {
    nodes := new Node?[NODES_CAPACITY](_ => null);
    count := 0;
    var i := 0;
    while i < HASH_SIZE
      invariant 0 <= i <= HASH_SIZE && count <= 2 * i
      invariant NodeList(nodes, count)
      invariant forall j :: 0 <= j < count ==> fresh(nodes[j])
      invariant forall j :: 0 <= j < count ==> |nodes[j].children| <= i
      invariant Pids(nodes, count) == BuildPids(table[..i])
      invariant Edges(nodes, count) == SlotEdges(table[..i])
      invariant ChildrenListed(nodes, count)
    {
      assert table[..i + 1][..i] == table[..i];
      BuildPidsBound(table[..i + 1]);
      SlotEdgesStep(table[..i + 1]);
      if table[i].pid != 0 {
        count := AddSlot(nodes, count, table[i], i);
      }
      i := i + 1;
    }
    assert table[..] == table[..HASH_SIZE];
  }

  lemma SlotEdgesStep(t: seq<HashNode>)
    requires |t| > 0
    ensures SlotEdges(t) == SlotEdges(t[..|t| - 1]) + (if t[|t| - 1].pid != 0 then {(t[|t| - 1].ppid, t[|t| - 1].pid)} else {})
  {
    var u := t[..|t| - 1];
    forall x | x in SlotEdges(t) ensures x in SlotEdges(u) || x == (t[|t| - 1].ppid, t[|t| - 1].pid) {
      var s :| 0 <= s < |t| && t[s].pid != 0 && x == (t[s].ppid, t[s].pid);
      if s < |u| { assert u[s] == t[s]; }
    }
    forall x | x in SlotEdges(u) ensures x in SlotEdges(t) {
      var s :| 0 <= s < |u| && u[s].pid != 0 && x == (u[s].ppid, u[s].pid);
      assert t[s] == u[s];
    }
  }

  /** One iteration of the build loop (pstree/pstree.c:194-213) for the
      used slot e: both lookups happen before either node is created, then
      the parent and the child are created when missing and the child is
      added to the parent. The tree gains the pair of the slot and nothing
      else. */
  method AddSlot(nodes: array<Node?>, count: nat, e: HashNode, ghost bound: nat) returns (newCount: nat)
    requires NodeList(nodes, count) && count + 2 <= nodes.Length && e.pid != 0
    requires bound < MAX_NODES && forall j :: 0 <= j < count ==> |nodes[j].children| <= bound
    requires ChildrenListed(nodes, count)
    modifies nodes, set j | 0 <= j < count :: nodes[j]
    ensures NodeList(nodes, newCount) && count <= newCount <= count + 2
    ensures forall j :: 0 <= j < count ==> nodes[j] == old(nodes[j])
    ensures forall j :: count <= j < newCount ==> fresh(nodes[j])
    ensures forall j :: 0 <= j < newCount ==> |nodes[j].children| <= bound + 1
    ensures Pids(nodes, newCount) == BuildStep(old(Pids(nodes, count)), e)
    ensures Edges(nodes, newCount) == old(Edges(nodes, count)) + {(e.ppid, e.pid)}
    ensures ChildrenListed(nodes, newCount)
  {
    ghost var before := Edges(nodes, count);
    var parent := FindNode(nodes, e.ppid, count);
    var child := FindNode(nodes, e.pid, count);
    var jp, kc;
    jp, kc, newCount := PlaceBoth(nodes, count, e, parent, child, bound);
    ghost var placed := Edges(nodes, newCount);
    assert placed == before;
    Link(nodes, newCount, jp, kc, bound);
    assert Edges(nodes, newCount) == before + {(e.ppid, e.pid)};
  }

  /** Both creation steps of one iteration, the lookups given: the node
      list grows by the pids BuildStep adds, and the tree is unchanged. */
  method PlaceBoth(nodes: array<Node?>, count: nat, e: HashNode, parent: Node?, child: Node?, ghost bound: nat)
      returns (jp: nat, kc: nat, newCount: nat)
    requires NodeList(nodes, count) && count + 2 <= nodes.Length && e.pid != 0
    requires forall j :: 0 <= j < count ==> |nodes[j].children| <= bound
    requires parent == null <==> e.ppid !in Pids(nodes, count)
    requires parent != null ==> exists j :: 0 <= j < count && nodes[j] == parent && parent.pid == e.ppid
    requires child == null <==> e.pid !in Pids(nodes, count)
    requires child != null ==> exists j :: 0 <= j < count && nodes[j] == child && child.pid == e.pid
    requires ChildrenListed(nodes, count)
    modifies nodes
    ensures NodeList(nodes, newCount) && count <= newCount <= count + 2 && jp < newCount && kc < newCount
    ensures nodes[jp].pid == e.ppid && nodes[kc].pid == e.pid
    ensures forall j :: 0 <= j < count ==> nodes[j] == old(nodes[j])
    ensures forall j :: count <= j < newCount ==> fresh(nodes[j])
    ensures forall j :: 0 <= j < newCount ==> |nodes[j].children| <= bound
    ensures Pids(nodes, newCount) == BuildStep(old(Pids(nodes, count)), e)
    ensures Edges(nodes, newCount) == old(Edges(nodes, count))
    ensures ChildrenListed(nodes, newCount)
  {
    ghost var n0, ps0 := nodes[..], Pids(nodes, count);
    var count1;
    jp, count1 := Place(nodes, count, e.ppid, parent);
    ghost var n1, ps1 := nodes[..], Pids(nodes, count1);
    kc, newCount := Place(nodes, count1, e.pid, child);
    assert forall j :: 0 <= j < count1 ==> nodes[j] == n1[j];
    assert forall j :: 0 <= j < count ==> n1[j] == n0[j];
    assert forall j :: count <= j < newCount ==> fresh(nodes[j]) by {
      if count < count1 { assert nodes[count] == n1[count]; }
    }
    assert Pids(nodes, newCount) == BuildStep(ps0, e) by {
      assert ps1 == ps0 + (if e.ppid in ps0 then [] else [e.ppid]);
    }
    assert forall j :: count <= j < newCount ==> nodes[j].children == [];
  }

  /** The `if (!parent)` and `if (!child)` steps: a node the lookup found
      is kept, a missing one is created and appended; the tree is
      unchanged, since the new node has no children. */
  method Place(nodes: array<Node?>, count: nat, pid: int, found: Node?) returns (idx: nat, newCount: nat)
    requires NodeList(nodes, count) && count < nodes.Length
    requires found != null ==> exists j :: 0 <= j < count && nodes[j] == found && found.pid == pid
    requires ChildrenListed(nodes, count)
    modifies nodes
    ensures NodeList(nodes, newCount) && idx < newCount && nodes[idx].pid == pid
    ensures forall j :: 0 <= j < count ==> nodes[j] == old(nodes[j])
    ensures found != null ==> newCount == count && nodes[idx] == found
    ensures found == null ==> newCount == count + 1 && idx == count && fresh(nodes[idx]) && nodes[idx].children == []
    ensures Pids(nodes, newCount) == old(Pids(nodes, count)) + (if found == null then [pid] else [])
    ensures Edges(nodes, newCount) == old(Edges(nodes, count))
    ensures ChildrenListed(nodes, newCount)
  {
    if found == null {
      var node := new Node(pid);
      nodes[count] := node;
      idx, newCount := count, count + 1;
      assert Pids(nodes, newCount) == old(Pids(nodes, count)) + [pid];
    } else {
      idx :| 0 <= idx < count && nodes[idx] == found;
      newCount := count;
    }
  }

  /** addChild(parent, child) for the entries jp and kc: the tree gains
      that one pair. */
  method Link(nodes: array<Node?>, count: nat, jp: nat, kc: nat, ghost bound: nat)
    requires NodeList(nodes, count) && jp < count && kc < count
    requires bound < MAX_NODES && forall j :: 0 <= j < count ==> |nodes[j].children| <= bound
    requires ChildrenListed(nodes, count)
    modifies nodes[jp]
    ensures nodes[jp].children == old(nodes[jp].children) + [nodes[kc]]
    ensures forall j :: 0 <= j < count ==> |nodes[j].children| <= bound + 1
    ensures Edges(nodes, count) == old(Edges(nodes, count)) + {(nodes[jp].pid, nodes[kc].pid)}
    ensures ChildrenListed(nodes, count)
  {
    nodes[jp].AddChild(nodes[kc]);
  }

  // ---------------------------------------------------------------------
  // The root

  /** Entry i of the node list is a child of some node of the list. */
  ghost predicate IsChild(nodes: array<Node?>, count: nat, i: nat)
    requires NodeList(nodes, count) && i < count
    reads nodes, set j | 0 <= j < nodes.Length :: nodes[j]
  {
    exists j, k :: 0 <= j < count && 0 <= k < |nodes[j].children| && nodes[j].children[k] == nodes[i]
  }

  /** The root search of main (pstree/pstree.c:216-238): the first node of
      the list that is no node's child, or null when every node is one. */
  method FindRoot(nodes: array<Node?>, count: nat) returns (root: Node?)
    requires NodeList(nodes, count)
    ensures root == null <==> forall i :: 0 <= i < count ==> IsChild(nodes, count, i)
    ensures root != null ==>
      exists i :: 0 <= i < count && root == nodes[i] && !IsChild(nodes, count, i) &&
        forall i' :: 0 <= i' < i ==> IsChild(nodes, count, i')
  {
    root := null;
    var i := 0;
    while i < count
      invariant 0 <= i <= count
      invariant forall i' :: 0 <= i' < i ==> IsChild(nodes, count, i')
    {
      var isRoot := true;
      var j := 0;
      while j < count
        invariant 0 <= j <= count
        invariant isRoot <==> forall j', k :: 0 <= j' < j && 0 <= k < |nodes[j'].children| ==> nodes[j'].children[k] != nodes[i]
      {
        var k := 0;
        while k < |nodes[j].children|
          invariant 0 <= k <= |nodes[j].children|
          invariant forall k' :: 0 <= k' < k ==> nodes[j].children[k'] != nodes[i]
        {
          if nodes[j].children[k] == nodes[i] {
            isRoot := false;
            break;
          }
          k := k + 1;
        }
        if !isRoot {
          break;
        }
        j := j + 1;
      }
      if isRoot {
        assert j == count;
        root := nodes[i];
        assert !IsChild(nodes, count, i);
        break;
      }
      assert IsChild(nodes, count, i);
      i := i + 1;
    }
  }

  /** After the build, a node whose pid is the pid of no used slot, such as
      the parent of init, is no node's child: FindRoot then finds a root. */
  lemma NoSlotNoParent(nodes: array<Node?>, count: nat, t: seq<HashNode>, i: nat)
    requires NodeList(nodes, count) && i < count && Edges(nodes, count) == SlotEdges(t)
    requires !SlotPid(t, nodes[i].pid)
    ensures !IsChild(nodes, count, i)
  {
    forall j, k | 0 <= j < count && 0 <= k < |nodes[j].children|
      ensures nodes[j].children[k] != nodes[i]
    {
      assert (nodes[j].pid, nodes[j].children[k].pid) in Edges(nodes, count);
    }
  }

  /** After the build from a table where no used slot is its own parent, a
      node whose pid is the pid of a used slot is a child: the slot's pair
      is a link, its child is a node of the list, and no other node has
      that pid. */
  lemma SlotIsChild(nodes: array<Node?>, count: nat, t: seq<HashNode>, i: nat)
    requires NodeList(nodes, count) && i < count && ChildrenListed(nodes, count)
    requires Pids(nodes, count) == BuildPids(t) && Edges(nodes, count) == SlotEdges(t)
    requires NoSelfParent(t) && SlotPid(t, nodes[i].pid)
    ensures IsChild(nodes, count, i)
  {
    var j, c := SlotLink(nodes, count, t, nodes[i].pid);
    var i' :| 0 <= i' < count && nodes[i'] == c;
    SamePidSameNode(nodes, count, t, i, i');
    var k :| 0 <= k < |nodes[j].children| && nodes[j].children[k] == c;
  }

  /** The pair of the used slot with pid x is a link to a child with pid x. */
  lemma SlotLink(nodes: array<Node?>, count: nat, t: seq<HashNode>, x: int) returns (j: nat, c: Node)
    requires NodeList(nodes, count) && Edges(nodes, count) == SlotEdges(t) && SlotPid(t, x)
    ensures j < count && c in nodes[j].children && c.pid == x
  {
    var s :| 0 <= s < |t| && t[s].pid != 0 && t[s].pid == x;
    assert (t[s].ppid, t[s].pid) in Edges(nodes, count);
    j, c :| 0 <= j < count && c in nodes[j].children && (nodes[j].pid, c.pid) == (t[s].ppid, t[s].pid);
  }

  /** Two nodes of the list built from such a table with the same pid are
      the same entry. */
  lemma SamePidSameNode(nodes: array<Node?>, count: nat, t: seq<HashNode>, i: nat, i': nat)
    requires NodeList(nodes, count) && i < count && i' < count
    requires Pids(nodes, count) == BuildPids(t) && NoSelfParent(t) && nodes[i].pid == nodes[i'].pid
    ensures i == i'
  {
    BuildPidsDistinct(t);
    assert Pids(nodes, count)[i'] == Pids(nodes, count)[i];
  }

  /** The tree build followed by the root search (pstree/pstree.c:188-238).
      A null root means every node has the pid of a used slot. When no used
      slot is its own parent the root is determined: it is the first node
      whose pid is the pid of no used slot, and null when there is none. */
  method BuildAndFindRoot(table: array<HashNode>) returns (nodes: array<Node?>, count: nat, root: Node?)
    requires table.Length == HASH_SIZE
    ensures fresh(nodes) && nodes.Length == NODES_CAPACITY && NodeList(nodes, count)
    ensures Pids(nodes, count) == BuildPids(table[..])
    ensures Edges(nodes, count) == SlotEdges(table[..])
    ensures root == null ==> forall i :: 0 <= i < count ==> SlotPid(table[..], nodes[i].pid)
    ensures NoSelfParent(table[..]) ==>
      (root == null <==> forall i :: 0 <= i < count ==> SlotPid(table[..], nodes[i].pid))
    ensures NoSelfParent(table[..]) && root != null ==>
      exists i :: 0 <= i < count && root == nodes[i] && !SlotPid(table[..], nodes[i].pid) &&
        forall i' :: 0 <= i' < i ==> SlotPid(table[..], nodes[i'].pid)
  {
    nodes, count := BuildTree(table);
    root := FindRoot(nodes, count);
    forall i | 0 <= i < count && !SlotPid(table[..], nodes[i].pid)
      ensures !IsChild(nodes, count, i)
    {
      NoSlotNoParent(nodes, count, table[..], i);
    }
    if NoSelfParent(table[..]) {
      forall i | 0 <= i < count && SlotPid(table[..], nodes[i].pid)
        ensures IsChild(nodes, count, i)
      {
        SlotIsChild(nodes, count, table[..], i);
      }
    }
  }

  // ---------------------------------------------------------------------
  // The size of the node list

  /** A table the build loop can meet: slot 0 is empty and slot s holds
      process s whose parent is process 1000 + s, whose own entry process
      s overwrote (both hash to slot s); InsertEvictedParents produces it. */
  function EvictedParents(): seq<HashNode> {
    seq(HASH_SIZE, s => if s == 0 then HashNode(0, 0) else HashNode(s, HASH_SIZE + s))
  }

  /** The inserts of the /proc walk (pstree/pstree.c:358-365) that give
      EvictedParents on a fresh table: for s from 1 to 999, process
      HASH_SIZE + s, whose parent is g, then process s, whose parent is
      HASH_SIZE + s. The second insert lands in the same slot and
      overwrites the first, so the parents' own entries are lost. */
  method InsertEvictedParents(table: ProcTable, g: int)
    requires table.slots.Length == HASH_SIZE
    requires forall i :: 0 <= i < HASH_SIZE ==> table.slots[i] == HashNode(0, 0)
    modifies table.slots
    ensures table.slots[..] == EvictedParents()
  {
    var s := 1;
    while s < HASH_SIZE
      invariant 1 <= s <= HASH_SIZE
      invariant forall i :: 0 <= i < HASH_SIZE ==>
        table.slots[i] == if 0 < i < s then HashNode(i, HASH_SIZE + i) else HashNode(0, 0)
    {
      HashCollides(s, 1);
      table.InsertHash(HASH_SIZE + s, g);
      table.InsertHash(s, HASH_SIZE + s);
      s := s + 1;
    }
  }

  /** Every used slot of EvictedParents creates two nodes, so the first n
      slots create 2 * (n - 1). */
  lemma {:induction false} EvictedParentsCount(n: nat)
    requires 1 <= n <= HASH_SIZE
    ensures |BuildPids(EvictedParents()[..n])| == 2 * (n - 1)
  {
    var t := EvictedParents();
    if n > 1 {
      EvictedParentsCount(n - 1);
      var u := t[..n - 1];
      assert t[..n][..n - 1] == u;
      var ps, e := BuildPids(u), t[n - 1];
      assert e == HashNode(n - 1, HASH_SIZE + n - 1);
      EvictedFresh(u, n - 1);
      assert BuildPids(t[..n]) == BuildStep(ps, e) == ps + [e.ppid] + [e.pid];
    }
  }

  /** Before slot m of EvictedParents, neither process m nor its parent has
      a node. */
  lemma EvictedFresh(u: seq<HashNode>, m: nat)
    requires m < HASH_SIZE && u == EvictedParents()[..m]
    ensures m !in BuildPids(u) && HASH_SIZE + m !in BuildPids(u)
  {
    BuildPidsCover(u);
    forall x | x in BuildPids(u) ensures x != m && x != HASH_SIZE + m {
      var s :| 0 <= s < |u| && u[s].pid != 0 && (x == u[s].pid || x == u[s].ppid);
      assert u[s] == HashNode(s, HASH_SIZE + s);
    }
  }

  /** The node list of the source has MAX_NODES entries and node_count is
      never checked: for EvictedParents the build creates 1998 nodes and
      writes past the end of the array. */
  lemma NodesOverflow()
    ensures |BuildPids(EvictedParents())| == 2 * HASH_SIZE - 2 > MAX_NODES
    ensures |BuildPids(EvictedParents())| <= NODES_CAPACITY
  {
    EvictedParentsCount(HASH_SIZE);
    assert EvictedParents()[..HASH_SIZE] == EvictedParents();
  }
}
