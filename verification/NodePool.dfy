/**
 The node pool of mm/kernel_tree.h: a fixed array of tree nodes whose free nodes are threaded into a list through
 their `left` fields.
 */
module NodePool {
  const INVALID := 0xFFFF

  datatype Node = Node(data: int, hash: int, left: nat, right: nat, parent: nat, height: nat, flags: nat)

  datatype State = State(nodes: seq<Node>, freeList: nat, nodeCount: int)

  datatype Outcome = Success(idx: nat) | Full | LockFailed

  /** Following `left` from head passes the nodes of the chain and ends at INVALID. */
  ghost predicate Linked(nodes: seq<Node>, head: nat, chain: seq<nat>)
    decreases |chain|
  {
    if chain == [] then head == INVALID
    else head == chain[0] && head < |nodes| && head != INVALID && Linked(nodes, nodes[head].left, chain[1..])
  }

  ghost predicate Distinct(chain: seq<nat>) {
    forall i, j :: 0 <= i < j < |chain| ==> chain[i] != chain[j]
  }

  /** The free list visits each node that is not held once and no other, and node_count counts the nodes held. */
  ghost predicate Inv(s: State, held: set<nat>, chain: seq<nat>) {
    && 0 < |s.nodes| <= INVALID && Linked(s.nodes, s.freeList, chain) && Distinct(chain)
    && (forall i: nat :: i < |s.nodes| ==> (i in chain <==> i !in held))
    && (forall i :: i in held ==> i < |s.nodes|)
    && s.nodeCount == |held| && |held| + |chain| == |s.nodes|
  }

  /** There is at most one chain from a head. */
  lemma {:induction false} LinkedUnique(nodes: seq<Node>, head: nat, c: seq<nat>, d: seq<nat>)
    requires Linked(nodes, head, c) && Linked(nodes, head, d)
    ensures c == d
    decreases |c|
  {
    if c != [] {
      LinkedUnique(nodes, nodes[head].left, c[1..], d[1..]);
      assert c == [c[0]] + c[1..] && d == [d[0]] + d[1..];
    }
  }

  lemma {:induction false} LinkedIn(nodes: seq<Node>, head: nat, c: seq<nat>)
    requires Linked(nodes, head, c)
    ensures forall i :: 0 <= i < |c| ==> c[i] < |nodes|
    decreases |c|
  {
    if c != [] {
      LinkedIn(nodes, nodes[head].left, c[1..]);
      assert forall i :: 0 < i < |c| ==> c[i] == c[1..][i - 1];
    }
  }

  /** Writes to nodes off the chain do not touch it. */
  lemma {:induction false} LinkedFrame(nodes: seq<Node>, nodes': seq<Node>, head: nat, c: seq<nat>)
    requires Linked(nodes, head, c) && |nodes| == |nodes'|
    requires forall i :: 0 <= i < |c| && c[i] < |nodes| ==> nodes'[c[i]].left == nodes[c[i]].left
    ensures Linked(nodes', head, c)
    decreases |c|
  {
    if c != [] {
      forall i | 0 <= i < |c[1..]| && c[1..][i] < |nodes| ensures nodes'[c[1..][i]].left == nodes[c[1..][i]].left {
        assert c[1..][i] == c[i + 1];
      }
      LinkedFrame(nodes, nodes', nodes[head].left, c[1..]);
    }
  }

  /** What a successful allocation does to the node it hands out. */
  function Prepared(node: Node): Node {
    node.(left := INVALID, right := INVALID, parent := INVALID, height := 1, flags := 0)
  }

  function Allocate(s: State): State
    requires s.freeList < |s.nodes|
  {
    var idx := s.freeList;
    State(s.nodes[idx := Prepared(s.nodes[idx])], s.nodes[idx].left, s.nodeCount + 1)
  }

  function Release(s: State, idx: nat): State
    requires idx < |s.nodes|
  {
    State(s.nodes[idx := s.nodes[idx].(left := s.freeList, right := INVALID, parent := INVALID, flags := 0)], idx, s.nodeCount - 1)
  }

  lemma AllocateInv(s: State, held: set<nat>, chain: seq<nat>)
    requires Inv(s, held, chain) && s.freeList != INVALID
    ensures s.freeList < |s.nodes| && s.freeList !in held && Inv(Allocate(s), held + {s.freeList}, chain[1..])
  {
    var idx, s' := s.freeList, Allocate(s);
    assert chain == [idx] + chain[1..];
    LinkedIn(s.nodes, s.freeList, chain);
    assert idx !in chain[1..];
    LinkedFrame(s.nodes, s'.nodes, s'.freeList, chain[1..]);
  }

  /** The list is empty exactly when every node is held. */
  lemma EmptyIffHeld(s: State, held: set<nat>, chain: seq<nat>)
    requires Inv(s, held, chain)
    ensures s.freeList == INVALID <==> |held| == |s.nodes|
    ensures |held| == |s.nodes| <==> forall i: nat :: i < |s.nodes| ==> i in held
  {
    if chain != [] {
      assert chain[0] in chain;
    }
  }

  lemma ReleaseInv(s: State, held: set<nat>, chain: seq<nat>, idx: nat)
    requires Inv(s, held, chain) && idx in held
    ensures Inv(Release(s, idx), held - {idx}, [idx] + chain)
  {
    var s' := Release(s, idx);
    LinkedIn(s.nodes, s.freeList, chain);
    LinkedFrame(s.nodes, s'.nodes, s.freeList, chain);
    assert ([idx] + chain)[1..] == chain;
  }

  /** Writing a node that is held, or leaving its link as it is, does not touch the free list. */
  lemma WriteInv(s: State, held: set<nat>, chain: seq<nat>, idx: nat, node: Node)
    requires Inv(s, held, chain) && idx < |s.nodes| && (idx in held || node.left == s.nodes[idx].left)
    ensures Inv(s.(nodes := s.nodes[idx := node]), held, chain)
  {
    LinkedFrame(s.nodes, s.nodes[idx := node], s.freeList, chain);
  }

  /** A walk along the first k nodes of a chain, in an array that agrees with it on them, arrives at its node k. */
  lemma {:induction false} Skip(nodes: seq<Node>, nodes': seq<Node>, head: nat, c: seq<nat>, k: nat, d: seq<nat>)
    requires Linked(nodes, head, c) && k < |c| && |nodes| == |nodes'| && Linked(nodes', head, d)
    requires forall i :: 0 <= i < k && c[i] < |nodes| ==> nodes'[c[i]].left == nodes[c[i]].left
    ensures k < |d| && Linked(nodes', c[k], d[k..])
    decreases k
  {
    if k > 0 {
      assert forall i :: 0 <= i < k - 1 ==> c[1..][i] == c[i + 1];
      Skip(nodes, nodes', nodes[head].left, c[1..], k - 1, d[1..]);
      assert d[1..][k - 1..] == d[k..];
    }
  }

  /** Freeing keeps the pool sound exactly when the node is held: freeing a free node closes the list into a ring. */
  lemma ReleaseIff(s: State, held: set<nat>, chain: seq<nat>, idx: nat)
    requires Inv(s, held, chain) && idx < |s.nodes|
    ensures idx in held <==> exists held', chain' :: Inv(Release(s, idx), held', chain')
  {
    var s' := Release(s, idx);
    if idx in held {
      ReleaseInv(s, held, chain, idx);
    } else if held', chain' :| Inv(s', held', chain') {
      var k :| 0 <= k < |chain| && chain[k] == idx;
      LinkedIn(s.nodes, s.freeList, chain);
      Skip(s.nodes, s'.nodes, s.freeList, chain, k, chain'[1..]);
      LinkedUnique(s'.nodes, idx, chain', chain'[1..][k..]);
      assert false;
    }
  }

  /** 0, 1, ..., n - 1. */
  function UpTo(from: nat, n: nat): (r: seq<nat>)
    requires from <= n
    ensures |r| == n - from && forall i :: 0 <= i < |r| ==> r[i] == from + i
    decreases n - from
  {
    if from == n then [] else [from] + UpTo(from + 1, n)
  }

  lemma {:induction false} UpToLinked(nodes: seq<Node>, from: nat)
    requires from < |nodes| <= INVALID
    requires forall i :: 0 <= i < |nodes| ==> nodes[i].left == if i + 1 < |nodes| then i + 1 else INVALID
    ensures Linked(nodes, from, UpTo(from, |nodes|))
    decreases |nodes| - from
  {
    assert UpTo(from, |nodes|)[1..] == UpTo(from + 1, |nodes|);
    if from + 1 < |nodes| {
      UpToLinked(nodes, from + 1);
    }
  }

  /** A freshly threaded pool. */
  lemma ThreadedInv(s: State)
    requires 0 < |s.nodes| <= INVALID && s.freeList == 0 && s.nodeCount == 0
    requires forall i :: 0 <= i < |s.nodes| ==> s.nodes[i].left == if i + 1 < |s.nodes| then i + 1 else INVALID
    ensures Inv(s, {}, UpTo(0, |s.nodes|))
  {
    UpToLinked(s.nodes, 0);
    forall i: nat | i < |s.nodes| ensures i in UpTo(0, |s.nodes|) {
      assert UpTo(0, |s.nodes|)[i] == i;
    }
  }

  class Pool {
    const nodes: array<Node>
    var freeList: nat
    var nodeCount: int
    ghost var held: set<nat>
    ghost var chain: seq<nat>

    ghost function View(): State
      reads this, nodes
    {
      State(nodes[..], freeList, nodeCount)
    }

    ghost predicate Valid()
      reads this, nodes
    {
      Inv(View(), held, chain)
    }

    /** Threads all nodes into the free list, in order. */
    constructor (size: nat)
      requires 0 < size <= INVALID
      ensures Valid() && held == {} && chain == UpTo(0, size) && nodes.Length == size && fresh(nodes)
      ensures forall i :: 0 <= i < size ==>
                nodes[i].right == nodes[i].parent == INVALID && nodes[i].height == nodes[i].flags == 0
    {
      hide UpTo, Linked, Distinct;
      nodes := new Node[size];
      freeList, nodeCount := 0, 0;
      held, chain := {}, UpTo(0, size);
      new;
      for i := 0 to size - 1
        invariant freeList == nodeCount == 0 && held == {} && chain == UpTo(0, size)
        invariant forall j :: 0 <= j < i ==>
                    nodes[j] == Node(nodes[j].data, nodes[j].hash, j + 1, INVALID, INVALID, 0, 0)
      {
        nodes[i] := Node(nodes[i].data, nodes[i].hash, i + 1, INVALID, INVALID, 0, 0);
      }
      nodes[size - 1] := Node(nodes[size - 1].data, nodes[size - 1].hash, INVALID, INVALID, INVALID, 0, 0);
      ThreadedInv(View());
    }

    /** Hands out the first free node; fails if the pool lock cannot be taken, or if every node is held. */
    method AllocNode(locked: bool) returns (r: Outcome)
      requires Valid()
      modifies this, nodes
      ensures Valid()
      ensures r.LockFailed? <==> !locked
      ensures r.Full? <==> locked && |old(held)| == nodes.Length
      ensures !r.Success? ==> View() == old(View()) && held == old(held)
      ensures r.Success? ==>
                && r.idx == old(freeList) < nodes.Length && r.idx !in old(held) && held == old(held) + {r.idx}
                && View() == Allocate(old(View()))
    {
      if !locked {
        return LockFailed;
      }
      ghost var s := View();
      EmptyIffHeld(s, held, chain);
      if freeList == INVALID {
        return Full;
      }
      AllocateInv(s, held, chain);
      var idx := freeList;
      freeList := nodes[idx].left;
      nodes[idx] := nodes[idx].(left := INVALID, right := INVALID, parent := INVALID, height := 1, flags := 0);
      nodeCount := nodeCount + 1;
      held, chain := held + {idx}, chain[1..];
      assert View() == Allocate(s);
      return Success(idx);
    }

    /** Stores data in a node, held or not. */
    method InitNode(idx: nat, data: int)
      requires Valid() && idx < nodes.Length
      modifies nodes
      ensures Valid()
      ensures nodes[..] == old(nodes[..])[idx := old(nodes[idx]).(data := data, hash := data % 0x1_0000_0000)]
    {
      ghost var s := View();
      WriteInv(s, held, chain, idx, nodes[idx].(data := data, hash := data % 0x1_0000_0000));
      nodes[idx] := nodes[idx].(data := data, hash := data % 0x1_0000_0000);
      assert nodes[..] == s.nodes[idx := nodes[idx]];
    }

    /** Puts a node back at the front of the free list, with nothing in between; INVALID is ignored. The pool stays sound
        exactly when the node was held. */
    method FreeNode(idx: nat)
      requires Valid() && (idx == INVALID || idx < nodes.Length)
      modifies this, nodes
      ensures idx == INVALID ==> View() == old(View()) && held == old(held) && Valid()
      ensures idx != INVALID ==> View() == Release(old(View()), idx)
      ensures idx != INVALID ==> (idx in old(held) <==> exists held', chain' :: Inv(View(), held', chain'))
      ensures idx in old(held) ==> Valid() && held == old(held) - {idx} && chain == [idx] + old(chain)
    {
      if idx == INVALID {
        return;
      }
      ghost var s := View();
      ReleaseIff(s, held, chain, idx);
      if idx in held {
        ReleaseInv(s, held, chain, idx);
      }
      nodes[idx] := nodes[idx].(left := freeList, right := INVALID, parent := INVALID, flags := 0);
      freeList := idx;
      nodeCount := nodeCount - 1;
      if idx in held {
        held, chain := held - {idx}, [idx] + chain;
      }
      assert View() == Release(s, idx);
      hide Linked, Distinct;
    }
  }

  // ---------- Operations in parts ----------

  /** A node of the chain starts a chain of its own. */
  lemma {:induction false} LinkedSuffix(nodes: seq<Node>, head: nat, c: seq<nat>, j: nat)
    requires Linked(nodes, head, c) && j < |c|
    ensures Linked(nodes, c[j], c[j..])
    decreases j
  {
    if j > 0 {
      LinkedSuffix(nodes, nodes[head].left, c[1..], j - 1);
      assert c[1..][j - 1..] == c[j..];
    } else {
      assert c[0..] == c;
    }
  }

  /** The first part of a free: the node is linked to the head of the list. */
  function Link(s: State, idx: nat): State
    requires idx < |s.nodes|
  {
    s.(nodes := s.nodes[idx := s.nodes[idx].(left := s.freeList, right := INVALID, parent := INVALID, flags := 0)])
  }

  /** The second part: the node becomes the head. */
  function Publish(s: State, idx: nat): State {
    s.(freeList := idx, nodeCount := s.nodeCount - 1)
  }

  /** The second part of an allocation that has read the head h and its link: h is handed out, and the link is the head. */
  function Take(s: State, h: nat, link: nat): State
    requires h < |s.nodes|
  {
    State(s.nodes[h := Prepared(s.nodes[h])], link, s.nodeCount + 1)
  }

  /** With nothing in between, the parts are the whole operations. */
  lemma PartsAreWhole(s: State, idx: nat)
    requires idx < |s.nodes|
    ensures Publish(Link(s, idx), idx) == Release(s, idx)
    ensures s.freeList < |s.nodes| ==> Take(s, s.freeList, s.nodes[s.freeList].left) == Allocate(s)
  {}

  /** A chain of nodes not held, as long as the free list, is the free list. */
  lemma SameChain(s: State, held: set<nat>, chain: seq<nat>, head: nat, c: seq<nat>)
    requires Inv(s, held, chain) && Linked(s.nodes, head, c) && |c| == |chain|
    requires forall i: nat :: i < |s.nodes| && i in c ==> i !in held
    ensures c == chain && head == s.freeList
  {
    if c != [] {
      assert head in c;
      var j :| 0 <= j < |chain| && chain[j] == head;
      LinkedSuffix(s.nodes, s.freeList, chain, j);
      LinkedUnique(s.nodes, head, c, chain[j..]);
    }
  }

  /** A linked node that becomes the head leaves the pool sound if and only if the head is still the one it was linked to. */
  lemma PublishIff(s: State, held: set<nat>, chain: seq<nat>, idx: nat)
    requires Inv(s, held, chain) && idx in held
    ensures s.nodes[idx].left == s.freeList <==> exists chain' :: Inv(Publish(s, idx), held - {idx}, chain')
  {
    var s' := Publish(s, idx);
    if s.nodes[idx].left == s.freeList {
      LinkedIn(s.nodes, s.freeList, chain);
      assert ([idx] + chain)[1..] == chain;
      assert Inv(s', held - {idx}, [idx] + chain);
    } else if chain' :| Inv(s', held - {idx}, chain') {
      var rest := chain'[1..];
      assert chain' == [idx] + rest;
      forall i: nat | i < |s.nodes| && i in rest ensures i !in held {
        assert i in chain' && i != idx;
      }
      SameChain(s, held, chain, s.nodes[idx].left, rest);
    }
  }

  /** An allocation that takes a node it has read leaves the pool sound if and only if that is still the head, and its link
      still the one it read. */
  lemma TakeIff(s: State, held: set<nat>, chain: seq<nat>, h: nat, link: nat)
    requires Inv(s, held, chain) && h < |s.nodes|
    ensures h == s.freeList && link == s.nodes[h].left <==> exists chain' :: Inv(Take(s, h, link), held + {h}, chain')
  {
    var s' := Take(s, h, link);
    if h == s.freeList && link == s.nodes[h].left {
      AllocateInv(s, held, chain);
      assert Inv(s', held + {h}, chain[1..]);
    } else if chain' :| Inv(s', held + {h}, chain') {
      TakeFresh(s, held, chain, h, link, chain');
    }
  }

  lemma TakeFresh(s: State, held: set<nat>, chain: seq<nat>, h: nat, link: nat, chain': seq<nat>)
    requires Inv(s, held, chain) && h < |s.nodes| && Inv(Take(s, h, link), held + {h}, chain')
    ensures h == s.freeList && link == s.nodes[h].left
  {
    var s' := Take(s, h, link);
    assert |held + {h}| == |held| + 1 && h !in held;
    LinkedIn(s'.nodes, link, chain');
    assert h !in chain';
    LinkedFrame(s'.nodes, s.nodes, link, chain');
    var k :| 0 <= k < |chain| && chain[k] == h;
    if chain' == [] {
      assert chain == [h] && chain[1..] == [];
      assert Linked(s.nodes, s.nodes[h].left, chain[1..]);
    } else {
      assert link in chain';
      var j :| 0 <= j < |chain| && chain[j] == link;
      LinkedSuffix(s.nodes, s.freeList, chain, j);
      LinkedUnique(s.nodes, link, chain', chain[j..]);
      assert j == 1 && chain[1..][0] == link;
      assert forall i :: 1 <= i < |chain| ==> chain[i] == chain'[i - 1];
      assert k == 0;
      assert Linked(s.nodes, s.nodes[h].left, chain[1..]);
    }
  }

  lemma SecondIn(nodes: seq<Node>, idx: nat, h: nat, chain: seq<nat>)
    requires Linked(nodes, idx, chain) && idx < |nodes| <= INVALID && nodes[idx].left == h && h != INVALID
    ensures h in chain
  {
    assert chain == [idx] + chain[1..];
    assert chain[1..][0] == h;
  }

  /** A free whose lock could not be taken, with an allocation between its parts: the node handed out is on the list again,
      and is handed out a second time while held. */
  lemma RacedBreaks(s: State, held: set<nat>, chain: seq<nat>, idx: nat)
    requires Inv(s, held, chain) && idx in held && s.freeList != INVALID
    ensures s.freeList < |s.nodes| && s.freeList != idx
    ensures var s' := Publish(Allocate(Link(s, idx)), idx);
            && s'.freeList == idx && Allocate(s').freeList == s.freeList
            && forall chain' :: !Inv(s', held - {idx} + {s.freeList}, chain')
  {
    AllocateInv(s, held, chain);
    var s', h := Publish(Allocate(Link(s, idx)), idx), s.freeList;
    forall chain' ensures !Inv(s', held - {idx} + {h}, chain') {
      if Linked(s'.nodes, idx, chain') {
        SecondIn(s'.nodes, idx, h, chain');
      }
    }
  }

  // ---------- Runs ----------

  /** What a thread is doing: nothing; allocating, having read the head and its link; or freeing a node it has linked. */
  datatype Thread = Idle | Taking(h: nat, link: nat) | Linking(idx: nat)

  /** The pool, the nodes held, whether the lock is taken, and the threads. */
  datatype World = World(state: State, held: set<nat>, lock: bool, threads: seq<Thread>)

  datatype Step =
    | AllocFails(t: nat)
    | AllocFull(t: nat)
    | AllocBegin(t: nat)
    | AllocEnd(t: nat)
    | FreeBegin(t: nat, idx: nat, locked: bool)
    | FreeEnd(t: nat)
    | Write(node: nat, value: Node)

  ghost predicate Freeing(w: World, idx: nat) {
    exists t :: 0 <= t < |w.threads| && w.threads[t] == Linking(idx)
  }

  /** One step. An allocation goes on only with the lock, but a free goes on without it, and gives the lock up at its end
      whether it took it or not. Clients free and write only nodes they hold, but write what they like into them. */
  ghost predicate Next(w: World, step: Step, w': World) {
    match step
    case AllocFails(t) => t < |w.threads| && w.threads[t] == Idle && w' == w
    case AllocFull(t) =>
      t < |w.threads| && w.threads[t] == Idle && !w.lock && w.state.freeList == INVALID && w' == w
    case AllocBegin(t) =>
      && t < |w.threads| && w.threads[t] == Idle && !w.lock
      && w.state.freeList != INVALID && w.state.freeList < |w.state.nodes|
      && w' == w.(lock := true, threads := w.threads[t := Taking(w.state.freeList, w.state.nodes[w.state.freeList].left)])
    case AllocEnd(t) =>
      && t < |w.threads| && w.threads[t].Taking? && w.threads[t].h < |w.state.nodes|
      && w' == World(Take(w.state, w.threads[t].h, w.threads[t].link), w.held + {w.threads[t].h}, false, w.threads[t := Idle])
    case FreeBegin(t, idx, locked) =>
      && t < |w.threads| && w.threads[t] == Idle && (locked ==> !w.lock)
      && idx in w.held && idx < |w.state.nodes| && !Freeing(w, idx)
      && w' == w.(state := Link(w.state, idx), lock := w.lock || locked, threads := w.threads[t := Linking(idx)])
    case FreeEnd(t) =>
      && t < |w.threads| && w.threads[t].Linking?
      && w' == World(Publish(w.state, w.threads[t].idx), w.held - {w.threads[t].idx}, false, w.threads[t := Idle])
    case Write(node, value) =>
      && node in w.held && node < |w.state.nodes| && !Freeing(w, node)
      && w' == w.(state := w.state.(nodes := w.state.nodes[node := value]))
  }

  /** The step finds the head it read when it began. */
  predicate Fresh(w: World, step: Step) {
    match step
    case AllocEnd(t) =>
      t < |w.threads| && w.threads[t].Taking? && w.threads[t].h < |w.state.nodes| ==>
        w.threads[t].h == w.state.freeList && w.threads[t].link == w.state.nodes[w.threads[t].h].left
    case FreeEnd(t) =>
      t < |w.threads| && w.threads[t].Linking? && w.threads[t].idx < |w.state.nodes| ==>
        w.state.nodes[w.threads[t].idx].left == w.state.freeList
    case _ => true
  }

  /** Nodes being freed are held, each by one thread. */
  ghost predicate Orderly(w: World) {
    && (forall t :: 0 <= t < |w.threads| && w.threads[t].Linking? ==> w.threads[t].idx in w.held)
    && (forall t, u :: 0 <= t < u < |w.threads| && w.threads[t].Linking? && w.threads[u].Linking? ==>
          w.threads[t].idx != w.threads[u].idx)
  }

  ghost predicate Sound(w: World) {
    Orderly(w) && exists chain :: Inv(w.state, w.held, chain)
  }

  lemma NextOrderly(w: World, step: Step, w': World)
    requires Orderly(w) && Next(w, step, w')
    ensures Orderly(w')
  {
    if step.FreeBegin? {
      assert forall u :: 0 <= u < |w.threads| && w.threads[u].Linking? && w.threads[u].idx == step.idx ==> Freeing(w, step.idx);
    }
  }

  /** A step keeps the pool sound if and only if it is fresh. */
  lemma NextSoundIff(w: World, step: Step, w': World)
    requires Sound(w) && Next(w, step, w')
    ensures Sound(w') <==> Fresh(w, step)
  {
    NextOrderly(w, step, w');
    var chain :| Inv(w.state, w.held, chain);
    match step
    case AllocEnd(t) => TakeIff(w.state, w.held, chain, w.threads[t].h, w.threads[t].link);
    case FreeEnd(t) => PublishIff(w.state, w.held, chain, w.threads[t].idx);
    case FreeBegin(t, idx, locked) => WriteInv(w.state, w.held, chain, idx, w'.state.nodes[idx]);
    case Write(node, value) => WriteInv(w.state, w.held, chain, node, value);
    case _ =>
  }

  /** What a step tells its caller: a node that is not held, or exactly when every node is held, that the pool is full. */
  ghost predicate Told(w: World, step: Step) {
    match step
    case AllocEnd(t) => t < |w.threads| && w.threads[t].Taking? ==> w.threads[t].h !in w.held
    case AllocFull(t) => |w.held| == |w.state.nodes|
    case AllocBegin(t) => |w.held| < |w.state.nodes|
    case _ => true
  }

  lemma StepTells(w: World, step: Step, w': World)
    requires Sound(w) && Next(w, step, w') && Fresh(w, step)
    ensures Told(w, step)
  {
    var chain :| Inv(w.state, w.held, chain);
    EmptyIffHeld(w.state, w.held, chain);
    if step.AllocEnd? {
      AllocateInv(w.state, w.held, chain);
    }
  }

  ghost predicate Run(worlds: seq<World>, steps: seq<Step>) {
    |worlds| == |steps| + 1 && forall k :: 0 <= k < |steps| ==> Next(worlds[k], steps[k], worlds[k + 1])
  }

  /** Over every interleaving in which each operation still finds, at its end, the head it read at its beginning, the free
      list is the nodes not held, no node is handed out while held, and the pool reports that it is full exactly when every
      node is held. */
  lemma {:induction false} RunSound(worlds: seq<World>, steps: seq<Step>, i: nat)
    requires Run(worlds, steps) && Sound(worlds[0]) && i < |worlds|
    requires forall k :: 0 <= k < |steps| ==> Fresh(worlds[k], steps[k])
    ensures Sound(worlds[i]) && (i < |steps| ==> Told(worlds[i], steps[i]))
  {
    hide Next, Sound, Fresh, Told;
    if i > 0 {
      RunSound(worlds, steps, i - 1);
      NextSoundIff(worlds[i - 1], steps[i - 1], worlds[i]);
    }
    if i < |steps| {
      StepTells(worlds[i], steps[i], worlds[i + 1]);
    }
  }

  // ---------- With the lock ----------

  /** What the thread has read is still so. */
  ghost predicate Current(s: State, held: set<nat>, th: Thread) {
    match th
    case Idle => true
    case Taking(h, link) => h == s.freeList < |s.nodes| && h !in held && link == s.nodes[h].left
    case Linking(idx) => idx < |s.nodes| && s.nodes[idx].left == s.freeList
  }

  /** While every free takes the lock, the lock is taken exactly while one thread is at work, and what that has read is
      still so. */
  ghost predicate Exclusive(w: World) {
    if w.lock
    then exists t :: 0 <= t < |w.threads| && Alone(w, t) && Current(w.state, w.held, w.threads[t])
    else forall t :: 0 <= t < |w.threads| ==> w.threads[t] == Idle
  }

  /** No thread but t is at work. */
  ghost predicate Alone(w: World, t: nat) {
    t < |w.threads| && w.threads[t] != Idle && forall u :: 0 <= u < |w.threads| && u != t ==> w.threads[u] == Idle
  }

  predicate Locked(step: Step) {
    step.FreeBegin? ==> step.locked
  }

  lemma LockedFresh(w: World, step: Step, w': World)
    requires Exclusive(w) && Next(w, step, w')
    ensures Fresh(w, step)
  {}

  lemma LockedNext(w: World, step: Step, w': World)
    requires Sound(w) && Exclusive(w) && Next(w, step, w') && Locked(step)
    ensures Exclusive(w')
  {
    match step
    case AllocBegin(t) => LockedBegin(w, step, w', t);
    case FreeBegin(t, idx, locked) => LockedBegin(w, step, w', t);
    case AllocEnd(t) => assert w.threads[t] != Idle;
    case FreeEnd(t) => assert w.threads[t] != Idle;
    case Write(node, value) => LockedWrite(w, node, value, w');
    case _ =>
  }

  lemma LockedBegin(w: World, step: Step, w': World, t: nat)
    requires Sound(w) && Exclusive(w) && Next(w, step, w') && Locked(step)
    requires step == AllocBegin(t) || (step.FreeBegin? && step.t == t)
    ensures Exclusive(w')
  {
    var chain :| Inv(w.state, w.held, chain);
    if step.AllocBegin? {
      AllocateInv(w.state, w.held, chain);
    }
    hide Inv;
    assert Current(w'.state, w'.held, w'.threads[t]);
    assert Alone(w', t);
  }

  lemma LockedWrite(w: World, node: nat, value: Node, w': World)
    requires Exclusive(w) && Next(w, Write(node, value), w')
    ensures Exclusive(w')
  {
    if w.lock {
      var t :| 0 <= t < |w.threads| && Alone(w, t) && Current(w.state, w.held, w.threads[t]);
      assert w.threads[t].Linking? ==> w.threads[t].idx != node;
      assert Alone(w', t) && Current(w'.state, w'.held, w'.threads[t]);
    }
  }

  /** A pool just threaded, with its threads idle. */
  lemma StartSound(s: State, threads: seq<Thread>)
    requires 0 < |s.nodes| <= INVALID && s.freeList == 0 && s.nodeCount == 0
    requires forall i :: 0 <= i < |s.nodes| ==> s.nodes[i].left == if i + 1 < |s.nodes| then i + 1 else INVALID
    requires forall t :: 0 <= t < |threads| ==> threads[t] == Idle
    ensures Sound(World(s, {}, false, threads)) && Exclusive(World(s, {}, false, threads))
  {
    ThreadedInv(s);
  }

  /** When every free takes the lock, every interleaving keeps the pool sound. */
  lemma {:induction false} LockedRuns(worlds: seq<World>, steps: seq<Step>, i: nat)
    requires Run(worlds, steps) && Sound(worlds[0]) && Exclusive(worlds[0]) && i < |worlds|
    requires forall k :: 0 <= k < |steps| ==> Locked(steps[k])
    ensures Sound(worlds[i]) && Exclusive(worlds[i])
    ensures i < |steps| ==> Fresh(worlds[i], steps[i]) && Told(worlds[i], steps[i])
  {
    hide Next, Sound, Fresh, Exclusive, Told;
    if i > 0 {
      LockedRuns(worlds, steps, i - 1);
      NextSoundIff(worlds[i - 1], steps[i - 1], worlds[i]);
      LockedNext(worlds[i - 1], steps[i - 1], worlds[i]);
    }
    if i < |steps| {
      LockedFresh(worlds[i], steps[i], worlds[i + 1]);
      StepTells(worlds[i], steps[i], worlds[i + 1]);
    }
  }
}
