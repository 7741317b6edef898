/**
 The work queue of net/network.c: a singly linked list of accepted clients with head and
 tail pointers and a size, appended to by the accepting thread and emptied by the workers.
 Items lie in memory at addresses, 0 being NULL.
 */
module WorkQueue {
  datatype Item = Item(client: nat, next: nat)

  type Memory = map<nat, Item>

  /** From the address a, the chain holds the given clients at the given addresses and ends with NULL. */
  ghost predicate Chain(m: Memory, a: nat, at: seq<nat>, clients: seq<nat>)
    decreases |at|
  {
    && |at| == |clients|
    && if at == [] then a == 0
       else a != 0 && a == at[0] && a in m && m[a].client == clients[0] && Chain(m, m[a].next, at[1..], clients[1..])
  }

  ghost predicate Distinct(at: seq<nat>) {
    forall i, j :: 0 <= i < j < |at| ==> at[i] != at[j]
  }

  lemma {:induction false} ChainIn(m: Memory, a: nat, at: seq<nat>, clients: seq<nat>)
    requires Chain(m, a, at, clients)
    ensures forall i :: 0 <= i < |at| ==> at[i] in m && at[i] != 0
    decreases |at|
  {
    if at != [] {
      ChainIn(m, m[a].next, at[1..], clients[1..]);
      assert forall i :: 1 <= i < |at| ==> at[i] == at[1..][i - 1];
    }
  }

  /** Linking a fresh last item behind the tail of the chain. */
  lemma {:induction false} ChainAppend(m: Memory, m': Memory, a: nat, at: seq<nat>, clients: seq<nat>, item: nat, client: nat)
    requires Chain(m, a, at, clients) && Distinct(at) && at != [] && item != 0 && item !in at
    requires var tail := at[|at| - 1];
             && tail in m && tail in m' && m'[tail] == m[tail].(next := item)
             && item in m' && m'[item] == Item(client, 0)
             && forall i :: 0 <= i < |at| - 1 ==> at[i] in m' && (at[i] in m ==> m'[at[i]] == m[at[i]])
    ensures Chain(m', a, at + [item], clients + [client])
    decreases |at|
  {
    assert (at + [item])[1..] == at[1..] + [item] && (clients + [client])[1..] == clients[1..] + [client];
    if |at| == 1 {
      assert Chain(m', 0, [item][1..], [client][1..]);
      assert Chain(m', item, [item], [client]);
      assert at[1..] + [item] == [item] && clients[1..] + [client] == [client];
    } else {
      assert forall i :: 0 <= i < |at[1..]| ==> at[1..][i] == at[i + 1];
      ChainAppend(m, m', m[a].next, at[1..], clients[1..], item, client);
    }
  }

  class Queue {
    var items: Memory
    var head: nat
    var tail: nat
    var size: nat
    ghost var clients: seq<nat>
    ghost var at: seq<nat>

    ghost predicate Valid()
      reads this
    {
      && Chain(items, head, at, clients) && Distinct(at)
      && size == |clients|
      && tail == (if at == [] then 0 else at[|at| - 1])
    }

    constructor ()
      ensures Valid() && clients == []
    {
      items, head, tail, size := map[], 0, 0, 0;
      clients, at := [], [];
    }

    /** Appends a client, in an item the allocator returned: not NULL and not one in the queue. */
    method Enqueue(client: nat, item: nat)
      requires Valid() && item != 0 && item !in at
      modifies this
      ensures Valid() && clients == old(clients) + [client] && at == old(at) + [item]
    {
      ChainIn(items, head, at, clients);
      ghost var m := items;
      items := items[item := Item(client, 0)];
      if tail == 0 {
        head := item;
        tail := item;
        assert [item][1..] == [] && [client][1..] == [];
      } else {
        items := items[tail := items[tail].(next := item)];
        ChainAppend(m, items, head, at, clients, item, client);
        tail := item;
      }
      size := size + 1;
      clients, at := clients + [client], at + [item];
    }

    /** Takes the oldest client; -1 if there is none. */
    method Dequeue() returns (client: int)
      requires Valid()
      modifies this
      ensures Valid()
      ensures client == -1 <==> old(clients) == []
      ensures client == -1 ==> clients == old(clients) && at == old(at)
      ensures client != -1 ==> client == old(clients)[0] && clients == old(clients)[1..] && at == old(at)[1..]
    {
      if size == 0 || head == 0 {
        return -1;
      }
      ChainIn(items, head, at, clients);
      client := items[head].client;
      head := items[head].next;
      if head == 0 {
        tail := 0;
      }
      size := size - 1;
      clients, at := clients[1..], at[1..];
    }
  }
}
