/**
 The fixed-window rate limiter of net/network.c: a table of per-address counters that every
 check compacts in place, and what it guarantees over whole runs.
 */
module RateLimiter {
  const WINDOW := 60

  datatype Entry = Entry(ip: string, first: int, count: int)

  predicate Live(e: Entry, now: int) {
    now - e.first <= WINDOW
  }

  /** The entries not yet expired, in order. */
  function Unexpired(es: seq<Entry>, now: int): seq<Entry> {
    if es == [] then []
    else
      var e := es[|es| - 1];
      Unexpired(es[..|es| - 1], now) + if Live(e, now) then [e] else []
  }

  /** The index of the first entry for ip; |es| if there is none. */
  function Find(es: seq<Entry>, ip: string): (k: nat)
    ensures k <= |es| && (k < |es| ==> es[k].ip == ip)
    ensures forall i :: 0 <= i < k ==> es[i].ip != ip
  {
    if es == [] then 0 else if es[0].ip == ip then 0 else Find(es[1..], ip) + 1
  }

  datatype Verdict = Verdict(table: seq<Entry>, allowed: bool)

  /** A check as a function of the table: drop expired entries, then count the request or start a window for it. */
  function Check(es: seq<Entry>, ip: string, now: int, limit: int, capacity: nat): Verdict {
    var live := Unexpired(es, now);
    var k := Find(live, ip);
    if k < |live| then
      Verdict(live[k := live[k].(count := live[k].count + 1)], live[k].count + 1 <= limit)
    else if |live| < capacity then Verdict(live + [Entry(ip, now, 1)], true)
    else Verdict(live, true)
  }

  // ---------- One pass over the table ----------

  /** What the pass has written, where it found ip, and whether the request is allowed so far. */
  datatype Scan = Scan(kept: seq<Entry>, found: int, allowed: bool)

  function Counted(e: Entry): Entry {
    e.(count := e.count + 1)
  }

  function ScanEntry(s: Scan, e: Entry, ip: string, now: int, limit: int): Scan {
    if !Live(e, now) then s
    else if s.found == -1 && e.ip == ip then Scan(s.kept + [Counted(e)], |s.kept|, e.count + 1 <= limit)
    else s.(kept := s.kept + [e])
  }

  function ScanAll(es: seq<Entry>, ip: string, now: int, limit: int): Scan {
    if es == [] then Scan([], -1, true)
    else ScanEntry(ScanAll(es[..|es| - 1], ip, now, limit), es[|es| - 1], ip, now, limit)
  }

  lemma ScanNone(es: seq<Entry>, ip: string, now: int, limit: int)
    ensures ScanAll(es[..0], ip, now, limit) == Scan([], -1, true)
  {}

  lemma ScanOne(es: seq<Entry>, read: nat, ip: string, now: int, limit: int)
    requires read < |es|
    ensures ScanAll(es[..read + 1], ip, now, limit) == ScanEntry(ScanAll(es[..read], ip, now, limit), es[read], ip, now, limit)
  {
    assert es[..read + 1][..read] == es[..read];
  }

  /** The outcome of a pass that kept the entries of `live`, with the first for ip counted. */
  function ScanOf(live: seq<Entry>, ip: string, limit: int): Scan {
    var k := Find(live, ip);
    if k < |live| then Scan(live[k := Counted(live[k])], k, live[k].count + 1 <= limit) else Scan(live, -1, true)
  }

  lemma ScanOfAppend(live: seq<Entry>, e: Entry, ip: string, now: int, limit: int)
    requires Live(e, now)
    ensures ScanOf(live + [e], ip, limit) == ScanEntry(ScanOf(live, ip, limit), e, ip, now, limit)
  {
    FindConcat(live, [e], ip);
    assert Find([e], ip) == if e.ip == ip then 0 else 1 by { assert [e][1..] == []; }
    hide Find;
    var k := Find(live, ip);
    if k < |live| {
      assert (live + [e])[k := Counted(live[k])] == live[k := Counted(live[k])] + [e];
    } else if e.ip == ip {
      assert (live + [e])[|live| := Counted(e)] == live + [Counted(e)];
    }
  }

  /** The pass keeps the entries not expired, counts the first for ip, and finds it exactly if there is one. */
  lemma {:induction false} ScanIs(es: seq<Entry>, ip: string, now: int, limit: int)
    ensures ScanAll(es, ip, now, limit) == ScanOf(Unexpired(es, now), ip, limit)
  {
    if es != [] {
      var rest, e := es[..|es| - 1], es[|es| - 1];
      ScanIs(rest, ip, now, limit);
      if Live(e, now) {
        ScanOfAppend(Unexpired(rest, now), e, ip, now, limit);
      } else {
        assert Unexpired(es, now) == Unexpired(rest, now);
      }
    }
  }

  lemma {:induction false} FindConcat(x: seq<Entry>, y: seq<Entry>, ip: string)
    ensures Find(x + y, ip) == if Find(x, ip) < |x| then Find(x, ip) else |x| + Find(y, ip)
  {
    if x == [] {
      assert x + y == y;
    } else {
      assert (x + y)[1..] == x[1..] + y;
      FindConcat(x[1..], y, ip);
    }
  }

  class Limiter {
    var table: array<Entry>
    var size: nat

    /** The entries in use. */
    ghost function Contents(): seq<Entry>
      requires size <= table.Length
      reads this, table
    {
      table[..size]
    }

    constructor (capacity: nat)
      ensures table.Length == capacity && size == 0 && fresh(table)
    {
      table := new Entry[capacity](_ => Entry("", 0, 0));
      size := 0;
    }

    /** Counts a request from ip at time now and says whether it is within the limit. */
    method CheckAndUpdate(ip: string, now: int, limit: int) returns (allowed: bool)
      requires size <= table.Length
      modifies this`size, table
      ensures size <= table.Length
      ensures Verdict(Contents(), allowed) == Check(old(Contents()), ip, now, limit, table.Length)
    {
      ScanIs(Contents(), ip, now, limit);
      var found, write;
      allowed, found, write := Compact(ip, now, limit);
      size := write;
      if allowed && found == -1 {
        if size < table.Length {
          table[size] := Entry(ip, now, 1);
          size := size + 1;
        }
      }
    }

    /** One pass of read and write indices: expired entries are dropped, the first entry for ip is counted. */
    method Compact(ip: string, now: int, limit: int) returns (allowed: bool, found: int, write: nat)
      requires size <= table.Length
      modifies table
      ensures write <= size
      ensures Scan(table[..write], found, allowed) == ScanAll(old(Contents()), ip, now, limit)
    {
      hide ScanAll;
      ghost var es := table[..size];
      allowed, found, write := true, -1, 0;
      ScanNone(es, ip, now, limit);
      for read := 0 to size
        invariant write <= read
        invariant forall i :: read <= i < size ==> table[i] == es[i]
        invariant Scan(table[..write], found, allowed) == ScanAll(es[..read], ip, now, limit)
        invariant found == -1 ==> allowed
      {
        ScanOne(es, read, ip, now, limit);
        if now - table[read].first > WINDOW {
          continue;
        }
        ghost var kept := table[..write];
        if found == -1 && table[read].ip == ip {
          found := write;
          table[read] := table[read].(count := table[read].count + 1);
          if table[read].count > limit {
            allowed := false;
          }
        }
        if read != write {
          table[write] := table[read];
        }
        write := write + 1;
        assert table[..write] == kept + [table[write - 1]];
      }
      assert es[..size] == es;
    }
  }
}
