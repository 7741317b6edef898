/**
 What the rate limiter of net/network.c guarantees over whole runs of requests: how many
 requests of one address any 60 seconds can admit, and when a request is denied.
 */
module RateRuns {
  import opened RateLimiter
  import opened Wrappers

  datatype Request = Request(ip: string, now: int)

  /** The requests come with a clock that never goes back. */
  ghost predicate Ordered(rs: seq<Request>) {
    forall i, j :: 0 <= i < j < |rs| ==> rs[i].now <= rs[j].now
  }

  function TableAfter(rs: seq<Request>, limit: int, capacity: nat): seq<Entry> {
    if rs == [] then []
    else
      var r := rs[|rs| - 1];
      Check(TableAfter(rs[..|rs| - 1], limit, capacity), r.ip, r.now, limit, capacity).table
  }

  /** The verdict on the last request, and the table after it. */
  function Last(rs: seq<Request>, limit: int, capacity: nat): Verdict
    requires rs != []
  {
    var r := rs[|rs| - 1];
    Check(TableAfter(rs[..|rs| - 1], limit, capacity), r.ip, r.now, limit, capacity)
  }

  /** The times at which requests from ip were admitted. */
  function Admissions(rs: seq<Request>, ip: string, limit: int, capacity: nat): seq<int> {
    if rs == [] then []
    else
      var r := rs[|rs| - 1];
      Admissions(rs[..|rs| - 1], ip, limit, capacity) +
      if r.ip == ip && Last(rs, limit, capacity).allowed then [r.now] else []
  }

  /** A request of ip at `now` finds an entry for ip, or room for one. */
  predicate Tracks(t: seq<Entry>, ip: string, now: int, capacity: nat) {
    var live := Unexpired(t, now);
    Find(live, ip) < |live| || |live| < capacity
  }

  /** The times of the requests from ip that found neither an entry nor room for one. */
  function Untracked(rs: seq<Request>, ip: string, limit: int, capacity: nat): seq<int> {
    if rs == [] then []
    else
      var before, r := rs[..|rs| - 1], rs[|rs| - 1];
      Untracked(before, ip, limit, capacity) +
      if r.ip == ip && !Tracks(TableAfter(before, limit, capacity), ip, r.now, capacity) then [r.now] else []
  }

  // ---------- At most one entry for each address ----------

  ghost predicate Unique(es: seq<Entry>) {
    forall i, j :: 0 <= i < j < |es| ==> es[i].ip != es[j].ip
  }

  /** The entry for ip. */
  function Lookup(es: seq<Entry>, ip: string): Option<Entry> {
    var k := Find(es, ip);
    if k < |es| then Some(es[k]) else None
  }

  lemma LookupIs(es: seq<Entry>, ip: string)
    requires Unique(es)
    ensures forall e :: Lookup(es, ip) == Some(e) <==> e in es && e.ip == ip
  {}

  lemma {:induction false} UnexpiredMembers(es: seq<Entry>, now: int)
    ensures forall e :: e in Unexpired(es, now) <==> e in es && Live(e, now)
  {
    if es != [] {
      UnexpiredMembers(es[..|es| - 1], now);
      assert es == es[..|es| - 1] + [es[|es| - 1]];
    }
  }

  lemma {:induction false} UnexpiredUnique(es: seq<Entry>, now: int)
    requires Unique(es)
    ensures Unique(Unexpired(es, now))
  {
    if es != [] {
      var rest, e := es[..|es| - 1], es[|es| - 1];
      UnexpiredUnique(rest, now);
      UnexpiredMembers(rest, now);
      var live := Unexpired(rest, now);
      forall i | 0 <= i < |live| ensures live[i].ip != e.ip {
        assert live[i] in live;
        var j :| 0 <= j < |rest| && rest[j] == live[i];
        assert es[j] == rest[j];
      }
    }
  }

  lemma LookupUnexpired(es: seq<Entry>, ip: string, now: int)
    requires Unique(es)
    ensures Unique(Unexpired(es, now))
    ensures Lookup(Unexpired(es, now), ip) ==
            match Lookup(es, ip) case Some(e) => (if Live(e, now) then Some(e) else None) case None => None
  {
    UnexpiredUnique(es, now);
    UnexpiredMembers(es, now);
    LookupIs(es, ip);
    LookupIs(Unexpired(es, now), ip);
    hide Find, Unexpired;
    match Lookup(Unexpired(es, now), ip)
    case Some(e) => assert Lookup(es, ip) == Some(e);
    case None =>
  }

  /** A check changes the entry of the address that asks, drops expired ones, and keeps one entry per address. */
  lemma CheckLookup(es: seq<Entry>, ip: string, now: int, limit: int, capacity: nat, q: string)
    requires Unique(es)
    ensures var live, v := Unexpired(es, now), Check(es, ip, now, limit, capacity);
            && Unique(v.table)
            && (q != ip ==> Lookup(v.table, q) == Lookup(live, q))
            && (Lookup(live, ip).Some? ==>
                  && Lookup(v.table, ip) == Some(Counted(Lookup(live, ip).value))
                  && v.allowed == (Lookup(live, ip).value.count + 1 <= limit))
            && (Lookup(live, ip) == None && |live| < capacity ==> Lookup(v.table, ip) == Some(Entry(ip, now, 1)) && v.allowed)
            && (Lookup(live, ip) == None && |live| >= capacity ==> v == Verdict(live, true))
  {
    var live := Unexpired(es, now);
    UnexpiredUnique(es, now);
    hide Unexpired, Find;
    var k := Find(live, ip);
    if k < |live| {
      UpdateLookup(live, k, q);
    } else if |live| < capacity {
      AppendLookup(live, Entry(ip, now, 1), q);
    }
  }

  lemma UpdateLookup(es: seq<Entry>, k: nat, q: string)
    requires Unique(es) && k < |es|
    ensures var es' := es[k := Counted(es[k])];
            && Unique(es') && Lookup(es', es[k].ip) == Some(Counted(es[k]))
            && (q != es[k].ip ==> Lookup(es', q) == Lookup(es, q))
  {
    var es' := es[k := Counted(es[k])];
    assert forall l :: 0 <= l < |es| ==> es'[l].ip == es[l].ip;
    assert Find(es', es[k].ip) == k;
    assert Find(es', q) == Find(es, q);
  }

  lemma AppendLookup(es: seq<Entry>, e: Entry, q: string)
    requires Unique(es) && Find(es, e.ip) == |es|
    ensures Unique(es + [e]) && Lookup(es + [e], e.ip) == Some(e)
    ensures q != e.ip ==> Lookup(es + [e], q) == Lookup(es, q)
  {
    FindConcat(es, [e], q);
    FindConcat(es, [e], e.ip);
    assert [e][1..] == [];
  }

  // ---------- The windows of one address ----------

  /** The admissions of one address, split by window: the current one, the one before it, and all older ones.
      `first` and `count` are what the table holds for the current window, if there has been one. */
  datatype History = History(older: seq<int>, prev: seq<int>, cur: seq<int>, any: bool, first: int, count: int)

  /** A request of another address changes nothing; one within the window is counted, and any other opens a new window. */
  function NextHistory(h: History, r: Request, ip: string, limit: int): History {
    if r.ip != ip then h
    else if h.any && r.now - h.first <= WINDOW then
      h.(count := h.count + 1, cur := if h.count + 1 <= limit then h.cur + [r.now] else h.cur)
    else History(h.older + h.prev, h.cur, [r.now], true, r.now, 1)
  }

  /** Requests that are not tracked leave no trace in the history. */
  function HistoryOf(rs: seq<Request>, ip: string, limit: int, capacity: nat): History {
    if rs == [] then History([], [], [], false, 0, 0)
    else
      var before, r := rs[..|rs| - 1], rs[|rs| - 1];
      var h := HistoryOf(before, ip, limit, capacity);
      if r.ip == ip && !Tracks(TableAfter(before, limit, capacity), ip, r.now, capacity) then h
      else NextHistory(h, r, ip, limit)
  }

  /** The table holds the current window of ip, unless that had expired at time `now`. */
  ghost predicate Agrees(t: seq<Entry>, h: History, ip: string, now: int) {
    && Unique(t)
    && Lookup(t, ip) == if h.any && now - h.first <= WINDOW then Some(Entry(ip, h.first, h.count)) else None
  }

  lemma AgreesNext(t: seq<Entry>, h: History, ip: string, now: int, r: Request, limit: int, capacity: nat)
    requires Agrees(t, h, ip, now) && now <= r.now
    ensures var h' := if r.ip == ip && !Tracks(t, ip, r.now, capacity) then h else NextHistory(h, r, ip, limit);
            Agrees(Check(t, r.ip, r.now, limit, capacity).table, h', ip, r.now)
  {
    LookupUnexpired(t, ip, r.now);
    CheckLookup(t, r.ip, r.now, limit, capacity, ip);
    hide Check, Unexpired, Find, Unique;
  }

  lemma OrderedPrefix(rs: seq<Request>)
    requires Ordered(rs) && rs != []
    ensures Ordered(rs[..|rs| - 1])
    ensures |rs| >= 2 ==> rs[|rs| - 2].now <= rs[|rs| - 1].now
  {}

  /** The table holds the current window of each address, once, and nothing of it when that has expired. */
  lemma {:induction false} TableAgrees(rs: seq<Request>, ip: string, limit: int, capacity: nat, now: int)
    requires Ordered(rs)
    requires if rs == [] then true else now == rs[|rs| - 1].now
    ensures Agrees(TableAfter(rs, limit, capacity), HistoryOf(rs, ip, limit, capacity), ip, now)
  {
    if rs != [] {
      var before, r := rs[..|rs| - 1], rs[|rs| - 1];
      OrderedPrefix(rs);
      var last := if before == [] then r.now else before[|before| - 1].now;
      TableAgrees(before, ip, limit, capacity, last);
      hide Agrees, NextHistory, Check, Find, Unexpired;
      AgreesNext(TableAfter(before, limit, capacity), HistoryOf(before, ip, limit, capacity), ip, last, r, limit, capacity);
    }
  }

  /** The verdict on a request of ip, from its history. */
  lemma VerdictIs(rs: seq<Request>, limit: int, capacity: nat)
    requires rs != [] && Ordered(rs)
    ensures var r := rs[|rs| - 1];
            var h := HistoryOf(rs[..|rs| - 1], r.ip, limit, capacity);
            Last(rs, limit, capacity).allowed <==> !(h.any && r.now - h.first <= WINDOW) || h.count + 1 <= limit
  {
    var before, r := rs[..|rs| - 1], rs[|rs| - 1];
    OrderedPrefix(rs);
    TableAgrees(before, r.ip, limit, capacity, if before == [] then r.now else before[|before| - 1].now);
    var t := TableAfter(before, limit, capacity);
    LookupUnexpired(t, r.ip, r.now);
    CheckLookup(t, r.ip, r.now, limit, capacity, r.ip);
    hide Check, Unexpired, Find, Unique;
  }

  function Total(h: History): seq<int> {
    h.older + h.prev + h.cur
  }

  /** Windows do not overlap, and none admits more than the limit. */
  ghost predicate Windows(h: History, limit: int, now: int) {
    && |h.prev| <= limit && |h.cur| <= limit
    && (h.any ==> h.first <= now && 1 <= h.count && |h.cur| == (if h.count <= limit then h.count else limit))
    && (!h.any ==> Total(h) == [])
    && (forall a :: a in h.cur ==> h.first <= a <= h.first + WINDOW)
    && (forall a :: a in h.prev ==> a < h.first)
    && (forall a :: a in h.older ==> a < h.first - WINDOW)
  }

  lemma {:induction false} WindowsKept(rs: seq<Request>, ip: string, limit: int, capacity: nat, now: int)
    requires Ordered(rs) && limit >= 1 && (rs != [] ==> rs[|rs| - 1].now <= now)
    ensures Windows(HistoryOf(rs, ip, limit, capacity), limit, now)
  {
    if rs != [] {
      OrderedPrefix(rs);
      WindowsKept(rs[..|rs| - 1], ip, limit, capacity, rs[|rs| - 1].now);
    }
  }

  // ---------- The bound ----------

  /** How many of the times lie in the 60 seconds from t on. */
  function CountIn(times: seq<int>, t: int): nat {
    if times == [] then 0
    else CountIn(times[..|times| - 1], t) + if t <= times[|times| - 1] <= t + WINDOW then 1 else 0
  }

  lemma {:induction false} CountConcat(x: seq<int>, y: seq<int>, t: int)
    ensures CountIn(x + y, t) == CountIn(x, t) + CountIn(y, t)
  {
    if y == [] {
      assert x + y == x;
    } else {
      assert (x + y)[..|x + y| - 1] == x + y[..|y| - 1];
      CountConcat(x, y[..|y| - 1], t);
    }
  }

  lemma {:induction false} CountBounds(x: seq<int>, t: int)
    ensures CountIn(x, t) <= |x|
    ensures (forall i :: 0 <= i < |x| ==> x[i] < t) ==> CountIn(x, t) == 0
  {
    if x != [] {
      CountBounds(x[..|x| - 1], t);
    }
  }

  /** In an interval that reaches the current window, only that window and the one before it count. */
  lemma TwoWindows(h: History, limit: int, now: int, t: int)
    requires Windows(h, limit, now) && h.any && h.first - WINDOW <= t
    ensures CountIn(Total(h), t) <= 2 * limit
  {
    CountConcat(h.older + h.prev, h.cur, t);
    CountConcat(h.older, h.prev, t);
    assert forall i :: 0 <= i < |h.older| ==> h.older[i] in h.older;
    CountBounds(h.older, t);
    CountBounds(h.prev, t);
    CountBounds(h.cur, t);
  }

  lemma {:induction false} HistoryBound(rs: seq<Request>, ip: string, limit: int, capacity: nat, t: int)
    requires Ordered(rs) && limit >= 1
    ensures CountIn(Total(HistoryOf(rs, ip, limit, capacity)), t) <= 2 * limit
  {
    hide Tracks, TableAfter;
    if rs != [] {
      var before, r := rs[..|rs| - 1], rs[|rs| - 1];
      OrderedPrefix(rs);
      HistoryBound(before, ip, limit, capacity, t);
      WindowsKept(rs, ip, limit, capacity, r.now);
      TotalGrows(rs, ip, limit, capacity);
      var h, h' := HistoryOf(before, ip, limit, capacity), HistoryOf(rs, ip, limit, capacity);
      hide HistoryOf, Total;
      if Total(h') != Total(h) {
        if t <= r.now <= t + WINDOW {
          TwoWindows(h', limit, r.now, t);
        } else {
          CountConcat(Total(h), [r.now], t);
          assert CountIn([r.now], t) == 0 by { assert [r.now][..0] == []; }
        }
      }
    }
  }

  /** A request adds its time to the admissions, or nothing. */
  lemma TotalGrows(rs: seq<Request>, ip: string, limit: int, capacity: nat)
    requires rs != []
    ensures var h, h', r := HistoryOf(rs[..|rs| - 1], ip, limit, capacity), HistoryOf(rs, ip, limit, capacity), rs[|rs| - 1];
            Total(h') == Total(h) || (Total(h') == Total(h) + [r.now] && h'.any)
  {
    hide Tracks, TableAfter;
    var h, r := HistoryOf(rs[..|rs| - 1], ip, limit, capacity), rs[|rs| - 1];
    NextTotal(h, r, limit);
    assert NextHistory(h, r, r.ip, limit).any;
    assert Total(h) + [] == Total(h);
    hide Total;
  }

  lemma CountLast(x: seq<int>, a: int, t: int)
    ensures CountIn(x + [a], t) == CountIn(x, t) + if t <= a <= t + WINDOW then 1 else 0
  {
    assert (x + [a])[..|x|] == x;
  }

  /** Every admission is one of the history or one that was not tracked. */
  lemma {:induction false} AdmissionsCount(rs: seq<Request>, ip: string, limit: int, capacity: nat, t: int)
    requires Ordered(rs)
    ensures CountIn(Admissions(rs, ip, limit, capacity), t) ==
            CountIn(Total(HistoryOf(rs, ip, limit, capacity)), t) + CountIn(Untracked(rs, ip, limit, capacity), t)
  {
    hide CountIn;
    if rs == [] {
      assert Total(HistoryOf(rs, ip, limit, capacity)) == [];
      CountNone(t);
    } else {
      var before, r := rs[..|rs| - 1], rs[|rs| - 1];
      OrderedPrefix(rs);
      AdmissionsCount(before, ip, limit, capacity, t);
      assert Admissions(before, ip, limit, capacity) + [] == Admissions(before, ip, limit, capacity);
      assert Untracked(before, ip, limit, capacity) + [] == Untracked(before, ip, limit, capacity);
      if r.ip == ip {
        CountLast(Admissions(before, ip, limit, capacity), r.now, t);
        CountLast(Untracked(before, ip, limit, capacity), r.now, t);
        CountLast(Total(HistoryOf(before, ip, limit, capacity)), r.now, t);
        HistoryStep(rs, limit, capacity);
        hide Last, Total, Check, TableAfter, Ordered, HistoryOf, Tracks;
        assert Total(HistoryOf(before, ip, limit, capacity)) + [] == Total(HistoryOf(before, ip, limit, capacity));
      }
    }
  }

  lemma CountNone(t: int)
    ensures CountIn([], t) == 0
  {}

  /** A request adds to the admissions of the history if it is tracked and admitted; one not tracked is admitted. */
  lemma HistoryStep(rs: seq<Request>, limit: int, capacity: nat)
    requires Ordered(rs) && rs != []
    ensures var r, before := rs[|rs| - 1], rs[..|rs| - 1];
            var h, h' := HistoryOf(before, r.ip, limit, capacity), HistoryOf(rs, r.ip, limit, capacity);
            if Tracks(TableAfter(before, limit, capacity), r.ip, r.now, capacity)
            then Total(h') == Total(h) + if Last(rs, limit, capacity).allowed then [r.now] else []
            else h' == h && Last(rs, limit, capacity).allowed
  {
    var r, before := rs[|rs| - 1], rs[..|rs| - 1];
    VerdictIs(rs, limit, capacity);
    if Tracks(TableAfter(before, limit, capacity), r.ip, r.now, capacity) {
      NextTotal(HistoryOf(before, r.ip, limit, capacity), r, limit);
      hide Tracks, Total, NextHistory, Last;
    } else {
      UntrackedAllowed(TableAfter(before, limit, capacity), r.ip, r.now, limit, capacity);
      hide Tracks;
    }
  }

  /** A tracked request adds its time to the admissions of the history exactly if it is admitted. */
  lemma NextTotal(h: History, r: Request, limit: int)
    ensures Total(NextHistory(h, r, r.ip, limit)) ==
            Total(h) + if !(h.any && r.now - h.first <= WINDOW) || h.count + 1 <= limit then [r.now] else []
  {
    assert h.older + h.prev + (h.cur + [r.now]) == Total(h) + [r.now];
  }

  lemma UntrackedAllowed(t: seq<Entry>, ip: string, now: int, limit: int, capacity: nat)
    requires !Tracks(t, ip, now, capacity)
    ensures Check(t, ip, now, limit, capacity) == Verdict(Unexpired(t, now), true)
  {}

  /** Over any run with a clock that never goes back and a limit of at least one, any 60 seconds admit at most twice the
      limit of the requests of one address, and those that were not tracked. */
  lemma RateBound(rs: seq<Request>, ip: string, limit: int, capacity: nat, t: int)
    requires Ordered(rs) && limit >= 1
    ensures CountIn(Admissions(rs, ip, limit, capacity), t) <= 2 * limit + CountIn(Untracked(rs, ip, limit, capacity), t)
  {
    AdmissionsCount(rs, ip, limit, capacity, t);
    HistoryBound(rs, ip, limit, capacity, t);
  }

  /** A denied request comes after `limit` requests of the same address admitted within the last 60 seconds. */
  lemma DenialIsEarned(rs: seq<Request>, limit: int, capacity: nat)
    requires rs != [] && Ordered(rs) && limit >= 1
    requires !Last(rs, limit, capacity).allowed
    ensures var r, before := rs[|rs| - 1], rs[..|rs| - 1];
            CountIn(Admissions(before, r.ip, limit, capacity), r.now - WINDOW) >= limit
  {
    var r, before := rs[|rs| - 1], rs[..|rs| - 1];
    OrderedPrefix(rs);
    VerdictIs(rs, limit, capacity);
    AdmissionsCount(before, r.ip, limit, capacity, r.now - WINDOW);
    WindowsKept(before, r.ip, limit, capacity, r.now);
    var h := HistoryOf(before, r.ip, limit, capacity);
    CountConcat(h.older + h.prev, h.cur, r.now - WINDOW);
    CurrentCounts(rs, before, limit, capacity);
  }

  /** Every admission of the current window lies between the window's start and the latest request. */
  lemma CurrentCounts(rs: seq<Request>, before: seq<Request>, limit: int, capacity: nat)
    requires rs != [] && Ordered(rs) && before == rs[..|rs| - 1]
    requires var h := HistoryOf(before, rs[|rs| - 1].ip, limit, capacity); h.any && rs[|rs| - 1].now - h.first <= WINDOW
    ensures var r := rs[|rs| - 1];
            var h := HistoryOf(before, r.ip, limit, capacity);
            CountIn(h.cur, r.now - WINDOW) == |h.cur|
  {
    var r := rs[|rs| - 1];
    OrderedPrefix(rs);
    CurrentTimes(before, r.ip, limit, capacity, r.now);
    var cur := HistoryOf(before, r.ip, limit, capacity).cur;
    assert forall i :: 0 <= i < |cur| ==> cur[i] in cur;
    AllCount(cur, r.now - WINDOW);
  }

  lemma {:induction false} CurrentTimes(rs: seq<Request>, ip: string, limit: int, capacity: nat, now: int)
    requires Ordered(rs) && (rs != [] ==> rs[|rs| - 1].now <= now)
    ensures var h := HistoryOf(rs, ip, limit, capacity); forall a :: a in h.cur ==> h.first <= a <= now
    ensures var h := HistoryOf(rs, ip, limit, capacity); h.any ==> h.first <= now
  {
    if rs != [] {
      OrderedPrefix(rs);
      CurrentTimes(rs[..|rs| - 1], ip, limit, capacity, rs[|rs| - 1].now);
    }
  }

  lemma {:induction false} AllCount(x: seq<int>, t: int)
    requires forall i :: 0 <= i < |x| ==> t <= x[i] <= t + WINDOW
    ensures CountIn(x, t) == |x|
  {
    if x != [] {
      AllCount(x[..|x| - 1], t);
    }
  }

  // ---------- A full table ----------

  /** How many of n requests of ip, all at `now`, a table admits. */
  function Burst(t: seq<Entry>, ip: string, now: int, limit: int, capacity: nat, n: nat): nat
    decreases n
  {
    if n == 0 then 0
    else
      var v := Check(t, ip, now, limit, capacity);
      (if v.allowed then 1 else 0) + Burst(v.table, ip, now, limit, capacity, n - 1)
  }

  lemma {:induction false} UnexpiredAgain(t: seq<Entry>, now: int)
    requires AllLive(t, now)
    ensures Unexpired(t, now) == t
  {
    if t != [] {
      UnexpiredAgain(t[..|t| - 1], now);
      assert t == t[..|t| - 1] + [t[|t| - 1]];
    }
  }

  lemma UnexpiredLive(t: seq<Entry>, now: int)
    ensures AllLive(Unexpired(t, now), now)
    ensures Unexpired(Unexpired(t, now), now) == Unexpired(t, now)
  {
    UnexpiredMembers(t, now);
    var live := Unexpired(t, now);
    assert forall i :: 0 <= i < |live| ==> live[i] in live;
    UnexpiredAgain(live, now);
  }

  /** A table full of other addresses admits all of any number of requests. */
  lemma {:induction false} FullTableAdmitsAll(t: seq<Entry>, ip: string, now: int, limit: int, capacity: nat, n: nat)
    requires !Tracks(t, ip, now, capacity)
    ensures Burst(t, ip, now, limit, capacity, n) == n
    decreases n
  {
    if n > 0 {
      UntrackedAllowed(t, ip, now, limit, capacity);
      UnexpiredLive(t, now);
      FullTableAdmitsAll(Unexpired(t, now), ip, now, limit, capacity, n - 1);
    }
  }

  /** From entry k on, whose count is c, a table admits as many requests of its address as the limit leaves. */
  lemma {:induction false} BurstFrom(t: seq<Entry>, k: nat, ip: string, now: int, limit: int, capacity: nat, n: nat)
    requires AllLive(t, now) && k < |t| && Find(t, ip) == k && t[k].count >= 0
    ensures Burst(t, ip, now, limit, capacity, n) <= if t[k].count <= limit then limit - t[k].count else 0
    decreases n
  {
    hide Find;
    if n > 0 {
      CheckFound(t, k, ip, now, limit, capacity);
      SameFind(t, k, ip);
      var t' := t[k := Counted(t[k])];
      assert AllLive(t', now);
      hide Check, AllLive;
      BurstFrom(t', k, ip, now, limit, capacity, n - 1);
    }
  }

  ghost predicate AllLive(t: seq<Entry>, now: int) {
    forall i :: 0 <= i < |t| ==> Live(t[i], now)
  }

  lemma CheckFound(t: seq<Entry>, k: nat, ip: string, now: int, limit: int, capacity: nat)
    requires AllLive(t, now) && k < |t| && Find(t, ip) == k
    ensures Check(t, ip, now, limit, capacity) == Verdict(t[k := Counted(t[k])], t[k].count + 1 <= limit)
  {
    UnexpiredAgain(t, now);
    hide Unexpired, Find;
  }

  lemma SameFind(t: seq<Entry>, k: nat, ip: string)
    requires k < |t| && Find(t, ip) == k
    ensures Find(t[k := Counted(t[k])], ip) == k
  {
    hide Find;
    var t' := t[k := Counted(t[k])];
    assert forall l :: 0 <= l < |t| ==> t'[l].ip == t[l].ip;
    var j := Find(t', ip);
    assert t'[k].ip == ip;
    assert j < |t'| ==> t[j].ip == ip;
  }

  ghost predicate Counting(t: seq<Entry>) {
    forall i :: 0 <= i < |t| ==> t[i].count >= 1
  }

  lemma TrackedBurst(t: seq<Entry>, ip: string, now: int, limit: int, capacity: nat, n: nat)
    requires Tracks(t, ip, now, capacity) && Counting(t) && limit >= 1
    ensures Burst(t, ip, now, limit, capacity, n) <= limit
  {
    var live := Unexpired(t, now);
    UnexpiredLive(t, now);
    UnexpiredCounting(t, now);
    hide Unexpired, Find, AllLive;
    if n > 0 {
      if Find(live, ip) < |live| {
        assert Check(t, ip, now, limit, capacity) == Check(live, ip, now, limit, capacity);
        assert Burst(t, ip, now, limit, capacity, n) == Burst(live, ip, now, limit, capacity, n);
        hide Check, Burst;
        BurstFrom(live, Find(live, ip), ip, now, limit, capacity, n);
      } else {
        FreshEntry(live, ip, now);
        assert Check(t, ip, now, limit, capacity) == Verdict(live + [Entry(ip, now, 1)], true);
        hide Check;
        BurstFrom(live + [Entry(ip, now, 1)], |live|, ip, now, limit, capacity, n - 1);
      }
    }
  }

  lemma UnexpiredCounting(t: seq<Entry>, now: int)
    requires Counting(t)
    ensures Counting(Unexpired(t, now))
  {
    UnexpiredMembers(t, now);
    var live := Unexpired(t, now);
    assert forall i :: 0 <= i < |live| ==> live[i] in live;
  }

  lemma FreshEntry(live: seq<Entry>, ip: string, now: int)
    requires AllLive(live, now) && Find(live, ip) == |live|
    ensures AllLive(live + [Entry(ip, now, 1)], now) && Find(live + [Entry(ip, now, 1)], ip) == |live|
  {
    FindConcat(live, [Entry(ip, now, 1)], ip);
  }

  lemma {:induction false} RunsCount(rs: seq<Request>, limit: int, capacity: nat)
    ensures Counting(TableAfter(rs, limit, capacity))
  {
    if rs != [] {
      var before, r := rs[..|rs| - 1], rs[|rs| - 1];
      RunsCount(before, limit, capacity);
      UnexpiredCounting(TableAfter(before, limit, capacity), r.now);
      hide Unexpired, Find;
    }
  }

  /** After any run, every number of requests of ip at one time stays within the limit if and only if ip has an entry then
      or there is room for one. */
  lemma BurstExact(rs: seq<Request>, ip: string, now: int, limit: int, capacity: nat)
    requires limit >= 1
    ensures var t := TableAfter(rs, limit, capacity);
            Tracks(t, ip, now, capacity) <==> forall n: nat :: Burst(t, ip, now, limit, capacity, n) <= limit
  {
    var t := TableAfter(rs, limit, capacity);
    if Tracks(t, ip, now, capacity) {
      RunsCount(rs, limit, capacity);
      forall n: nat ensures Burst(t, ip, now, limit, capacity, n) <= limit {
        TrackedBurst(t, ip, now, limit, capacity, n);
      }
    } else {
      FullTableAdmitsAll(t, ip, now, limit, capacity, limit + 1);
    }
  }

  /** What a burst admits is what the run admits when it goes on with those requests. */
  lemma {:induction false} BurstAdmits(rs: seq<Request>, ip: string, now: int, limit: int, capacity: nat, n: nat)
    ensures |Admissions(rs + seq(n, _ => Request(ip, now)), ip, limit, capacity)| ==
            |Admissions(rs, ip, limit, capacity)| + Burst(TableAfter(rs, limit, capacity), ip, now, limit, capacity, n)
    decreases n
  {
    var r := Request(ip, now);
    if n == 0 {
      assert rs + seq(n, _ => r) == rs;
    } else {
      assert rs + seq(n, _ => r) == (rs + [r]) + seq(n - 1, _ => r);
      OneMore(rs, r, ip, limit, capacity);
      BurstStep(TableAfter(rs, limit, capacity), ip, now, limit, capacity, n);
      hide Check, Burst, Admissions, TableAfter;
      BurstAdmits(rs + [r], ip, now, limit, capacity, n - 1);
    }
  }

  lemma BurstStep(t: seq<Entry>, ip: string, now: int, limit: int, capacity: nat, n: nat)
    requires n > 0
    ensures var v := Check(t, ip, now, limit, capacity);
            Burst(t, ip, now, limit, capacity, n) == (if v.allowed then 1 else 0) + Burst(v.table, ip, now, limit, capacity, n - 1)
  {
    hide Check;
  }

  lemma OneMore(rs: seq<Request>, r: Request, ip: string, limit: int, capacity: nat)
    ensures var v := Check(TableAfter(rs, limit, capacity), r.ip, r.now, limit, capacity);
            && TableAfter(rs + [r], limit, capacity) == v.table
            && Admissions(rs + [r], ip, limit, capacity) ==
               Admissions(rs, ip, limit, capacity) + if r.ip == ip && v.allowed then [r.now] else []
  {
    hide Check;
    assert (rs + [r])[..|rs|] == rs;
  }
}
