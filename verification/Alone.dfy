/** Requests that nobody disturbs: a miss fetches and stores, a later request for the same key hits. */
module Alone {
  import opened Bytes
  import opened Lru
  import opened Protocol

  lemma {:induction false} RunsBoth(s: State, run: seq<Action>, s1: State, run': seq<Action>, s2: State, lim: Limits)
    requires Inv(s, lim) && Inv(s1, lim) && lim.maxObjSize <= lim.maxSize + 1 && Runs(s, run, s1, lim) && Runs(s1, run', s2, lim)
    ensures Runs(s, run + run', s2, lim)
    decreases |run|
  {
    hide Inv, Enabled, Next;
    if run == [] {
      assert run + run' == run';
    } else {
      StepKeeps(s, run[0], lim);
      RunsBoth(Next(s, run[0], lim), run[1..], s1, run', s2, lim);
      assert (run + run')[1..] == run[1..] + run';
    }
  }

  lemma FirstOfBoth<T>(x: seq<T>, y: seq<T>)
    requires x != []
    ensures (x + y)[0] == x[0] && (x + y)[1..] == x[1..] + y
  {
  }

  lemma Glue<T>(x: seq<T>, y: seq<T>, z: seq<T>)
    ensures x + (y + z) == (x + y) + z
  {
  }

  lemma ArrivedFirst(run: seq<Action>, t: nat)
    requires run != []
    ensures Arrived(run, t) == Brings(run[0], t) + Arrived(run[1..], t)
  {
  }

  lemma {:induction false} ArrivedBoth(run: seq<Action>, run': seq<Action>, t: nat)
    ensures Arrived(run + run', t) == Arrived(run, t) + Arrived(run', t)
  {
    if run == [] {
      assert run + run' == run';
    } else {
      hide Arrived, Brings;
      ArrivedBoth(run[1..], run', t);
      ArrivedFirst(run, t);
      ArrivedFirst(run + run', t);
      FirstOfBoth(run, run');
      Glue(Brings(run[0], t), Arrived(run[1..], t), Arrived(run', t));
    }
  }

  lemma RunsOn(s: State, run: seq<Action>, s1: State, a: Action, lim: Limits)
    requires Inv(s, lim) && lim.maxObjSize <= lim.maxSize + 1 && Runs(s, run, s1, lim) && Inv(s1, lim) && Enabled(s1, a, lim)
    ensures Runs(s, run + [a], Next(s1, a, lim), lim) && Inv(Next(s1, a, lim), lim)
  {
    hide Inv, Enabled, Next;
    StepKeeps(s1, a, lim);
    assert [a][1..] == [];
    RunsBoth(s, run, s1, [a], Next(s1, a, lim), lim);
  }

  /** What one step brings to thread `t`. */
  function Brings(a: Action, t: nat): seq<byte> {
    if a.Chunk? && a.t == t then a.data else []
  }

  lemma ArrivedOn(run: seq<Action>, a: Action, t: nat)
    ensures Arrived(run + [a], t) == Arrived(run, t) + Brings(a, t)
  {
    assert [a][1..] == [];
    ArrivedBoth(run, [a], t);
  }

  /** `run` leads from `s` to `s1`, and the server of thread `t` has sent `body`; other threads have done nothing. */
  ghost predicate Leads(s: State, run: seq<Action>, s1: State, lim: Limits, t: nat, body: seq<byte>) {
    && Inv(s, lim) && lim.maxObjSize <= lim.maxSize + 1 && Runs(s, run, s1, lim) && Inv(s1, lim)
    && t < |s.threads| == |s1.threads| && Arrived(run, t) == body && (forall a :: a in run ==> a.t == t)
    && s1.threads == s.threads[t := s1.threads[t]] && s1.threads[t].key == s.threads[t].key
  }

  lemma LeadsOn(s: State, run: seq<Action>, s1: State, a: Action, lim: Limits, t: nat, body: seq<byte>)
    requires Leads(s, run, s1, lim, t, body) && a.t == t && Enabled(s1, a, lim)
    ensures Leads(s, run + [a], Next(s1, a, lim), lim, t, body + Brings(a, t))
  {
    hide Inv, Enabled, Runs, Arrived, Next, Brings;
    RunsOn(s, run, s1, a, lim);
    ArrivedOn(run, a, t);
    StepReceives(s1, a, lim, t);
    OnlyOwn(s1, a, lim);
  }

  lemma OnlyOwn(s: State, a: Action, lim: Limits)
    requires Inv(s, lim) && Enabled(s, a, lim)
    ensures var s' := Next(s, a, lim); a.t < |s.threads| == |s'.threads| && s'.threads == s.threads[a.t := s'.threads[a.t]]
  {
    assert ThreadInv(s.threads[a.t], s, lim);
    hide CacheInv, Fit, Contents, Position, Survivors, Copied;
  }

  /** A step other than `Chunk`. */
  lemma QuietOn(s: State, run: seq<Action>, s1: State, a: Action, lim: Limits, t: nat, body: seq<byte>) returns (s2: State)
    requires Leads(s, run, s1, lim, t, body) && a.t == t && Enabled(s1, a, lim) && !a.Chunk?
    ensures Inv(s1, lim) && s2 == Next(s1, a, lim) && Leads(s, run + [a], s2, lim, t, body)
  {
    s2 := Next(s1, a, lim);
    LeadsOn(s, run, s1, a, lim, t, body);
    assert body + [] == body;
  }

  /** A lock step. */
  lemma Locked(s: State, run: seq<Action>, s1: State, lim: Limits, t: nat, body: seq<byte>) returns (s2: State)
    requires Leads(s, run, s1, lim, t, body) && s1.lock == None && (s1.threads[t].pc == Begin || s1.threads[t].pc == Waiting)
    ensures Leads(s, run + [Lock(t)], s2, lim, t, body) && s2.list == s1.list && s2.heap == s1.heap
    ensures s2.threads[t] == s1.threads[t].(pc := if s1.threads[t].pc == Begin then Looking else Storing)
  {
    s2 := QuietOn(s, run, s1, Lock(t), lim, t, body);
  }

  lemma Unlocked(s: State, run: seq<Action>, s1: State, lim: Limits, t: nat, body: seq<byte>) returns (a: Action, s2: State)
    requires Leads(s, run, s1, lim, t, body) && s1.threads[t].pc in {Sent, Missed, Stored}
    ensures a.t == t && Leads(s, run + [a], s2, lim, t, body) && s2.list == s1.list && s2.heap == s1.heap && s2.lock == None
    ensures s2.threads[t].pc == (if s1.threads[t].pc == Missed then Fetching else Done) && s2.threads[t].sent == s1.threads[t].sent
  {
    a := Unlock(t, seq(lim.maxObjSize, _ => 0 as byte));
    s2 := QuietOn(s, run, s1, a, lim, t, body);
  }

  lemma StartRun(s: State, lim: Limits, t: nat)
    requires Inv(s, lim) && lim.maxObjSize <= lim.maxSize + 1 && t < |s.threads|
    ensures Leads(s, [], s, lim, t, [])
  {
  }

  /** A request for a cached object gets the most recent one, and nothing is fetched. */
  lemma Hits(s: State, t: nat, lim: Limits, i: nat) returns (run: seq<Action>, s': State)
    requires Inv(s, lim) && lim.maxObjSize <= lim.maxSize + 1 && t < |s.threads| && s.threads[t].pc == Begin && s.lock == None
    requires i < |s.list| && s.list[i] in s.heap && s.heap[s.list[i]].key == s.threads[t].key
    requires forall j :: 0 <= j < i ==> s.list[j] in s.heap && s.heap[s.list[j]].key != s.threads[t].key
    ensures Leads(s, run, s', lim, t, []) && s'.threads[t].pc == Done && s'.threads[t].sent == s.heap[s.list[i]].data && s'.lock == None
  {
    hide Inv, Leads, CacheInv;
    StartRun(s, lim, t);
    run := [];
    var s1 := Locked(s, run, s, lim, t, []);
    run := run + [Lock(t)];
    LeadsTo(s, run, s1, lim, t, []);
    var s2 := QuietOn(s, run, s1, Lookup(t), lim, t, []);
    run := run + [Lookup(t)];
    LookupKeeps(s1, t, lim);
    FirstOfKey(s1, s1.threads[t].key, s2.threads[t].pc, i);
    LookedUp(s1, t);
    LeadsTo(s, run, s2, lim, t, []);
    var s3 := QuietOn(s, run, s2, Send(t), lim, t, []);
    run := run + [Send(t)];
    var a;
    a, s' := Unlocked(s, run, s3, lim, t, []);
    run := run + [a];
  }

  lemma LeadsTo(s: State, run: seq<Action>, s1: State, lim: Limits, t: nat, body: seq<byte>)
    requires Leads(s, run, s1, lim, t, body)
    ensures Inv(s1, lim) && Allocated(s1) && t < |s.threads| == |s1.threads| && s1.threads[t].key == s.threads[t].key
    ensures ThreadInv(s1.threads[t], s1, lim)
  {
  }

  lemma FirstOfKey(s: State, key: Key, pc: Pc, i: nat)
    requires Allocated(s) && i < |s.list| && s.heap[s.list[i]].key == key && forall j :: 0 <= j < i ==> s.heap[s.list[j]].key != key
    requires pc == Missed ==> forall id :: id in s.list ==> s.heap[id].key != key
    requires pc != Missed ==> MostRecent(s, key, pc)
    ensures pc == Holding(s.list[i])
  {
    assert s.list[i] in s.list;
  }

  /** The response loop in one or no chunk, up to the end of the response. */
  lemma Fetches(s: State, run0: seq<Action>, s0: State, lim: Limits, t: nat, body: seq<byte>) returns (run: seq<Action>, s': State)
    requires Leads(s, run0, s0, lim, t, []) && s0.threads[t].pc == Fetching && s0.threads[t].received == []
    ensures Leads(s, run, s', lim, t, body) && s'.list == s0.list && s'.heap == s0.heap && s'.lock == s0.lock
    ensures s'.threads[t].pc == (if |body| < lim.maxObjSize then Waiting else Done) && s'.threads[t].sent == body
  {
    hide Inv, Leads, CacheInv, Copied, Runs;
    run, s' := run0, s0;
    LeadsTo(s, run, s', lim, t, []);
    if body != [] {
      var a := Chunk(t, body);
      s' := Next(s0, a, lim);
      LeadsOn(s, run, s0, a, lim, t, []);
      assert [] + body == body;
      run := run + [a];
      LeadsTo(s, run, s', lim, t, body);
    }
    s' := QuietOn(s, run, s', Eof(t), lim, t, body);
    run := run + [Eof(t)];
  }

  /** A request for an object that is not cached gets all that the server sends; below the limit the cache keeps it. */
  lemma Misses(s: State, t: nat, lim: Limits, body: seq<byte>) returns (run: seq<Action>, s': State)
    requires Inv(s, lim) && lim.maxObjSize <= lim.maxSize + 1 && t < |s.threads| && s.threads[t].pc == Begin && s.lock == None
    requires Allocated(s) && forall id :: id in s.list ==> s.heap[id].key != s.threads[t].key
    ensures Leads(s, run, s', lim, t, body) && s'.threads[t].pc == Done && s'.threads[t].sent == body && s'.lock == None
    ensures if |body| < lim.maxObjSize then InFront(s', s'.threads[t]) else s'.list == s.list && s'.heap == s.heap
  {
    hide Inv, Leads, CacheInv, Runs;
    StartRun(s, lim, t);
    LeadsTo(s, [], s, lim, t, []);
    run := [];
    var s1 := Locked(s, run, s, lim, t, []);
    run := run + [Lock(t)];
    LeadsTo(s, run, s1, lim, t, []);
    var s2 := QuietOn(s, run, s1, Lookup(t), lim, t, []);
    run := run + [Lookup(t)];
    LookupKeeps(s1, t, lim);
    LookedUp(s1, t);
    MissedSame(s1, t);
    var a, s3 := Unlocked(s, run, s2, lim, t, []);
    run := run + [a];
    LeadsTo(s, run, s3, lim, t, []);
    StillNothing(s, run, s3, lim, t);
    var s4;
    run, s4 := Fetches(s, run, s3, lim, t, body);
    s' := s4;
    if |body| < lim.maxObjSize {
      run, s' := Stores(s, run, s4, lim, t, body);
    }
  }

  lemma MissedSame(s: State, t: nat)
    requires t < |s.threads| && Allocated(s) && DoLookup(s, t).threads[t].pc == Missed
    ensures DoLookup(s, t).list == s.list
  {
  }

  lemma StillNothing(s: State, run: seq<Action>, s1: State, lim: Limits, t: nat)
    requires Leads(s, run, s1, lim, t, []) && s.threads[t].received == []
    ensures s1.threads[t].received == []
  {
    hide Inv, Runs, CacheInv;
    RunReceives(s, run, s1, lim, t);
  }

  lemma {:induction false} RunReceives(s: State, run: seq<Action>, s': State, lim: Limits, t: nat)
    requires Inv(s, lim) && lim.maxObjSize <= lim.maxSize + 1 && Runs(s, run, s', lim) && t < |s.threads|
    ensures |s'.threads| == |s.threads| && s'.threads[t].received == s.threads[t].received + Arrived(run, t)
    decreases |run|
  {
    if run != [] {
      EnabledThread(s, run[0], lim);
      hide Inv, Enabled, Next, Arrived;
      var s1 := Next(s, run[0], lim);
      StepKeeps(s, run[0], lim);
      StepReceives(s, run[0], lim, t);
      RunReceives(s1, run[1..], s', lim, t);
      ArrivedNext(run, t, s.threads[t].received, s1.threads[t].received, s'.threads[t].received);
    }
  }

  /** The end of a request whose response has been buffered. */
  lemma Stores(s: State, run0: seq<Action>, s0: State, lim: Limits, t: nat, body: seq<byte>) returns (run: seq<Action>, s': State)
    requires Leads(s, run0, s0, lim, t, body) && s0.threads[t].pc == Waiting && s0.threads[t].sent == body && s0.lock == None
    ensures Leads(s, run, s', lim, t, body) && s'.threads[t].pc == Done && s'.threads[t].sent == body && s'.lock == None
    ensures InFront(s', s'.threads[t])
  {
    hide Inv, Leads, CacheInv, Runs, InFront, DoStore;
    run := run0;
    var s1 := Locked(s, run, s0, lim, t, body);
    run := run + [Lock(t)];
    LeadsTo(s, run, s1, lim, t, body);
    StoreReady(s1, t, lim);
    StoreThread(s1, t, lim);
    var s2 := QuietOn(s, run, s1, Store(t), lim, t, body);
    run := run + [Store(t)];
    LeadsTo(s, run, s2, lim, t, body);
    var a;
    a, s' := Unlocked(s, run, s2, lim, t, body);
    run := run + [a];
    LeadsTo(s, run, s', lim, t, body);
    FrontSame(s2, s', t);
  }

  lemma StoreThread(s: State, t: nat, lim: Limits)
    requires Allocated(s) && t < |s.threads| && s.threads[t].len <= |s.threads[t].buf|
    ensures var s' := DoStore(s, t, lim);
      |s'.threads| == |s.threads| && s'.threads[t] == s.threads[t].(pc := Stored)
  {
    hide Fit, Contents, Survivors;
  }

  lemma FrontSame(s: State, s': State, t: nat)
    requires t < |s.threads| == |s'.threads| && InFront(s, s.threads[t]) && s'.list == s.list && s'.heap == s.heap
    requires s'.threads[t].key == s.threads[t].key && s'.threads[t].sent == s.threads[t].sent
    ensures InFront(s', s'.threads[t])
  {
  }

  /** What one thread has fetched another one gets from the cache: its server sends nothing. */
  lemma SecondRequestHits(keys: seq<Key>, t: nat, u: nat, body: seq<byte>, lim: Limits) returns (run: seq<Action>, s: State)
    requires t < |keys| && u < |keys| && t != u && keys[t] == keys[u] && |body| < lim.maxObjSize <= lim.maxSize + 1
    ensures Inv(Init(keys), lim) && Runs(Init(keys), run, s, lim) && |s.threads| == |keys|
    ensures Arrived(run, t) == body && Arrived(run, u) == []
    ensures s.threads[t].pc == Done && s.threads[t].sent == body && s.threads[u].pc == Done && s.threads[u].sent == body
  {
    hide Inv, Runs, Leads, CacheInv;
    InitInv(keys, lim);
    var s0 := Init(keys);
    var first, s1 := Misses(s0, t, lim, body);
    LeadsTo(s0, first, s1, lim, t, body);
    OthersWait(s0, first, s1, lim, t, body, u);
    var second;
    second, s := Hits(s1, u, lim, 0);
    run := first + second;
    Composed(s0, first, s1, second, s, lim, t, u, body);
  }

  lemma OthersWait(s: State, run: seq<Action>, s1: State, lim: Limits, t: nat, body: seq<byte>, u: nat)
    requires Leads(s, run, s1, lim, t, body) && u < |s.threads| && u != t
    ensures u < |s1.threads| && s1.threads[u] == s.threads[u] && Inv(s1, lim) && Arrived(run, u) == []
    ensures Inv(s, lim) && Runs(s, run, s1, lim) && lim.maxObjSize <= lim.maxSize + 1 && Arrived(run, t) == body
    ensures t < |s.threads| == |s1.threads| && s1.threads[t].key == s.threads[t].key
  {
    hide Inv, Runs;
    ArrivedNone(run, u);
  }

  lemma {:induction false} ArrivedNone(run: seq<Action>, u: nat)
    requires forall a :: a in run ==> a.t != u
    ensures Arrived(run, u) == []
  {
    if run != [] {
      assert run[0] in run;
      ArrivedNone(run[1..], u);
    }
  }

  lemma Composed(s0: State, first: seq<Action>, s1: State, second: seq<Action>, s: State, lim: Limits, t: nat, u: nat, body: seq<byte>)
    requires Leads(s0, first, s1, lim, t, body) && Leads(s1, second, s, lim, u, []) && t != u && u < |s0.threads|
    ensures Inv(s0, lim) && lim.maxObjSize <= lim.maxSize + 1 && Runs(s0, first + second, s, lim) && |s.threads| == |s0.threads|
    ensures Arrived(first + second, t) == body && Arrived(first + second, u) == []
    ensures t < |s.threads| == |s1.threads| && s.threads[t] == s1.threads[t]
  {
    OthersWait(s0, first, s1, lim, t, body, u);
    OthersWait(s1, second, s, lim, u, [], t);
    LeadsArrived(s1, second, s, lim, u);
    hide Inv, Leads;
    RunsBoth(s0, first, s1, second, s, lim);
    ArrivedBoth(first, second, t);
    ArrivedBoth(first, second, u);
  }

  lemma LeadsArrived(s: State, run: seq<Action>, s1: State, lim: Limits, t: nat)
    requires Leads(s, run, s1, lim, t, [])
    ensures Arrived(run, t) == []
  {
  }
}
