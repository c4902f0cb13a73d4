/** Request threads that share one cache, as interleaved steps. The semaphore is held around lookup and around
    insertion, and given up while the response is fetched. Objects live in `heap`; eviction frees them. */
module Protocol {
  import opened Bytes
  import opened Lru

  datatype Option<T> = None | Some(value: T)

  /** Where a thread stands. The thread holds the semaphore from `Looking` to `Sent` or `Missed`, and from
      `Storing` to `Stored`. */
  datatype Pc = Begin | Looking | Holding(id: nat) | Sent | Missed | Fetching | Waiting | Storing | Stored | Done

  /** `buf` and `len` are `cache_data` and `cache_len`; `received` is what the server has sent so far. */
  datatype Thread = Thread(pc: Pc, key: Key, buf: seq<byte>, len: nat, sent: seq<byte>, received: seq<byte>)

  datatype State = State(
    lock: Option<nat>,
    list: seq<nat>,
    heap: map<nat, Entry>,
    next: nat,
    threads: seq<Thread>,
    complete: set<(Key, seq<byte>)>,
    stored: set<(Key, seq<byte>)>
  )

  /** `Chunk` carries what arrives from the server, `Unlock` the initial contents of a fresh buffer. */
  datatype Action = Lock(t: nat) | Lookup(t: nat) | Send(t: nat) | Unlock(t: nat, garbage: seq<byte>)
                  | Chunk(t: nat, data: seq<byte>) | Eof(t: nat) | Store(t: nat)

  datatype Limits = Limits(maxSize: int, maxObjSize: nat)

  /** The cached objects. */
  function Contents(list: seq<nat>, heap: map<nat, Entry>): (es: seq<Entry>)
    requires forall id :: id in list ==> id in heap
    ensures |es| == |list| && forall i :: 0 <= i < |list| ==> es[i] == heap[list[i]]
  {
    seq(|list|, i requires 0 <= i < |list| => heap[list[i]])
  }

  predicate Allocated(s: State) {
    forall id :: id in s.list ==> id in s.heap
  }

  function Set(s: State, t: nat, th: Thread): State
    requires t < |s.threads|
  {
    s.(threads := s.threads[t := th])
  }

  /** `memcpy(cache_data + at, chunk)` */
  function Copied(buf: seq<byte>, at: nat, chunk: seq<byte>): seq<byte>
    requires at + |chunk| <= |buf|
  {
    buf[..at] + chunk + buf[at + |chunk|..]
  }

  /** One pass of the response loop. */
  function Received(th: Thread, chunk: seq<byte>, lim: Limits): Thread
    requires |th.buf| == lim.maxObjSize
  {
    var buf := if th.len + |chunk| < lim.maxObjSize then Copied(th.buf, th.len, chunk) else th.buf;
    th.(buf := buf, len := th.len + |chunk|, sent := th.sent + chunk, received := th.received + chunk)
  }

  /** Can this step happen? */
  ghost predicate Enabled(s: State, a: Action, lim: Limits) {
    && a.t < |s.threads|
    && var th := s.threads[a.t];
      match a
      case Lock(t) => (th.pc == Begin || th.pc == Waiting) && s.lock == None
      case Lookup(t) => th.pc == Looking
      case Send(t) => th.pc.Holding?
      case Unlock(t, garbage) => th.pc in {Sent, Missed, Stored} && |garbage| == lim.maxObjSize
      case Chunk(t, data) => th.pc == Fetching && data != []
      case Eof(t) => th.pc == Fetching
      case Store(t) => th.pc == Storing
  }

  /** `find_cache` by thread `t`. */
  function DoLookup(s: State, t: nat): State
    requires t < |s.threads| && Allocated(s)
  {
    var th := s.threads[t];
    var es := Contents(s.list, s.heap);
    var i := Position(es, th.key);
    if i < |s.list| then
      Set(s.(list := [s.list[i]] + s.list[..i] + s.list[i + 1..]), t, th.(pc := Holding(s.list[i])))
    else
      Set(s, t, th.(pc := Missed))
  }

  /** `new_object` and `push_front` by thread `t`: the new object, and eviction from the tail. */
  function DoStore(s: State, t: nat, lim: Limits): State
    requires t < |s.threads| && Allocated(s) && s.threads[t].len <= |s.threads[t].buf|
  {
    var th := s.threads[t];
    var e := Entry(th.key, th.buf[..th.len]);
    if lim.maxObjSize < |e.data| then
      Set(s, t, th.(pc := Stored))
    else
      var n := |Fit(Contents(s.list, s.heap), lim.maxSize - |e.data|)|;
      FitLongest(Contents(s.list, s.heap), lim.maxSize - |e.data|);
      Set(s.(list := [s.next] + s.list[..n], heap := Survivors(s.list, s.heap, n)[s.next := e], next := s.next + 1,
             stored := s.stored + {(th.key, e.data)}), t, th.(pc := Stored))
  }

  /** The effect of an enabled step. A freed object cannot be read: what `Send` would send is then unspecified,
      here empty. */
  ghost function Next(s: State, a: Action, lim: Limits): State
    requires Enabled(s, a, lim) && Inv(s, lim)
  {
    var t, th := a.t, s.threads[a.t];
    match a
    case Lock(_) => Set(s.(lock := Some(t)), t, th.(pc := if th.pc == Begin then Looking else Storing))
    case Lookup(_) => DoLookup(s, t)
    case Send(_) => Set(s, t, th.(pc := Sent, sent := if th.pc.id in s.heap then s.heap[th.pc.id].data else []))
    case Unlock(_, garbage) =>
      var s' := s.(lock := None);
      if th.pc == Missed then Set(s', t, th.(pc := Fetching, buf := garbage)) else Set(s', t, th.(pc := Done))
    case Chunk(_, data) => Set(s, t, Received(th, data, lim))
    case Eof(_) =>
      Set(s.(complete := s.complete + {(th.key, th.received)}), t, th.(pc := if th.len < lim.maxObjSize then Waiting else Done))
    case Store(_) => DoStore(s, t, lim)
  }

  // ---------- the invariant ----------

  predicate Holds(pc: Pc) {
    pc in {Looking, Sent, Missed, Storing, Stored} || pc.Holding?
  }

  /** What is true of a thread, whatever the others do. */
  ghost predicate ThreadInv(th: Thread, s: State, lim: Limits) {
    match th.pc
    case Begin | Looking | Missed => th.len == 0 && th.sent == [] && th.received == []
    case Holding(id) => id in s.list && id in s.heap && s.heap[id].key == th.key && th.received == []
    case Sent => (th.key, th.sent) in s.stored && th.received == []
    case Fetching => Buffered(th, lim)
    case Waiting | Storing => Buffered(th, lim) && th.len < lim.maxObjSize && (th.key, th.received) in s.complete
    case Stored => th.sent == th.received && (th.key, th.sent) in s.stored && InFront(s, th)
    case Done => Finished(th, s, lim)
  }

  /** The response has become the most recent object. */
  ghost predicate InFront(s: State, th: Thread) {
    s.list != [] && s.list[0] in s.heap && s.heap[s.list[0]] == Entry(th.key, th.sent)
  }

  /** The client has a complete response, from the server or from the cache; below the limit it has been stored. */
  ghost predicate Finished(th: Thread, s: State, lim: Limits) {
    && (th.key, th.sent) in s.complete
    && (|th.sent| < lim.maxObjSize ==> (th.key, th.sent) in s.stored)
    && (th.sent == th.received || (th.received == [] && (th.key, th.sent) in s.stored))
  }

  /** The client has everything received; so has the buffer, as long as the limit is not reached. */
  ghost predicate Buffered(th: Thread, lim: Limits) {
    && th.sent == th.received && th.len == |th.received| && |th.buf| == lim.maxObjSize
    && (th.len < lim.maxObjSize ==> th.buf[..th.len] == th.received)
  }

  /** The allocated objects are those in the list, each once. */
  ghost predicate Listed(list: seq<nat>, heap: map<nat, Entry>, next: nat) {
    && (forall i, j :: 0 <= i < j < |list| ==> list[i] != list[j])
    && (forall id :: id in heap <==> id in list)
    && (forall id :: id in list ==> id < next)
  }

  ghost predicate CacheInv(s: State, lim: Limits) {
    && Listed(s.list, s.heap, s.next)
    && Bounded(Contents(s.list, s.heap), lim.maxSize, lim.maxObjSize)
    && (forall id :: id in s.list ==> (s.heap[id].key, s.heap[id].data) in s.stored)
    && s.stored <= s.complete
  }

  ghost predicate Inv(s: State, lim: Limits) {
    && CacheInv(s, lim)
    && (forall t :: 0 <= t < |s.threads| ==> ThreadInv(s.threads[t], s, lim))
    && (forall t :: 0 <= t < |s.threads| ==> (Holds(s.threads[t].pc) <==> s.lock == Some(t)))
    && (s.lock.Some? ==> s.lock.value < |s.threads|)
  }

  /** Threads about to handle requests for `keys`, and an empty cache. */
  function Init(keys: seq<Key>): State {
    State(None, [], map[], 0, seq(|keys|, i requires 0 <= i < |keys| => Thread(Begin, keys[i], [], 0, [], [])), {}, {})
  }

  // ---------- every step keeps the invariant ----------

  /** The other threads do not notice a step that keeps the objects they hold and forgets no history. */
  lemma OthersKeep(s: State, s': State, t: nat, lim: Limits)
    requires Inv(s, lim) && t < |s.threads| && |s'.threads| == |s.threads|
    requires forall u :: 0 <= u < |s.threads| && u != t ==> s'.threads[u] == s.threads[u]
    requires s.stored <= s'.stored && s.complete <= s'.complete
    requires (s'.list == s.list && s'.heap == s.heap) || s.lock == Some(t)
    ensures forall u :: 0 <= u < |s.threads| && u != t ==> ThreadInv(s'.threads[u], s', lim)
  {
    forall u | 0 <= u < |s.threads| && u != t ensures ThreadInv(s'.threads[u], s', lim) {
      assert ThreadInv(s.threads[u], s, lim) && (Holds(s.threads[u].pc) <==> s.lock == Some(u));
    }
  }

  /** The thread holds the first object of the list with this key. */
  ghost predicate MostRecent(s: State, key: Key, pc: Pc)
    requires Allocated(s)
  {
    && pc.Holding?
    && exists i :: 0 <= i < |s.list| && s.list[i] == pc.id && s.heap[s.list[i]].key == key
         && forall j :: 0 <= j < i ==> s.heap[s.list[j]].key != key
  }

  lemma LookupFinds(s: State, t: nat)
    requires t < |s.threads| && Allocated(s)
    ensures DoLookup(s, t).threads[t].pc == Missed <==> forall id :: id in s.list ==> s.heap[id].key != s.threads[t].key
    ensures DoLookup(s, t).threads[t].pc != Missed ==> MostRecent(s, s.threads[t].key, DoLookup(s, t).threads[t].pc)
  {
    hide Position;
    var key, es := s.threads[t].key, Contents(s.list, s.heap);
    var i := Position(es, key);
    forall j | 0 <= j < |s.list| ensures s.heap[s.list[j]] == es[j] {
    }
    if i < |s.list| {
      assert s.list[i] in s.list && s.heap[s.list[i]].key == key;
    } else {
      forall id | id in s.list ensures s.heap[id].key != key {
        var j :| 0 <= j < |s.list| && s.list[j] == id;
        assert es[j].key != key;
      }
    }
  }

  lemma LookedUp(s: State, t: nat)
    requires t < |s.threads| && Allocated(s)
    ensures DoLookup(s, t).heap == s.heap && |DoLookup(s, t).threads| == |s.threads|
    ensures DoLookup(s, t).threads[t] == s.threads[t].(pc := DoLookup(s, t).threads[t].pc)
  {
  }

  lemma LookupKeeps(s: State, t: nat, lim: Limits)
    requires Inv(s, lim) && t < |s.threads| && s.threads[t].pc == Looking
    ensures CacheInv(DoLookup(s, t), lim) && ThreadInv(DoLookup(s, t).threads[t], DoLookup(s, t), lim)
    ensures Contents(DoLookup(s, t).list, s.heap) == Find(Contents(s.list, s.heap), s.threads[t].key)
    ensures DoLookup(s, t).threads[t].pc == Missed <==> forall id :: id in s.list ==> s.heap[id].key != s.threads[t].key
    ensures DoLookup(s, t).threads[t].pc != Missed ==> MostRecent(s, s.threads[t].key, DoLookup(s, t).threads[t].pc)
  {
    hide Sum, Bounded, Position, Inv, Listed, Contents;
    InvAt(s, t, lim);
    LookupFinds(s, t);
    var th, es, s' := s.threads[t], Contents(s.list, s.heap), DoLookup(s, t);
    var i := Position(es, th.key);
    if i < |s.list| {
      FindBounded(es, th.key, lim.maxSize, lim.maxObjSize);
      RotatedListed(s.list, s.heap, s.next, i);
      RotatedContents(s.list, s'.list, s.heap, i);
    }
  }

  lemma RotatedListed(xs: seq<nat>, heap: map<nat, Entry>, next: nat, i: nat)
    requires Listed(xs, heap, next) && i < |xs|
    ensures var ys := [xs[i]] + xs[..i] + xs[i + 1..]; Listed(ys, heap, next) && forall x :: x in ys <==> x in xs
  {
    Rotated(xs, i);
  }

  lemma RotatedContents(xs: seq<nat>, ys: seq<nat>, heap: map<nat, Entry>, i: nat)
    requires i < |xs| && ys == [xs[i]] + xs[..i] + xs[i + 1..]
    requires (forall id :: id in xs ==> id in heap) && (forall id :: id in ys ==> id in heap)
    ensures Contents(ys, heap) == Touch(Contents(xs, heap), i)
  {
  }

  lemma Rotated(xs: seq<nat>, i: nat)
    requires i < |xs| && forall j, k :: 0 <= j < k < |xs| ==> xs[j] != xs[k]
    ensures var ys := [xs[i]] + xs[..i] + xs[i + 1..];
      && (forall j, k :: 0 <= j < k < |ys| ==> ys[j] != ys[k])
      && forall x :: x in ys <==> x in xs
  {
    var ys := [xs[i]] + xs[..i] + xs[i + 1..];
    forall j, k | 0 <= j < k < |ys| ensures ys[j] != ys[k] {
      var j', k' := if j == 0 then i else if j <= i then j - 1 else j, if k <= i then k - 1 else k;
      assert ys[j] == xs[j'] && ys[k] == xs[k'];
    }
    assert xs == xs[..i] + [xs[i]] + xs[i + 1..];
  }

  /** The objects that survive: the first `n` of the list. */
  function Survivors(list: seq<nat>, heap: map<nat, Entry>, n: nat): map<nat, Entry>
    requires n <= |list|
  {
    heap - set id | id in list && id !in list[..n]
  }

  lemma SurvivorsListed(list: seq<nat>, heap: map<nat, Entry>, next: nat, n: nat)
    requires Listed(list, heap, next) && n <= |list|
    ensures var heap' := Survivors(list, heap, n);
      && Listed(list[..n], heap', next)
      && forall id :: id in list[..n] ==> id in list && id in heap' && heap'[id] == heap[id]
  {
    assert forall id :: id in list[..n] ==> id in list;
  }

  lemma FrontListed(list: seq<nat>, heap: map<nat, Entry>, next: nat, e: Entry)
    requires Listed(list, heap, next)
    ensures Listed([next] + list, heap[next := e], next + 1)
    ensures forall id :: id in list ==> id in heap && id != next
  {
    var ys := [next] + list;
    forall j, k | 0 <= j < k < |ys| ensures ys[j] != ys[k] {
      assert ys[k] == list[k - 1] && ys[k] in list;
    }
  }

  lemma AddedListed(list: seq<nat>, heap: map<nat, Entry>, next: nat, e: Entry)
    requires Listed(list, heap, next)
    ensures Listed([next] + list, heap[next := e], next + 1)
    ensures Contents([next] + list, heap[next := e]) == [e] + Contents(list, heap)
    ensures forall id :: id in list ==> heap[next := e][id] == heap[id]
  {
    FrontListed(list, heap, next, e);
    hide Listed;
    var ys := [next] + list;
    forall i | 0 < i < |ys| ensures heap[next := e][ys[i]] == heap[list[i - 1]] {
      assert ys[i] == list[i - 1] && list[i - 1] in list;
    }
  }

  /** Keep the first `n` objects, free the others, and put a new one in front. */
  lemma PushedObjects(list: seq<nat>, heap: map<nat, Entry>, next: nat, n: nat, e: Entry)
    requires Listed(list, heap, next) && n <= |list|
    ensures var heap' := Survivors(list, heap, n)[next := e];
      && Listed([next] + list[..n], heap', next + 1)
      && Contents([next] + list[..n], heap') == [e] + Contents(list, heap)[..n]
      && forall id :: id in list[..n] ==> id in list && heap'[id] == heap[id]
  {
    SurvivorsListed(list, heap, next, n);
    hide Survivors;
    var heap1 := Survivors(list, heap, n);
    AddedListed(list[..n], heap1, next, e);
    forall i | 0 <= i < n ensures Contents(list[..n], heap1)[i] == Contents(list, heap)[i] {
      assert list[..n][i] == list[i] && list[i] in list[..n];
    }
    assert Contents(list[..n], heap1) == Contents(list, heap)[..n];
  }

  lemma StoreKeeps(s: State, t: nat, lim: Limits)
    requires Inv(s, lim) && t < |s.threads| && s.threads[t].pc == Storing && lim.maxObjSize <= lim.maxSize + 1
    requires s.threads[t].len <= |s.threads[t].buf|
    ensures CacheInv(DoStore(s, t, lim), lim) && ThreadInv(DoStore(s, t, lim).threads[t], DoStore(s, t, lim), lim)
    ensures s.stored <= DoStore(s, t, lim).stored
    ensures var th, s' := s.threads[t], DoStore(s, t, lim);
      Contents(s'.list, s'.heap) == Push(Contents(s.list, s.heap), Entry(th.key, th.received), lim.maxSize, lim.maxObjSize)
  {
    hide Sum, Bounded, Fit, Contents, Inv, Listed, Survivors;
    InvAt(s, t, lim);
    var th, es := s.threads[t], Contents(s.list, s.heap);
    var e := Entry(th.key, th.buf[..th.len]);
    var f := Fit(es, lim.maxSize - |e.data|);
    FitLongest(es, lim.maxSize - |e.data|);
    PushBounded(es, e, lim.maxSize, lim.maxObjSize);
    PushedObjects(s.list, s.heap, s.next, |f|, e);
    assert f == es[..|f|];
  }

  lemma ChunkKeeps(th: Thread, chunk: seq<byte>, lim: Limits)
    requires Buffered(th, lim)
    ensures Buffered(Received(th, chunk, lim), lim)
  {
  }

  /** What a step of thread `t` must establish; `OthersKeep` adds the rest. */
  ghost predicate Local(s: State, s': State, t: nat, lim: Limits) {
    && t < |s.threads| && |s'.threads| == |s.threads|
    && (forall u :: 0 <= u < |s.threads| && u != t ==> s'.threads[u] == s.threads[u])
    && s.stored <= s'.stored && s.complete <= s'.complete
    && ((s'.list == s.list && s'.heap == s.heap) || s.lock == Some(t))
    && CacheInv(s', lim) && ThreadInv(s'.threads[t], s', lim)
    && (Holds(s'.threads[t].pc) <==> s'.lock == Some(t))
    && (s'.lock == s.lock || (s.lock == None && s'.lock == Some(t)) || (s.lock == Some(t) && s'.lock == None))
  }

  lemma LocalKeeps(s: State, s': State, t: nat, lim: Limits)
    requires Inv(s, lim) && Local(s, s', t, lim)
    ensures Inv(s', lim)
  {
    hide CacheInv, Bounded;
    OthersKeep(s, s', t, lim);
    forall u | 0 <= u < |s'.threads| ensures Holds(s'.threads[u].pc) <==> s'.lock == Some(u) {
      assert Holds(s.threads[u].pc) <==> s.lock == Some(u);
    }
  }

  /** A step that changes only its own thread and the semaphore, and adds to the history. */
  lemma QuietStep(s: State, s': State, t: nat, lim: Limits)
    requires CacheInv(s, lim) && s'.list == s.list && s'.heap == s.heap && s'.next == s.next
    requires s'.stored == s.stored && s.complete <= s'.complete
    ensures CacheInv(s', lim)
  {
  }

  lemma LockStep(s: State, a: Action, lim: Limits)
    requires Inv(s, lim) && Enabled(s, a, lim) && (a.Lock? || a.Unlock? || a.Send?)
    ensures Local(s, Next(s, a, lim), a.t, lim)
  {
    hide Inv, Listed, Bounded, Contents;
    InvAt(s, a.t, lim);
    SendsStored(s, lim, s.threads[a.t]);
    QuietStep(s, Next(s, a, lim), a.t, lim);
  }

  lemma SendsStored(s: State, lim: Limits, th: Thread)
    requires CacheInv(s, lim) && ThreadInv(th, s, lim)
    ensures th.pc.Holding? ==> (th.key, s.heap[th.pc.id].data) in s.stored
    ensures th.pc == Sent ==> (th.key, th.sent) in s.complete
  {
  }

  lemma FetchStep(s: State, a: Action, lim: Limits)
    requires Inv(s, lim) && Enabled(s, a, lim) && (a.Chunk? || a.Eof?)
    ensures Local(s, Next(s, a, lim), a.t, lim)
  {
    assert ThreadInv(s.threads[a.t], s, lim) && (Holds(s.threads[a.t].pc) <==> s.lock == Some(a.t));
    if a.Chunk? {
      ChunkKeeps(s.threads[a.t], a.data, lim);
    }
    hide Listed, Bounded, Contents;
    QuietStep(s, Next(s, a, lim), a.t, lim);
  }

  lemma InvAt(s: State, t: nat, lim: Limits)
    requires Inv(s, lim) && t < |s.threads|
    ensures CacheInv(s, lim) && Allocated(s) && ThreadInv(s.threads[t], s, lim) && (Holds(s.threads[t].pc) <==> s.lock == Some(t))
  {
  }

  lemma LookupStep(s: State, t: nat, lim: Limits)
    requires Inv(s, lim) && t < |s.threads| && s.threads[t].pc == Looking
    ensures Local(s, DoLookup(s, t), t, lim)
  {
    hide CacheInv, ThreadInv, Inv, Contents, Position, Fit;
    InvAt(s, t, lim);
    LookupKeeps(s, t, lim);
  }

  lemma StoreStep(s: State, t: nat, lim: Limits)
    requires Inv(s, lim) && t < |s.threads| && s.threads[t].pc == Storing && lim.maxObjSize <= lim.maxSize + 1
    requires s.threads[t].len <= |s.threads[t].buf|
    ensures Local(s, DoStore(s, t, lim), t, lim)
  {
    hide CacheInv, ThreadInv, Inv, Contents, Position, Fit;
    InvAt(s, t, lim);
    StoreKeeps(s, t, lim);
  }

  /** What a step does to the cache, and to the thread that looks something up. */
  ghost predicate StepMeans(s: State, a: Action, s': State, lim: Limits)
    requires a.t < |s.threads| && a.t < |s'.threads| && Allocated(s) && Allocated(s')
  {
    var th, th', es, es' := s.threads[a.t], s'.threads[a.t], Contents(s.list, s.heap), Contents(s'.list, s'.heap);
    match a
    case Lookup(_) =>
      && es' == Find(es, th.key) && s'.heap == s.heap
      && (th'.pc == Missed <==> forall id :: id in s.list ==> s.heap[id].key != th.key)
      && (th'.pc != Missed ==> MostRecent(s, th.key, th'.pc))
    case Store(_) => es' == Push(es, Entry(th.key, th.received), lim.maxSize, lim.maxObjSize)
    case _ => s'.list == s.list && s'.heap == s.heap
  }

  lemma QuietMeaning(s: State, a: Action, lim: Limits)
    requires Inv(s, lim) && Enabled(s, a, lim) && !a.Lookup? && !a.Store?
    ensures Next(s, a, lim).list == s.list && Next(s, a, lim).heap == s.heap
  {
  }

  lemma StepMeaning(s: State, a: Action, lim: Limits)
    requires Inv(s, lim) && Enabled(s, a, lim) && lim.maxObjSize <= lim.maxSize + 1
    requires var s' := Next(s, a, lim); |s'.threads| == |s.threads| && Allocated(s) && Allocated(s') && a.t < |s.threads|
    ensures StepMeans(s, a, Next(s, a, lim), lim)
  {
    hide Inv, CacheInv, ThreadInv, Bounded, Contents, Received, Sum, Fit, Position, Listed, MostRecent, Find, Push, DoLookup, DoStore;
    if a.Lookup? {
      LookedUp(s, a.t);
      LookupKeeps(s, a.t, lim);
    } else if a.Store? {
      StoreReady(s, a.t, lim);
      StoreKeeps(s, a.t, lim);
    } else {
      QuietMeaning(s, a, lim);
    }
  }

  lemma StoreReady(s: State, t: nat, lim: Limits)
    requires Inv(s, lim) && t < |s.threads| && s.threads[t].pc == Storing
    ensures s.threads[t].len <= |s.threads[t].buf|
  {
    assert ThreadInv(s.threads[t], s, lim);
  }

  /** Any step of any thread keeps the invariant, and does to the cache what it is for. */
  lemma StepKeeps(s: State, a: Action, lim: Limits)
    requires Inv(s, lim) && Enabled(s, a, lim) && lim.maxObjSize <= lim.maxSize + 1
    ensures Inv(Next(s, a, lim), lim)
    ensures var s' := Next(s, a, lim); a.t < |s.threads| == |s'.threads| && Allocated(s) && Allocated(s') && StepMeans(s, a, s', lim)
  {
    assert ThreadInv(s.threads[a.t], s, lim) && (Holds(s.threads[a.t].pc) <==> s.lock == Some(a.t));
    hide Bounded, Contents, Received, Sum, Fit, Position, Listed;
    match a {
      case Lookup(t) => LookupStep(s, t, lim);
      case Store(t) => StoreStep(s, t, lim);
      case Chunk(_, _) => FetchStep(s, a, lim);
      case Eof(_) => FetchStep(s, a, lim);
      case _ => LockStep(s, a, lim);
    }
    LocalKeeps(s, Next(s, a, lim), a.t, lim);
    InvAt(s, a.t, lim);
    InvAt(Next(s, a, lim), a.t, lim);
    hide *;
    StepMeaning(s, a, lim);
  }

  /** `run` is a sequence of enabled steps from `s` to `s'`, in any interleaving. */
  ghost predicate Runs(s: State, run: seq<Action>, s': State, lim: Limits)
    requires Inv(s, lim) && lim.maxObjSize <= lim.maxSize + 1
    decreases |run|
  {
    if run == [] then s' == s
    else Enabled(s, run[0], lim) && (StepKeeps(s, run[0], lim); Runs(Next(s, run[0], lim), run[1..], s', lim))
  }

  /** In every state of every interleaving: the cache is within bounds and holds only complete responses; an object in
      use is still allocated; and what a finished client received is a complete response for its key. */
  lemma {:induction false} Safety(s: State, run: seq<Action>, s': State, lim: Limits)
    requires Inv(s, lim) && lim.maxObjSize <= lim.maxSize + 1 && Runs(s, run, s', lim)
    ensures Inv(s', lim)
    decreases |run|
  {
    if run != [] {
      StepKeeps(s, run[0], lim);
      Safety(Next(s, run[0], lim), run[1..], s', lim);
    }
  }

  /** What the server sent to thread `t`. */
  function Arrived(run: seq<Action>, t: nat): seq<byte> {
    if run == [] then [] else (if run[0].Chunk? && run[0].t == t then run[0].data else []) + Arrived(run[1..], t)
  }

  /** A complete response is what the server sent to some thread that has seen its end. */
  ghost predicate Origin(th: Thread, e: (Key, seq<byte>)) {
    th.pc in {Waiting, Storing, Stored, Done} && e == (th.key, th.received)
  }

  ghost predicate Origins(s: State) {
    forall e :: e in s.complete ==> exists t :: 0 <= t < |s.threads| && Origin(s.threads[t], e)
  }

  lemma StepReceives(s: State, a: Action, lim: Limits, t: nat)
    requires Inv(s, lim) && Enabled(s, a, lim) && t < |s.threads|
    ensures var s' := Next(s, a, lim);
      && |s'.threads| == |s.threads| && s'.threads[t].key == s.threads[t].key
      && s'.threads[t].received == s.threads[t].received + (if a.Chunk? && a.t == t then a.data else [])
      && (s'.complete == s.complete || (a.Eof? && s'.complete == s.complete + {(s.threads[a.t].key, s.threads[a.t].received)}))
      && (s.threads[t].pc in {Waiting, Storing, Stored, Done} ==>
           s'.threads[t].pc in {Waiting, Storing, Stored, Done} && s'.threads[t].received == s.threads[t].received)
      && (a.Eof? ==> s'.threads[a.t].pc in {Waiting, Done} && s'.threads[a.t].received == s.threads[a.t].received)
  {
    hide CacheInv, Fit, Contents, Position, Survivors, Copied;
    assert ThreadInv(s.threads[a.t], s, lim);
  }

  lemma EnabledThread(s: State, a: Action, lim: Limits)
    requires Enabled(s, a, lim)
    ensures a.t < |s.threads|
  {
  }

  lemma ArrivedNext(run: seq<Action>, t: nat, r0: seq<byte>, r1: seq<byte>, r2: seq<byte>)
    requires run != [] && r1 == r0 + (if run[0].Chunk? && run[0].t == t then run[0].data else []) && r2 == r1 + Arrived(run[1..], t)
    ensures r2 == r0 + Arrived(run, t)
  {
  }

  lemma StepOrigins(s: State, a: Action, lim: Limits)
    requires Inv(s, lim) && Enabled(s, a, lim) && Origins(s)
    ensures Origins(Next(s, a, lim))
  {
    EnabledThread(s, a, lim);
    hide Inv, Enabled, Next;
    StepReceives(s, a, lim, a.t);
    var s' := Next(s, a, lim);
    forall e | e in s'.complete ensures exists t :: 0 <= t < |s'.threads| && Origin(s'.threads[t], e) {
      if e in s.complete {
        var t :| 0 <= t < |s.threads| && Origin(s.threads[t], e);
        StepReceives(s, a, lim, t);
        assert Origin(s'.threads[t], e);
      } else {
        assert Origin(s'.threads[a.t], e);
      }
    }
  }

  /** Each thread has received what its server sent, and complete responses come from servers. */
  lemma {:induction false} History(s: State, run: seq<Action>, s': State, lim: Limits)
    requires Inv(s, lim) && lim.maxObjSize <= lim.maxSize + 1 && Runs(s, run, s', lim) && Origins(s)
    ensures |s'.threads| == |s.threads| && Origins(s')
    ensures forall t :: 0 <= t < |s.threads| ==> s'.threads[t].received == s.threads[t].received + Arrived(run, t)
    ensures forall t :: 0 <= t < |s.threads| ==> s'.threads[t].key == s.threads[t].key
    decreases |run|
  {
    if run != [] {
      EnabledThread(s, run[0], lim);
      hide Inv, Enabled, Next, Origins, Arrived;
      var s1 := Next(s, run[0], lim);
      StepKeeps(s, run[0], lim);
      StepOrigins(s, run[0], lim);
      StepReceives(s, run[0], lim, run[0].t);
      History(s1, run[1..], s', lim);
      forall t | 0 <= t < |s.threads|
        ensures s'.threads[t].received == s.threads[t].received + Arrived(run, t) && s'.threads[t].key == s.threads[t].key
      {
        StepReceives(s, run[0], lim, t);
        ArrivedNext(run, t, s.threads[t].received, s1.threads[t].received, s'.threads[t].received);
      }
    }
  }

  lemma InitInv(keys: seq<Key>, lim: Limits)
    ensures Inv(Init(keys), lim)
  {
  }

  /** What the invariant says about one thread, when its server has sent `arrived`. */
  lemma SafeThread(s: State, t: nat, lim: Limits, arrived: seq<byte>)
    requires Inv(s, lim) && t < |s.threads| && s.threads[t].received == arrived
    ensures var th := s.threads[t];
      && (th.pc.Holding? ==> s.lock == Some(t) && th.pc.id in s.heap && s.heap[th.pc.id].key == th.key)
      && (th.pc == Sent ==> (th.key, th.sent) in s.stored)
      && (th.pc in {Fetching, Waiting, Storing, Stored} ==> th.sent == arrived)
      && (th.pc == Done ==> Finished(th, s, lim))
      && (th.pc == Stored ==> InFront(s, th))
      && (Holds(th.pc) <==> s.lock == Some(t))
  {
    hide CacheInv;
    assert ThreadInv(s.threads[t], s, lim) && (Holds(s.threads[t].pc) <==> s.lock == Some(t));
  }

  lemma SafeCache(s: State, lim: Limits)
    requires Inv(s, lim)
    ensures Allocated(s) && Bounded(Contents(s.list, s.heap), lim.maxSize, lim.maxObjSize)
    ensures forall id :: id in s.list ==> (s.heap[id].key, s.heap[id].data) in s.complete
  {
    hide Bounded, Contents, ThreadInv;
  }

  lemma SafeOrigins(keys: seq<Key>, run: seq<Action>, s: State, lim: Limits)
    requires lim.maxObjSize <= lim.maxSize + 1 && (InitInv(keys, lim); Runs(Init(keys), run, s, lim))
    ensures forall t :: 0 <= t < |s.threads| ==> s.threads[t].received == Arrived(run, t)
    ensures forall e :: e in s.complete ==> exists t :: 0 <= t < |s.threads| && s.threads[t].key == e.0 && Arrived(run, t) == e.1
  {
    hide Runs, Arrived, Inv;
    InitInv(keys, lim);
    History(Init(keys), run, s, lim);
    forall e | e in s.complete ensures exists t :: 0 <= t < |s.threads| && s.threads[t].key == e.0 && Arrived(run, t) == e.1 {
      var t :| 0 <= t < |s.threads| && Origin(s.threads[t], e);
      assert s.threads[t].key == e.0;
    }
  }

  /** What `Safety` means for threads that start with an empty cache, whatever the interleaving. */
  lemma SafeRuns(keys: seq<Key>, run: seq<Action>, s: State, lim: Limits)
    requires lim.maxObjSize <= lim.maxSize + 1 && (InitInv(keys, lim); Runs(Init(keys), run, s, lim))
    // The cache respects its limits and holds only bodies that some server sent completely for that key.
    ensures Allocated(s) && Bounded(Contents(s.list, s.heap), lim.maxSize, lim.maxObjSize)
    ensures forall id :: id in s.list ==> (s.heap[id].key, s.heap[id].data) in s.complete
    // A hit object is used only under the semaphore, and is then still allocated.
    ensures forall t :: 0 <= t < |s.threads| && s.threads[t].pc.Holding? ==>
      s.lock == Some(t) && s.threads[t].pc.id in s.heap && s.heap[s.threads[t].pc.id].key == s.threads[t].key
    // A client served from the cache has a body stored earlier under its key; any served client has a complete body.
    ensures forall t :: 0 <= t < |s.threads| && s.threads[t].pc == Sent ==> (s.threads[t].key, s.threads[t].sent) in s.stored
    ensures forall t :: 0 <= t < |s.threads| && s.threads[t].pc == Done ==> (s.threads[t].key, s.threads[t].sent) in s.complete
    // Complete bodies come from servers: they are all that one of them sent for the key, in order.
    ensures forall e :: e in s.complete ==> exists t :: 0 <= t < |s.threads| && s.threads[t].key == e.0 && Arrived(run, t) == e.1
    // Every client gets what its server sent, or is served from the cache and its server sends nothing.
    ensures forall t :: 0 <= t < |s.threads| && s.threads[t].pc in {Fetching, Waiting, Storing, Stored} ==>
      s.threads[t].sent == Arrived(run, t)
    ensures forall t :: 0 <= t < |s.threads| && s.threads[t].pc == Done && s.threads[t].sent != Arrived(run, t) ==>
      Arrived(run, t) == [] && (s.threads[t].key, s.threads[t].sent) in s.stored
    // A response below the limit is stored before the thread ends, as the most recent object.
    ensures forall t :: 0 <= t < |s.threads| && s.threads[t].pc == Done && |s.threads[t].sent| < lim.maxObjSize ==>
      (s.threads[t].key, s.threads[t].sent) in s.stored
    ensures forall t :: 0 <= t < |s.threads| && s.threads[t].pc == Stored ==> InFront(s, s.threads[t])
    // At most one thread is inside.
    ensures forall t, u :: 0 <= t < |s.threads| && 0 <= u < |s.threads| && Holds(s.threads[t].pc) && Holds(s.threads[u].pc) ==> t == u
  {
    hide Runs, Bounded, Contents, Arrived, Inv, InFront, Init, Allocated;
    InitInv(keys, lim);
    Safety(Init(keys), run, s, lim);
    SafeOrigins(keys, run, s, lim);
    SafeCache(s, lim);
    forall t | 0 <= t < |s.threads| {
      SafeThread(s, t, lim, Arrived(run, t));
    }
  }

  /** The semaphore cannot get stuck: while some request is unfinished, some thread can move. */
  lemma NoDeadlock(s: State, t: nat, lim: Limits) returns (a: Action)
    requires Inv(s, lim) && t < |s.threads| && s.threads[t].pc != Done
    ensures Enabled(s, a, lim)
  {
    var u := if s.lock.Some? then s.lock.value else t;
    var garbage := seq(lim.maxObjSize, _ => 0 as byte);
    assert Holds(s.threads[u].pc) <==> s.lock == Some(u);
    a := match s.threads[u].pc
      case Begin | Waiting => Lock(u)
      case Looking => Lookup(u)
      case Holding(_) => Send(u)
      case Sent | Missed | Stored => Unlock(u, garbage)
      case Storing => Store(u)
      case Fetching => Eof(u);
  }
}
