/** The recency list of `cache.c` as a value, and what the size of the cache does to it. */
module Lru {
  import opened Bytes

  /** Objects are looked up by host and URI. */
  datatype Key = Key(host: string, uri: string)

  datatype Entry = Entry(key: Key, data: seq<byte>)

  function Sum(xs: seq<Entry>): nat {
    if xs == [] then 0 else Sum(xs[..|xs| - 1]) + |xs[|xs| - 1].data|
  }

  lemma {:induction false} SumConcat(xs: seq<Entry>, ys: seq<Entry>)
    ensures Sum(xs + ys) == Sum(xs) + Sum(ys)
  {
    if ys == [] {
      assert xs + ys == xs;
    } else {
      SumConcat(xs, ys[..|ys| - 1]);
      assert (xs + ys)[..|xs + ys| - 1] == xs + ys[..|ys| - 1];
    }
  }

  lemma SumOne(e: Entry)
    ensures Sum([e]) == |e.data|
  {
    assert Sum([e]) == Sum([]) + |e.data|;
  }

  /** Evict from the tail until the rest fits into `room` bytes. */
  function Fit(xs: seq<Entry>, room: int): seq<Entry> {
    if xs == [] || Sum(xs) <= room then xs else Fit(xs[..|xs| - 1], room)
  }

  /** What is kept is the longest prefix that fits. */
  lemma {:induction false} FitLongest(xs: seq<Entry>, room: int)
    ensures Fit(xs, room) <= xs
    ensures 0 <= room ==> Sum(Fit(xs, room)) <= room
    ensures forall n :: 0 <= n <= |xs| && Sum(xs[..n]) <= room ==> n <= |Fit(xs, room)|
  {
    if !(xs == [] || Sum(xs) <= room) {
      var ys := xs[..|xs| - 1];
      FitLongest(ys, room);
      forall n | 0 <= n <= |xs| && Sum(xs[..n]) <= room ensures n <= |Fit(xs, room)| {
        assert n == |xs| ==> xs[..n] == xs;
        assert n < |xs| ==> ys[..n] == xs[..n];
      }
    }
  }

  /** `push_front`: refuse an object that is too large, else evict until it fits. */
  function Push(xs: seq<Entry>, e: Entry, maxSize: int, maxObjSize: int): seq<Entry> {
    if maxObjSize < |e.data| then xs else [e] + Fit(xs, maxSize - |e.data|)
  }

  /** The position of the most recent object with this key, or the length of the list. */
  function Position(xs: seq<Entry>, key: Key): (i: nat)
    ensures i <= |xs|
    ensures i < |xs| ==> xs[i].key == key
    ensures forall j :: 0 <= j < i ==> xs[j].key != key
  {
    if xs == [] || xs[0].key == key then 0 else 1 + Position(xs[1..], key)
  }

  predicate Hit(xs: seq<Entry>, key: Key) {
    Position(xs, key) < |xs|
  }

  /** Move the object at `i` to the front. */
  function Touch(xs: seq<Entry>, i: nat): seq<Entry>
    requires i < |xs|
  {
    [xs[i]] + xs[..i] + xs[i + 1..]
  }

  lemma TouchSum(xs: seq<Entry>, i: nat)
    requires i < |xs|
    ensures Sum(Touch(xs, i)) == Sum(xs)
  {
    hide Sum;
    MoveFront(xs[..i], xs[i], xs[i + 1..]);
    assert xs == xs[..i] + [xs[i]] + xs[i + 1..];
  }

  lemma MoveFront(a: seq<Entry>, e: Entry, b: seq<Entry>)
    ensures Sum([e] + a + b) == Sum(a + [e] + b)
  {
    SumConcat([e] + a, b);
    SumConcat([e], a);
    SumConcat(a + [e], b);
    SumConcat(a, [e]);
  }

  /** `find_cache`: a hit moves to the front; nothing is ever evicted. */
  function Find(xs: seq<Entry>, key: Key): seq<Entry> {
    if Hit(xs, key) then Touch(xs, Position(xs, key)) else xs
  }

  /** What every cached list satisfies. */
  ghost predicate Bounded(xs: seq<Entry>, maxSize: int, maxObjSize: int) {
    (xs != [] ==> Sum(xs) <= maxSize) && forall e :: e in xs ==> |e.data| <= maxObjSize
  }

  lemma PushBounded(xs: seq<Entry>, e: Entry, maxSize: int, maxObjSize: int)
    requires Bounded(xs, maxSize, maxObjSize) && (|e.data| <= maxObjSize ==> |e.data| <= maxSize)
    ensures Bounded(Push(xs, e, maxSize, maxObjSize), maxSize, maxObjSize)
  {
    if |e.data| <= maxObjSize {
      var f := Fit(xs, maxSize - |e.data|);
      FitLongest(xs, maxSize - |e.data|);
      SumConcat([e], f);
      SumOne(e);
    }
  }

  lemma FindBounded(xs: seq<Entry>, key: Key, maxSize: int, maxObjSize: int)
    requires Bounded(xs, maxSize, maxObjSize)
    ensures Bounded(Find(xs, key), maxSize, maxObjSize)
    ensures Sum(Find(xs, key)) == Sum(xs) && multiset(Find(xs, key)) == multiset(xs)
  {
    if Hit(xs, key) {
      hide Sum;
      TouchSum(xs, Position(xs, key));
      TouchMembers(xs, Position(xs, key));
    }
  }

  lemma TouchMembers(xs: seq<Entry>, i: nat)
    requires i < |xs|
    ensures multiset(Touch(xs, i)) == multiset(xs)
    ensures forall e :: e in Touch(xs, i) <==> e in xs
  {
    assert xs == xs[..i] + [xs[i]] + xs[i + 1..];
    forall e ensures e in Touch(xs, i) <==> e in xs {
      assert e in Touch(xs, i) <==> e in multiset(Touch(xs, i));
    }
  }

  // ---------- stack inclusion ----------

  /** A request for `key`, and the body the server sends if it is asked. */
  datatype Request = Request(key: Key, body: seq<byte>)

  /** One request, served without interference. The handler only stores bodies below the limit. */
  function Serve(xs: seq<Entry>, r: Request, maxSize: int, maxObjSize: int): seq<Entry> {
    if Hit(xs, r.key) then Find(xs, r.key)
    else if |r.body| < maxObjSize then Push(xs, Entry(r.key, r.body), maxSize, maxObjSize)
    else xs
  }

  /** The list after a run of requests, starting from an empty cache. */
  function Run(rs: seq<Request>, maxSize: int, maxObjSize: int): seq<Entry> {
    if rs == [] then [] else Serve(Run(rs[..|rs| - 1], maxSize, maxObjSize), rs[|rs| - 1], maxSize, maxObjSize)
  }

  /** The size of an object depends only on its key. */
  ghost predicate Sized(rs: seq<Request>, size: Key -> nat) {
    forall r :: r in rs ==> |r.body| == size(r.key)
  }

  /** A list that a run can produce: no key twice, and sizes as the keys say. */
  ghost predicate Clean(xs: seq<Entry>, size: Key -> nat, maxObjSize: int) {
    && (forall i, j :: 0 <= i < j < |xs| ==> xs[i].key != xs[j].key)
    && (forall e :: e in xs ==> |e.data| == size(e.key) && |e.data| < maxObjSize)
  }

  /** The keys of `xs` are the first keys of `ys`, in the same order. */
  ghost predicate KeysPrefix(xs: seq<Entry>, ys: seq<Entry>) {
    |xs| <= |ys| && forall i :: 0 <= i < |xs| ==> xs[i].key == ys[i].key
  }

  lemma {:induction false} SameSums(xs: seq<Entry>, ys: seq<Entry>, n: nat)
    requires n <= |xs| && n <= |ys| && forall i :: 0 <= i < n ==> |xs[i].data| == |ys[i].data|
    ensures Sum(xs[..n]) == Sum(ys[..n])
  {
    if n > 0 {
      SameSums(xs, ys, n - 1);
      assert xs[..n][..n - 1] == xs[..n - 1] && ys[..n][..n - 1] == ys[..n - 1];
    }
  }

  /** More room keeps a longer prefix. */
  lemma FitPrefix(xs: seq<Entry>, ys: seq<Entry>, a: int, b: int, size: Key -> nat, maxObjSize: int)
    requires KeysPrefix(xs, ys) && Clean(xs, size, maxObjSize) && Clean(ys, size, maxObjSize) && 0 <= a <= b
    ensures KeysPrefix(Fit(xs, a), Fit(ys, b))
    ensures forall e: Entry :: KeysPrefix([e] + Fit(xs, a), [e] + Fit(ys, b))
  {
    FitLongest(xs, a);
    FitLongest(ys, b);
    hide Fit, Sum;
    var n := |Fit(xs, a)|;
    assert Fit(xs, a) == xs[..n];
    forall i | 0 <= i < n ensures |xs[i].data| == |ys[i].data| {
      assert xs[i] in xs && ys[i] in ys;
    }
    SameSums(xs, ys, n);
  }

  lemma FitClean(xs: seq<Entry>, room: int, size: Key -> nat, maxObjSize: int)
    requires Clean(xs, size, maxObjSize)
    ensures Clean(Fit(xs, room), size, maxObjSize)
    ensures forall e :: e in Fit(xs, room) ==> e in xs
  {
    FitLongest(xs, room);
    assert Fit(xs, room) == xs[..|Fit(xs, room)|];
  }

  lemma ServeClean(xs: seq<Entry>, r: Request, size: Key -> nat, maxSize: int, maxObjSize: int)
    requires Clean(xs, size, maxObjSize) && |r.body| == size(r.key)
    ensures Clean(Serve(xs, r, maxSize, maxObjSize), size, maxObjSize)
  {
    hide Touch, Fit, Sum, Clean;
    if Hit(xs, r.key) {
      TouchClean(xs, Position(xs, r.key), size, maxObjSize);
    } else if |r.body| < maxObjSize {
      FitClean(xs, maxSize - |r.body|, size, maxObjSize);
      forall e | e in xs ensures e.key != r.key {
        var j :| 0 <= j < |xs| && xs[j] == e;
      }
      FrontClean(Fit(xs, maxSize - |r.body|), Entry(r.key, r.body), size, maxObjSize);
    }
  }

  lemma FrontClean(xs: seq<Entry>, e: Entry, size: Key -> nat, maxObjSize: int)
    requires Clean(xs, size, maxObjSize) && |e.data| == size(e.key) && |e.data| < maxObjSize && forall x :: x in xs ==> x.key != e.key
    ensures Clean([e] + xs, size, maxObjSize)
  {
  }

  /** Where the object at `j` was before the one at `i` moved to the front. */
  function Untouched(i: nat, j: nat): nat {
    if j == 0 then i else if j <= i then j - 1 else j
  }

  lemma TouchedAt(xs: seq<Entry>, i: nat, j: nat)
    requires i < |xs| && j < |xs|
    ensures |Touch(xs, i)| == |xs| && Touch(xs, i)[j] == xs[Untouched(i, j)]
  {
  }

  lemma TouchClean(xs: seq<Entry>, i: nat, size: Key -> nat, maxObjSize: int)
    requires Clean(xs, size, maxObjSize) && i < |xs|
    ensures Clean(Touch(xs, i), size, maxObjSize)
  {
    hide Touch;
    var ys := Touch(xs, i);
    TouchedAt(xs, i, 0);
    forall e | e in ys ensures e in xs {
      var j :| 0 <= j < |ys| && ys[j] == e;
      TouchedAt(xs, i, j);
    }
    forall j, k | 0 <= j < k < |ys| ensures ys[j].key != ys[k].key {
      TouchedAt(xs, i, j);
      TouchedAt(xs, i, k);
    }
  }

  lemma PositionPrefix(xs: seq<Entry>, ys: seq<Entry>, key: Key)
    requires KeysPrefix(xs, ys)
    ensures |xs| <= |ys|
    ensures if Hit(xs, key) then Position(ys, key) == Position(xs, key) else |xs| <= Position(ys, key)
  {
    var i, j := Position(xs, key), Position(ys, key);
    assert forall k :: 0 <= k < i ==> ys[k].key == xs[k].key;
    assert i < |xs| ==> ys[i].key == key;
  }

  lemma TouchPrefix(xs: seq<Entry>, ys: seq<Entry>, i: nat)
    requires KeysPrefix(xs, ys) && i < |xs|
    ensures KeysPrefix(Touch(xs, i), Touch(ys, i))
  {
    hide Touch;
    var xs', ys' := Touch(xs, i), Touch(ys, i);
    TouchedAt(xs, i, 0);
    TouchedAt(ys, i, 0);
    forall k | 0 <= k < |xs'| ensures xs'[k].key == ys'[k].key {
      TouchedAt(xs, i, k);
      TouchedAt(ys, i, k);
    }
  }

  /** The smaller cache has to fetch what the larger one still has. */
  lemma TouchOrPush(xs: seq<Entry>, ys: seq<Entry>, j: nat, e: Entry, room: int)
    requires KeysPrefix(xs, ys) && |xs| <= j < |ys| && e.key == ys[j].key
    ensures KeysPrefix([e] + Fit(xs, room), Touch(ys, j))
  {
    FitLongest(xs, room);
    var f, ys' := Fit(xs, room), Touch(ys, j);
    forall k | 0 < k <= |f| ensures f[k - 1].key == ys'[k].key {
      assert f[k - 1] == xs[k - 1] && ys'[k] == ys[k - 1];
    }
  }

  /** One request keeps the smaller cache's list a prefix of the larger one's. */
  lemma ServePrefix(xs: seq<Entry>, ys: seq<Entry>, r: Request, size: Key -> nat, small: int, large: int, maxObjSize: int)
    requires KeysPrefix(xs, ys) && Clean(xs, size, maxObjSize) && Clean(ys, size, maxObjSize)
    requires |r.body| == size(r.key) && maxObjSize <= small <= large
    ensures KeysPrefix(Serve(xs, r, small, maxObjSize), Serve(ys, r, large, maxObjSize))
  {
    hide KeysPrefix, Fit, Touch, Sum;
    var j := Position(ys, r.key);
    PositionPrefix(xs, ys, r.key);
    if Hit(xs, r.key) {
      TouchPrefix(xs, ys, j);
    } else if |r.body| < maxObjSize {
      if j < |ys| {
        TouchOrPush(xs, ys, j, Entry(r.key, r.body), small - |r.body|);
      } else {
        FitPrefix(xs, ys, small - |r.body|, large - |r.body|, size, maxObjSize);
      }
    } else {
      TooLarge(ys, r, size, maxObjSize);
    }
  }

  /** A body that is never stored never hits. */
  lemma TooLarge(xs: seq<Entry>, r: Request, size: Key -> nat, maxObjSize: int)
    requires Clean(xs, size, maxObjSize) && |r.body| == size(r.key) && |r.body| >= maxObjSize
    ensures !Hit(xs, r.key)
  {
    forall i | 0 <= i < |xs| ensures xs[i].key != r.key {
      assert xs[i] in xs;
    }
  }

  /** Stack inclusion: after any run, everything in the smaller cache is in the larger one, in the same order,
      so every hit in the smaller cache is a hit in the larger one. */
  lemma {:induction false} StackInclusion(rs: seq<Request>, size: Key -> nat, small: int, large: int, maxObjSize: int)
    requires Sized(rs, size) && maxObjSize <= small <= large
    ensures KeysPrefix(Run(rs, small, maxObjSize), Run(rs, large, maxObjSize))
    ensures Clean(Run(rs, small, maxObjSize), size, maxObjSize) && Clean(Run(rs, large, maxObjSize), size, maxObjSize)
    ensures forall key :: Hit(Run(rs, small, maxObjSize), key) ==> Hit(Run(rs, large, maxObjSize), key)
  {
    if rs != [] {
      var n := |rs| - 1;
      StackInclusion(rs[..n], size, small, large, maxObjSize);
      ServePrefix(Run(rs[..n], small, maxObjSize), Run(rs[..n], large, maxObjSize), rs[n], size, small, large, maxObjSize);
      ServeClean(Run(rs[..n], small, maxObjSize), rs[n], size, small, maxObjSize);
      ServeClean(Run(rs[..n], large, maxObjSize), rs[n], size, large, maxObjSize);
    }
    var xs, ys := Run(rs, small, maxObjSize), Run(rs, large, maxObjSize);
    forall key | Hit(xs, key) ensures Hit(ys, key) {
      assert ys[Position(xs, key)].key == key;
    }
  }
}
