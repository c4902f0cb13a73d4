/** The object cache of `cache.c`: a doubly linked list, most recently used object first. */
module Cache {
  import opened Bytes
  import opened Common
  import opened Lru

  class CacheObject {
    const entry: Entry
    const header: string
    const dataSize: int
    var usedAt: int
    var prev: CacheObject?
    var next: CacheObject?

    /** `new_object` */
    constructor (host: string, uri: string, header: string, data: seq<byte>, now: int)
      ensures entry == Entry(Key(host, uri), data) && this.header == header && dataSize == |data| && usedAt == now
    {
      this.entry, this.header, this.dataSize := Entry(Key(host, uri), data), header, |data|;
      usedAt, prev, next := now, null, null;
    }
  }

  /** The cached contents of a list of objects. */
  ghost function Entries(xs: seq<CacheObject>): (es: seq<Entry>)
    ensures |es| == |xs| && forall i :: 0 <= i < |xs| ==> es[i] == xs[i].entry
  {
    seq(|xs|, i requires 0 <= i < |xs| => xs[i].entry)
  }

  ghost function Members(xs: seq<CacheObject>): set<CacheObject> {
    set o | o in xs
  }

  ghost predicate Distinct(xs: seq<CacheObject>) {
    forall i, j :: 0 <= i < j < |xs| ==> xs[i] != xs[j]
  }

  function Before(xs: seq<CacheObject>, i: nat): CacheObject?
    requires i < |xs|
  {
    if i == 0 then null else xs[i - 1]
  }

  function After(xs: seq<CacheObject>, i: nat): CacheObject?
    requires i < |xs|
  {
    if i + 1 < |xs| then xs[i + 1] else null
  }

  /** `xs` is a doubly linked list that starts at `head`. */
  ghost predicate Linked(head: CacheObject?, xs: seq<CacheObject>)
    reads xs
  {
    && head == (if xs == [] then null else xs[0])
    && Distinct(xs)
    && (forall i {:trigger xs[i].prev} {:trigger Before(xs, i)} :: 0 <= i < |xs| ==> xs[i].prev == Before(xs, i))
    && (forall i {:trigger xs[i].next} {:trigger After(xs, i)} :: 0 <= i < |xs| ==> xs[i].next == After(xs, i))
  }

  lemma SumWithout(es: seq<Entry>, k: nat)
    requires k < |es|
    ensures Sum(Without(es, k)) == Sum(es) - |es[k].data|
  {
    hide Sum;
    assert es == es[..k] + [es[k]] + es[k + 1..];
    SumMiddle(es[..k], es[k], es[k + 1..]);
  }

  lemma EntriesWithout(xs: seq<CacheObject>, k: nat)
    requires k < |xs|
    ensures Entries(Without(xs, k)) == Without(Entries(xs), k)
  {
  }

  lemma TouchLength(es: seq<Entry>, k: nat)
    requires k < |es|
    ensures |Touch(es, k)| == |es|
  {
  }

  lemma SumMiddle(a: seq<Entry>, e: Entry, b: seq<Entry>)
    ensures Sum(a + [e] + b) == Sum(a + b) + |e.data|
  {
    SumConcat(a + [e], b);
    SumConcat(a, [e]);
    SumConcat(a, b);
    SumOne(e);
  }

  class Cache {
    const maxSize: int
    const maxObjSize: int
    var nowSize: int
    var head: CacheObject?
    ghost var objs: seq<CacheObject>
    /** Objects given back with `free_object`. */
    ghost var freed: set<CacheObject>

    ghost predicate Valid()
      reads this, objs
    {
      && Linked(head, objs)
      && nowSize == Sum(Entries(objs))
      && (forall o :: o in objs ==> o.dataSize == |o.entry.data| && o !in freed)
    }

    /** A valid cache that respects its limits. */
    ghost predicate Ready()
      reads this, objs
    {
      Valid() && Bounded(Entries(objs), maxSize, maxObjSize)
    }

    /** `new_cache` */
    constructor (maxSize: int, maxObjSize: int)
      ensures Ready() && objs == [] && this.maxSize == maxSize && this.maxObjSize == maxObjSize
    {
      this.maxSize, this.maxObjSize := maxSize, maxObjSize;
      nowSize, head, objs, freed := 0, null, [], {};
    }

    /** The four cases of `pop_object`. */
    method Unlink(obj: CacheObject, ghost k: nat)
      requires Linked(head, objs) && k < |objs| && objs[k] == obj
      modifies this`head, objs`prev, objs`next
      ensures Linked(head, Without(objs, k)) && obj.prev == null && obj.next == null
    {
      hide Without;
      assert obj.prev == Before(objs, k) && obj.next == After(objs, k);
      if obj.prev == null && obj.next == null {
        head := null;
        obj.prev, obj.next := null, null;
      } else if obj.prev == null {
        head := obj.next;
        head.prev := null;
        obj.prev, obj.next := null, null;
      } else if obj.next == null {
        obj.prev.next := null;
        obj.prev, obj.next := null, null;
      } else {
        obj.prev.next := obj.next;
        obj.next.prev := obj.prev;
        obj.prev, obj.next := null, null;
      }
      StillLinked(head, objs, k);
    }

    /** `pop_object`: unlink the object at position `k`. */
    method PopObject(obj: CacheObject, ghost k: nat) returns (r: CacheObject)
      requires Valid() && k < |objs| && objs[k] == obj
      modifies this`nowSize, this`head, this`objs, objs`prev, objs`next
      ensures Valid() && r == obj && objs == Without(old(objs), k)
      ensures nowSize == old(nowSize) - obj.dataSize
    {
      hide Linked, Sum, Without, Distinct;
      Unlink(obj, k);
      SumWithout(Entries(objs), k);
      EntriesWithout(objs, k);
      WithoutIn(objs, k);
      nowSize := nowSize - obj.dataSize;
      objs := Without(objs, k);
      return obj;
    }

    /** `free_object` */
    ghost method FreeObject(obj: CacheObject)
      requires obj !in objs && obj !in freed
      modifies this`freed
      ensures freed == old(freed) + {obj}
    {
      freed := freed + {obj};
    }

    /** The inner loop of `push_front`: walk to the last object. */
    method Last() returns (last: CacheObject?)
      requires Linked(head, objs)
      ensures last == if objs == [] then null else objs[|objs| - 1]
    {
      last := head;
      ghost var i := 0;
      while last != null && last.next != null
        invariant objs == [] ==> last == null
        invariant objs != [] ==> 0 <= i < |objs| && last == objs[i]
        decreases |objs| - i
      {
        assert last.next == After(objs, i);
        last := last.next;
        i := i + 1;
      }
      assert objs != [] ==> last.next == After(objs, i);
    }

    /** The body of the outer loop of `push_front`: pop and free the last object. */
    method EvictLast()
      requires Valid() && objs != []
      modifies this`nowSize, this`head, this`objs, this`freed, objs`prev, objs`next
      ensures Valid() && objs == old(objs)[..|old(objs)| - 1]
      ensures freed == old(freed) + {old(objs)[|old(objs)| - 1]}
    {
      hide Linked, Without, Sum, Entries, Members;
      ghost var xs, n := objs, |objs| - 1;
      CacheLinked();
      WithoutLast(xs, n);
      var last := Last();
      NotAgain(xs, n);
      var popped := PopObject(last, n);
      FreeObject(popped);
    }

    /** The outer loop of `push_front`: evict from the tail until `size` more bytes fit.
        It ends because the list gets shorter; `nowSize` need not decrease. */
    method MakeRoom(size: int)
      requires Valid() && 0 <= size <= maxSize
      modifies this`nowSize, this`head, this`objs, this`freed, objs`prev, objs`next
      ensures Valid() && nowSize <= maxSize - size
      ensures |objs| <= old(|objs|) && objs == old(objs)[..|objs|]
      ensures Entries(objs) == Fit(old(Entries(objs)), maxSize - size)
      ensures freed == old(freed) + Members(old(objs)[|objs|..])
    {
      hide Linked, Sum, Fit, Members, Entries;
      ghost var xs, es := objs, Entries(objs);
      NoneEvicted(xs);
      while maxSize - nowSize < size
        invariant Valid() && |objs| <= |xs| && objs == xs[..|objs|]
        invariant Fit(es, maxSize - size) == Fit(Entries(objs), maxSize - size)
        invariant freed == old(freed) + Members(xs[|objs|..])
        decreases |objs|
      {
        ListNotEmpty(Entries(objs), maxSize, size);
        Evicted(xs, objs);
        FitShorter(Entries(objs), maxSize - size);
        EvictLast();
      }
      FitWhole(Entries(objs), maxSize - size);
    }

    /** The last step of `push_front`. */
    method LinkFront(obj: CacheObject)
      requires Linked(head, objs) && obj !in objs
      modifies this`head, objs`prev, obj`prev, obj`next
      ensures Linked(head, [obj] + objs)
    {
      if head == null {
        obj.prev := null;
        obj.next := null;
        head := obj;
      } else {
        obj.prev := null;
        obj.next := head;
        obj.next.prev := obj;
        head := obj;
      }
      PushedLinked(head, objs, obj);
    }

    /** `push_front`. The size condition is what keeps the eviction loop from popping an empty list. */
    method PushFront(obj: CacheObject) returns (r: int)
      requires Valid() && obj !in objs && obj !in freed && obj.dataSize == |obj.entry.data|
      requires obj.dataSize <= maxObjSize ==> obj.dataSize <= maxSize
      modifies this`nowSize, this`head, this`objs, this`freed, objs`prev, objs`next, obj`prev, obj`next
      ensures Valid() && r == (if maxObjSize < obj.dataSize then -1 else 0)
      ensures Entries(objs) == Push(old(Entries(objs)), obj.entry, maxSize, maxObjSize)
      ensures r == -1 ==> objs == old(objs) && freed == old(freed)
      ensures r == 0 ==>
        && 1 <= |objs| <= old(|objs|) + 1 && objs == [obj] + old(objs)[..|objs| - 1]
        && freed == old(freed) + Members(old(objs)[|objs| - 1..])
    {
      hide Linked, Sum, Fit, Distinct, Members;
      if maxObjSize < obj.dataSize {
        return -1;
      }
      ghost var xs := objs;
      MakeRoom(obj.dataSize);
      NotMember(xs, |objs|, obj);
      LinkFront(obj);
      PushedSum(objs, obj);
      nowSize := nowSize + obj.dataSize;
      objs := [obj] + objs;
      return 0;
    }

    /** The search loop of `find_cache`. */
    method Search(key: Key) returns (found: CacheObject?, ghost k: nat)
      requires Linked(head, objs)
      ensures k == Position(Entries(objs), key)
      ensures found == if k < |objs| then objs[k] else null
    {
      found, k := head, 0;
      while found != null
        invariant 0 <= k <= |objs| && found == (if k < |objs| then objs[k] else null)
        invariant forall j :: 0 <= j < k ==> objs[j].entry.key != key
        decreases |objs| - k
      {
        var temp := found;
        assert temp.next == After(objs, k);
        found := found.next;
        if temp.entry.key.host == key.host && temp.entry.key.uri == key.uri {
          found := temp;
          break;
        }
        k := k + 1;
      }
      FirstMatch(Entries(objs), key, k);
    }

    /** `find_cache`: the most recent object with this key moves to the front; nothing is evicted. */
    method FindCache(host: string, uri: string, now: int) returns (found: CacheObject?)
      requires Ready()
      modifies this`nowSize, this`head, this`objs, this`freed, objs
      ensures Ready() && freed == old(freed)
      ensures Entries(objs) == Find(old(Entries(objs)), Key(host, uri))
      ensures found != null <==> old(Hit(Entries(objs), Key(host, uri)))
      ensures found == null ==> objs == old(objs)
      ensures found != null ==>
        && found == old(objs[Position(Entries(objs), Key(host, uri))]) && objs[0] == found && found.usedAt == now
      ensures Members(objs) == old(Members(objs))
    {
      hide Linked, Sum, Fit, Distinct, Bounded;
      ghost var es, xs := Entries(objs), objs;
      ghost var k;
      CacheLinked();
      found, k := Search(Key(host, uri));
      FindBounded(es, Key(host, uri), maxSize, maxObjSize);
      if found != null {
        Promote(found, k, now);
      }
    }

    /** Push an object again, with a new time stamp; there is room for it. */
    method PushAgain(obj: CacheObject, now: int)
      requires Valid() && obj !in objs && obj !in freed && obj.dataSize == |obj.entry.data| <= maxObjSize && obj.dataSize <= maxSize
      requires |Push(Entries(objs), obj.entry, maxSize, maxObjSize)| == |objs| + 1
      modifies this`nowSize, this`head, this`objs, this`freed, objs`prev, objs`next, obj
      ensures Valid() && freed == old(freed) && obj.usedAt == now && objs == [obj] + old(objs)
      ensures Entries(objs) == Push(old(Entries(objs)), obj.entry, maxSize, maxObjSize)
    {
      hide Linked, Sum, Fit, Distinct, Bounded, Push, Entries;
      ghost var xs := objs;
      obj.usedAt := now;
      var r := PushFront(obj);
      NoneEvicted(xs);
    }

    /** A hit: the object leaves its place and is pushed again. */
    method Promote(found: CacheObject, ghost k: nat, now: int)
      requires Ready() && k < |objs| && objs[k] == found && Bounded(Touch(Entries(objs), k), maxSize, maxObjSize)
      modifies this`nowSize, this`head, this`objs, this`freed, objs
      ensures Ready() && freed == old(freed) && Entries(objs) == Touch(old(Entries(objs)), k)
      ensures objs != [] && objs[0] == found && found.usedAt == now && Members(objs) == old(Members(objs))
    {
      hide Linked, Sum, Fit, Distinct, Bounded, Push, Touch, Members, Entries;
      ghost var es, xs := Entries(objs), objs;
      CacheLinked();
      NotAgain(xs, k);
      TouchIsPush(es, k, maxSize, maxObjSize);
      var temp := PopObject(found, k);
      EntriesWithout(xs, k);
      TouchLength(es, k);
      WithoutAt(xs, k, 0);
      MovedFront(xs, k);
      PushAgain(temp, now);
    }

    lemma CacheLinked()
      requires Valid()
      ensures Linked(head, objs) && Distinct(objs)
    {
    }
  }

  lemma FirstMatch(es: seq<Entry>, key: Key, k: nat)
    requires k <= |es| && (forall j :: 0 <= j < k ==> es[j].key != key) && (k < |es| ==> es[k].key == key)
    ensures k == Position(es, key)
  {
  }

  lemma NotMember(xs: seq<CacheObject>, n: nat, obj: CacheObject)
    requires obj !in xs && n <= |xs|
    ensures obj !in Members(xs[n..])
  {
  }

  lemma NotAgain(xs: seq<CacheObject>, k: nat)
    requires Distinct(xs) && k < |xs|
    ensures xs[k] !in Without(xs, k)
  {
  }

  lemma MovedFront(xs: seq<CacheObject>, k: nat)
    requires k < |xs|
    ensures Members([xs[k]] + Without(xs, k)) == Members(xs)
  {
    assert xs == xs[..k] + [xs[k]] + xs[k + 1..];
  }

  /** A list within bounds: taking an object out and pushing it again moves it to the front. */
  lemma TouchIsPush(es: seq<Entry>, k: nat, maxSize: int, maxObjSize: int)
    requires Bounded(es, maxSize, maxObjSize) && k < |es|
    ensures |es[k].data| <= maxObjSize && |es[k].data| <= maxSize
    ensures Push(Without(es, k), es[k], maxSize, maxObjSize) == Touch(es, k)
  {
    SumWithout(es, k);
    assert es[k] in es;
    assert Fit(Without(es, k), maxSize - |es[k].data|) == Without(es, k);
    assert [es[k]] + Without(es, k) == Touch(es, k);
  }

  lemma ListNotEmpty(es: seq<Entry>, maxSize: int, size: int)
    requires 0 <= size <= maxSize && maxSize - Sum(es) < size
    ensures es != []
  {
  }

  /** What one more eviction does to the list. */
  lemma Evicted(xs: seq<CacheObject>, ys: seq<CacheObject>)
    requires 0 < |ys| <= |xs| && ys == xs[..|ys|]
    ensures var n := |ys| - 1;
      && ys[..n] == xs[..n] && Entries(ys)[..n] == Entries(ys[..n]) && Members(xs[n..]) == {ys[n]} + Members(xs[n + 1..])
  {
    assert xs[|ys| - 1..] == [xs[|ys| - 1]] + xs[|ys|..];
  }

  lemma FitShorter(es: seq<Entry>, room: int)
    requires es != [] && Sum(es) > room
    ensures Fit(es, room) == Fit(es[..|es| - 1], room)
  {
  }

  lemma NoneEvicted(xs: seq<CacheObject>)
    ensures Members(xs[|xs|..]) == {} && xs[..|xs|] == xs
  {
  }

  lemma WithoutLast(xs: seq<CacheObject>, n: nat)
    requires n + 1 == |xs|
    ensures Without(xs, n) == xs[..n]
  {
  }

  lemma FitWhole(es: seq<Entry>, room: int)
    requires Sum(es) <= room
    ensures Fit(es, room) == es
  {
  }

  /** The new object in front of the list. */
  lemma PushedLinked(head: CacheObject?, xs: seq<CacheObject>, obj: CacheObject)
    requires head == obj && obj !in xs && Distinct(xs)
    requires obj.prev == null && obj.next == if xs == [] then null else xs[0]
    requires forall i :: 0 <= i < |xs| ==> xs[i].prev == if i == 0 then obj else Before(xs, i)
    requires forall i :: 0 <= i < |xs| ==> xs[i].next == After(xs, i)
    ensures Linked(head, [obj] + xs)
  {
    var ys := [obj] + xs;
    forall i | 0 <= i < |ys| ensures ys[i].prev == Before(ys, i) && ys[i].next == After(ys, i) {
      assert i > 0 ==> ys[i] == xs[i - 1];
    }
  }

  lemma PushedSum(xs: seq<CacheObject>, obj: CacheObject)
    ensures Entries([obj] + xs) == [obj.entry] + Entries(xs)
    ensures Sum(Entries([obj] + xs)) == |obj.entry.data| + Sum(Entries(xs))
  {
    assert Entries([obj] + xs) == [obj.entry] + Entries(xs);
    SumConcat([obj.entry], Entries(xs));
    SumOne(obj.entry);
  }

  /** The list with object `k` bypassed. */
  lemma StillLinked(head: CacheObject?, xs: seq<CacheObject>, k: nat)
    requires k < |xs| && Distinct(xs)
    requires head == if k > 0 then xs[0] else After(xs, 0)
    requires forall i :: 0 <= i < |xs| && i != k ==> xs[i].prev == if i == k + 1 then Before(xs, k) else Before(xs, i)
    requires forall i :: 0 <= i < |xs| && i != k ==> xs[i].next == if i + 1 == k then After(xs, k) else After(xs, i)
    ensures Linked(head, Without(xs, k))
  {
    StillDistinct(xs, k);
    hide Without, Distinct;
    var ys := Without(xs, k);
    WithoutAt(xs, k, 0);
    forall i | 0 <= i < |ys| ensures ys[i].prev == Before(ys, i) {
      WithoutAt(xs, k, i);
      WithoutAt(xs, k, i - 1);
    }
    forall i | 0 <= i < |ys| ensures ys[i].next == After(ys, i) {
      WithoutAt(xs, k, i);
      WithoutAt(xs, k, i + 1);
    }
  }

  lemma WithoutAt(xs: seq<CacheObject>, k: nat, i: int)
    requires k < |xs|
    ensures |Without(xs, k)| == |xs| - 1
    ensures 0 <= i < |xs| - 1 ==> Without(xs, k)[i] == xs[if i < k then i else i + 1]
  {
  }

  lemma WithoutIn(xs: seq<CacheObject>, k: nat)
    requires k < |xs|
    ensures forall o :: o in Without(xs, k) ==> o in xs
  {
  }

  lemma StillDistinct(xs: seq<CacheObject>, k: nat)
    requires k < |xs| && Distinct(xs)
    ensures Distinct(Without(xs, k))
  {
    hide Without;
    var ys := Without(xs, k);
    WithoutAt(xs, k, 0);
    forall i, j | 0 <= i < j < |ys| ensures ys[i] != ys[j] {
      WithoutAt(xs, k, i);
      WithoutAt(xs, k, j);
    }
  }
}
