/** The part of `request_handler` between the request line and the end of the response. */
module Handler {
  import opened Bytes
  import opened Lru
  import opened Cache

  /** Everything the server sent, in order. */
  function Flatten(chunks: seq<seq<byte>>): seq<byte> {
    if chunks == [] then [] else Flatten(chunks[..|chunks| - 1]) + chunks[|chunks| - 1]
  }

  lemma FlattenNext(chunks: seq<seq<byte>>, i: nat)
    requires i < |chunks|
    ensures Flatten(chunks[..i + 1]) == Flatten(chunks[..i]) + chunks[i]
  {
    assert chunks[..i + 1][..i] == chunks[..i];
  }

  /** The response loop: every chunk goes to the client; it is also buffered if it still fits.
      If the response stays below the limit, no chunk was skipped and the buffer holds all of it. */
  method ForwardResponse(chunks: seq<seq<byte>>, maxObjSize: nat)
    returns (cacheData: array<byte>, cacheLen: nat, sent: seq<byte>)
    ensures fresh(cacheData) && cacheData.Length == maxObjSize
    ensures sent == Flatten(chunks) && cacheLen == |sent|
    ensures cacheLen < maxObjSize ==> cacheData[..cacheLen] == sent
  {
    cacheData := new byte[maxObjSize];
    cacheLen, sent := 0, [];
    for i := 0 to |chunks|
      invariant sent == Flatten(chunks[..i]) && cacheLen == |sent|
      invariant cacheLen < maxObjSize ==> cacheData[..cacheLen] == sent
    {
      var chunk := chunks[i];
      if cacheLen + |chunk| < maxObjSize {
        CopyChunk(cacheData, cacheLen, chunk);
      }
      FlattenNext(chunks, i);
      sent := sent + chunk;
      cacheLen := cacheLen + |chunk|;
    }
    assert chunks[..|chunks|] == chunks;
  }

  /** `memcpy(cache_data + at, chunk)` */
  method CopyChunk(a: array<byte>, at: nat, chunk: seq<byte>)
    requires at + |chunk| <= a.Length
    modifies a
    ensures a[..] == old(a[..at]) + chunk + old(a[at + |chunk|..])
  {
    forall j | 0 <= j < |chunk| {
      a[at + j] := chunk[j];
    }
  }

  /** One request without interference: what the client receives and what the cache becomes. */
  method HandleRequest(cache: Cache, host: string, uri: string, chunks: seq<seq<byte>>, now: int) returns (sent: seq<byte>)
    requires cache.Ready() && 0 <= cache.maxObjSize <= cache.maxSize + 1
    modifies cache`nowSize, cache`head, cache`objs, cache`freed, cache.objs
    ensures cache.Ready()
    ensures var es, key := old(Entries(cache.objs)), Key(host, uri);
      && Entries(cache.objs) == Serve(es, Request(key, Flatten(chunks)), cache.maxSize, cache.maxObjSize)
      && sent == (if Hit(es, key) then es[Position(es, key)].data else Flatten(chunks))
      && (if Hit(es, key) || |sent| < cache.maxObjSize then cache.objs != [] && cache.objs[0].entry == Entry(key, sent)
          else cache.objs == old(cache.objs))
  {
    hide Linked, Distinct, Sum, Fit, Bounded;
    var hit := cache.FindCache(host, uri, now);
    if hit != null {
      return hit.entry.data;
    }
    sent := Fetch(cache, host, uri, chunks, now);
  }

  /** The miss path: forward the response and cache it if it is small enough. */
  method Fetch(cache: Cache, host: string, uri: string, chunks: seq<seq<byte>>, now: int) returns (sent: seq<byte>)
    requires cache.Ready() && 0 <= cache.maxObjSize <= cache.maxSize + 1
    modifies cache`nowSize, cache`head, cache`objs, cache`freed, cache.objs
    ensures cache.Ready() && sent == Flatten(chunks)
    ensures if |sent| < cache.maxObjSize then cache.objs != [] && cache.objs[0].entry == Entry(Key(host, uri), sent)
      else cache.objs == old(cache.objs)
    ensures Entries(cache.objs) == if |sent| < cache.maxObjSize
      then Push(old(Entries(cache.objs)), Entry(Key(host, uri), sent), cache.maxSize, cache.maxObjSize)
      else old(Entries(cache.objs))
  {
    hide Linked, Distinct, Sum, Fit, Bounded;
    var cacheData, cacheLen;
    cacheData, cacheLen, sent := ForwardResponse(chunks, cache.maxObjSize);
    if cacheLen < cache.maxObjSize {
      var obj := new CacheObject(host, uri, "", cacheData[..cacheLen], now);
      PushBounded(Entries(cache.objs), obj.entry, cache.maxSize, cache.maxObjSize);
      var r := cache.PushFront(obj);
      if r != 0 {
        // A body below the limit is never refused, so the object is never freed here.
        assert false;
      }
    }
  }
}
