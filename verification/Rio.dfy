/** The buffered reader of `csapp.c`. */
module Rio {
  import opened Bytes

  const BUFSIZE := 8192
  const NEWLINE: byte := 10

  /** How the next `read` call on a descriptor ends: some bytes, an interruption, or an error.
      A short read delivers at least one byte. */
  datatype Event = Bytes(most: nat) | Interrupted | Error

  function Min(a: int, b: int): int {
    if a < b then a else b
  }

  /** A descriptor: the bytes still to come, and an arbitrary schedule of events. */
  class Descriptor {
    var stream: seq<byte>
    var events: seq<Event>

    constructor (stream: seq<byte>, events: seq<Event>)
      ensures this.stream == stream && this.events == events
    {
      this.stream, this.events := stream, events;
    }

    ghost predicate NoErrors()
      reads this
    {
      Error !in events
    }

    /** `read`: at most `n` bytes into the front of `buf`; zero bytes only at the end of the stream. */
    method Read(buf: array<byte>, n: nat) returns (r: int, interrupted: bool)
      requires 0 < n <= buf.Length
      modifies this, buf
      ensures -1 <= r <= n && r <= old(|stream|)
      ensures r == -1 ==> stream == old(stream) && buf[..] == old(buf[..])
      ensures r >= 0 ==> buf[..r] == old(stream)[..r] && stream == old(stream)[r..]
      ensures r == 0 ==> old(stream) == []
      ensures interrupted ==> r == -1
      ensures old(events) == [] ==> r == Min(n, old(|stream|)) && events == []
      ensures |events| <= old(|events|) && (interrupted ==> |events| < old(|events|))
      ensures old(NoErrors()) ==> NoErrors() && (r == -1 ==> interrupted)
    {
      var most := n;
      if events != [] {
        var e := events[0];
        events := events[1..];
        match e {
          case Interrupted => return -1, true;
          case Error => return -1, false;
          case Bytes(k) => most := Min(n, if k == 0 then 1 else k);
        }
      }
      r, interrupted := Min(most, |stream|), false;
      forall i | 0 <= i < r {
        buf[i] := stream[i];
      }
      stream := stream[r..];
    }
  }

  /** How many bytes a line takes: up to and including the first newline, at most `limit`, at most all of `p`. */
  function LineLength(p: seq<byte>, limit: nat): (k: nat)
    ensures k <= |p| && k <= limit
    ensures forall i :: 0 <= i < k - 1 ==> p[i] != NEWLINE
    ensures k == |p| || k == limit || (k > 0 && p[k - 1] == NEWLINE)
    ensures k == 0 ==> p == [] || limit == 0
  {
    if p == [] || limit == 0 then 0
    else if p[0] == NEWLINE then 1
    else 1 + LineLength(p[1..], limit - 1)
  }

  /** The three conditions above leave only one length. */
  lemma LineLengthUnique(p: seq<byte>, limit: nat, k: nat)
    requires k <= |p| && k <= limit
    requires forall i :: 0 <= i < k - 1 ==> p[i] != NEWLINE
    requires k == |p| || k == limit || (k > 0 && p[k - 1] == NEWLINE)
    requires k == 0 ==> p == [] || limit == 0
    ensures k == LineLength(p, limit)
  {
  }

  lemma SplitConcat<T>(u: seq<T>, s: seq<T>, r: nat)
    requires r <= |u|
    ensures (u + s)[r..] == u[r..] + s && (u + s)[..r] == u[..r]
  {
  }

  class Reader {
    const fd: Descriptor
    const buf: array<byte>
    var cnt: int
    var ptr: nat

    ghost predicate Valid()
      reads this
    {
      buf.Length == BUFSIZE && (cnt > 0 ==> ptr + cnt <= BUFSIZE)
    }

    /** Bytes taken from the descriptor but not yet delivered. */
    ghost function Unread(): seq<byte>
      requires Valid()
      reads this, buf
    {
      if cnt > 0 then buf[ptr..ptr + cnt] else []
    }

    /** Everything that is still to be delivered. */
    ghost function Pending(): seq<byte>
      requires Valid()
      reads this, buf, fd
    {
      Unread() + fd.stream
    }

    /** `rio_readinitb` */
    constructor (fd: Descriptor)
      ensures Valid() && this.fd == fd && fresh(buf) && Unread() == []
    {
      this.fd := fd;
      buf := new byte[BUFSIZE];
      cnt, ptr := 0, 0;
    }

    /** The refill loop of `rio_read`. */
    method Refill() returns (r: int)
      requires Valid()
      modifies this`cnt, this`ptr, buf, fd
      ensures Valid() && Pending() == old(Pending())
      ensures r == -1 || r == 0 || r == 1
      ensures r == 1 <==> cnt > 0
      ensures r == 0 ==> Pending() == []
      ensures old(cnt) > 0 ==> fd.stream == old(fd.stream) && fd.events == old(fd.events) && r == 1
      ensures old(cnt) <= 0 && old(fd.events) == [] && old(fd.stream) != [] ==> r == 1 && cnt == Min(8192, |old(fd.stream)|)
      ensures old(fd.NoErrors()) ==> fd.NoErrors() && r != -1
    {
      hide Descriptor.NoErrors;
      while cnt <= 0
        invariant Valid() && Pending() == old(Pending())
        invariant old(cnt) > 0 ==> cnt > 0 && fd.stream == old(fd.stream) && fd.events == old(fd.events)
        invariant old(cnt) <= 0 && old(fd.events) == [] && old(fd.stream) != [] ==>
          cnt == Min(8192, |old(fd.stream)|) || (cnt <= 0 && fd.events == [] && fd.stream == old(fd.stream))
        invariant old(fd.NoErrors()) ==> fd.NoErrors()
        decreases |fd.events|, if cnt <= 0 then 1 else 0
      {
        var interrupted;
        cnt, interrupted := fd.Read(buf, BUFSIZE);
        if cnt < 0 {
          if !interrupted {
            return -1;
          }
        } else if cnt == 0 {
          return 0;
        } else {
          ptr := 0;
          assert Unread() == buf[..cnt];
        }
      }
      return 1;
    }

    /** `rio_read`: `n` of the pending bytes, in order, or all that are unread once the buffer is filled, or none at the end
        of the stream. The descriptor is read only if the buffer is empty. */
    method Read(usr: array<byte>, at: nat, n: nat) returns (r: int)
      requires Valid() && usr != buf && 0 < n && at + n <= usr.Length
      modifies this`cnt, this`ptr, buf, fd, usr
      ensures Valid() && -1 <= r <= n
      ensures r == -1 ==> Pending() == old(Pending()) && usr[..] == old(usr[..])
      ensures r >= 0 ==>
        && r <= |old(Pending())| && Pending() == old(Pending())[r..]
        && usr[..at] == old(usr[..at]) && usr[at..at + r] == old(Pending())[..r]
      ensures r == 0 ==> old(Pending()) == []
      ensures r > 0 ==> r == n || Unread() == []
      ensures old(Unread()) == [] && old(fd.events) == [] && old(fd.stream) != [] ==> r == Min(n, Min(8192, |old(fd.stream)|))
      ensures old(Unread()) != [] ==> fd.stream == old(fd.stream) && fd.events == old(fd.events)
      ensures old(fd.NoErrors()) ==> fd.NoErrors() && r != -1
    {
      var status := Refill();
      if status != 1 {
        return status;
      }
      r := n;
      if cnt < n {
        r := cnt;
      }
      Deliver(usr, at, r);
    }

    /** The copy at the end of `rio_read`. */
    method Deliver(usr: array<byte>, at: nat, r: nat)
      requires Valid() && usr != buf && 0 <= r <= cnt && at + r <= usr.Length
      modifies this`cnt, this`ptr, usr
      ensures Valid() && r <= |old(Pending())| && Pending() == old(Pending())[r..] && cnt == old(cnt) - r
      ensures usr[..at] == old(usr[..at]) && usr[at..at + r] == old(Pending())[..r]
    {
      ghost var u := Unread();
      ghost var s := fd.stream;
      forall i | 0 <= i < r {
        usr[at + i] := buf[ptr + i];
      }
      forall i | 0 <= i < r ensures usr[at + i] == u[i] {
      }
      assert usr[at..at + r] == u[..r];
      ptr := ptr + r;
      cnt := cnt - r;
      assert Unread() == u[r..];
      SplitConcat(u, s, r);
    }

    /** `rio_readnb`: exactly `n` bytes, or all that are left. After an error, some pending bytes have been copied. */
    method ReadN(usr: array<byte>, n: nat) returns (r: int)
      requires Valid() && usr != buf && n <= usr.Length
      modifies this`cnt, this`ptr, buf, fd, usr
      ensures Valid()
      ensures r >= 0 ==> r == Min(n, |old(Pending())|) && usr[..r] == old(Pending())[..r] && Pending() == old(Pending())[r..]
      ensures r < 0 ==> Delivered(usr[..], old(Pending()), Pending())
      ensures old(fd.NoErrors()) ==> fd.NoErrors() && r >= 0
    {
      hide Pending, Unread, Delivered, Descriptor.NoErrors;
      ghost var p := Pending();
      var left, at := n, 0;
      while left > 0
        invariant Valid() && 0 <= at <= |p| && left == n - at && left >= 0
        invariant usr[..at] == p[..at] && Pending() == p[at..]
        invariant old(fd.NoErrors()) ==> fd.NoErrors()
      {
        r := Read(usr, at, left);
        if r < 0 {
          PartlyDelivered(usr[..], p, Pending(), at);
          return -1;
        } else if r == 0 {
          break;
        }
        Joined(p, at, r);
        assert usr[..at + r] == usr[..at] + usr[at..at + r];
        left := left - r;
        at := at + r;
      }
      return n - left;
    }

    /** `rio_read(rp, &c, 1)` */
    method ReadByte() returns (rc: int, c: byte)
      requires Valid()
      modifies this`cnt, this`ptr, buf, fd
      ensures Valid() && (rc == 1 || rc == 0 || rc == -1)
      ensures rc == -1 ==> Pending() == old(Pending())
      ensures rc == 0 ==> old(Pending()) == [] && Pending() == []
      ensures rc == 1 ==> old(Pending()) == [c] + Pending()
      ensures old(fd.NoErrors()) ==> fd.NoErrors() && rc != -1
    {
      hide Pending, Unread, Descriptor.NoErrors;
      var a := new byte[1];
      ghost var p := Pending();
      rc := Read(a, 0, 1);
      c := a[0];
      if rc == 1 {
        assert a[0..1] == [c];
        assert p == p[..1] + p[1..];
      }
    }

    /** `rio_readlineb`: a line, or `maxlen - 1` bytes, or all that is left; then a zero byte.
        At the end of the stream nothing is written. */
    method ReadLine(usr: array<byte>, maxlen: nat) returns (r: int)
      requires Valid() && usr != buf && maxlen <= usr.Length && 1 <= usr.Length
      modifies this`cnt, this`ptr, buf, fd, usr
      ensures Valid()
      ensures r >= 0 ==>
        && r == LineLength(old(Pending()), if maxlen > 0 then maxlen - 1 else 0)
        && usr[..r] == old(Pending())[..r] && Pending() == old(Pending())[r..]
        && (r > 0 || Limit(maxlen) == 0 ==> r < usr.Length && usr[r] == 0)
        && (r == 0 && Limit(maxlen) > 0 ==> usr[..] == old(usr[..]))
      ensures r < 0 ==> Delivered(usr[..], old(Pending()), Pending())
      ensures old(fd.NoErrors()) ==> fd.NoErrors() && r >= 0
    {
      hide LineLength, Pending, Unread, Delivered, Descriptor.NoErrors;
      ghost var p := Pending();
      var n, at := 1, 0;
      while n < maxlen
        invariant Valid() && at == n - 1 <= |p| && (n <= maxlen || n == 1)
        invariant usr[..at] == p[..at] && Pending() == p[at..]
        invariant forall i :: 0 <= i < at ==> p[i] != NEWLINE
        invariant at == 0 ==> usr[..] == old(usr[..])
        invariant old(fd.NoErrors()) ==> fd.NoErrors()
        decreases maxlen - n
      {
        var rc, c := ReadByte();
        if rc == 1 {
          Advance(usr[..at], p, at, c, Pending());
          usr[at] := c;
          assert usr[..at + 1] == usr[..at] + [c];
          at := at + 1;
          if c == NEWLINE {
            n := n + 1;
            break;
          }
        } else if rc == 0 {
          if n == 1 {
            LineLengthUnique(p, Limit(maxlen), 0);
            return 0;
          } else {
            break;
          }
        } else {
          PartlyDelivered(usr[..], p, Pending(), at);
          return -1;
        }
        n := n + 1;
      }
      LineLengthUnique(p, Limit(maxlen), at);
      usr[at] := 0;
      assert usr[..at] == p[..at];
      return n - 1;
    }
  }

  /** Room for the line itself, without the terminating zero byte. */
  function Limit(maxlen: nat): nat {
    if maxlen == 0 then 0 else maxlen - 1
  }

  /** Some first bytes of `p` are at the front of `usr`; the rest of `p` is still pending. */
  ghost predicate Delivered(usr: seq<byte>, p: seq<byte>, pending: seq<byte>) {
    exists k :: 0 <= k <= |p| && k <= |usr| && usr[..k] == p[..k] && pending == p[k..]
  }

  lemma PartlyDelivered(usr: seq<byte>, p: seq<byte>, pending: seq<byte>, k: nat)
    requires k <= |p| && k <= |usr| && usr[..k] == p[..k] && pending == p[k..]
    ensures Delivered(usr, p, pending)
  {
  }

  lemma Joined(p: seq<byte>, at: nat, r: nat)
    requires at <= |p| && r <= |p[at..]|
    ensures p[..at] + p[at..][..r] == p[..at + r] && p[at..][r..] == p[at + r..]
  {
  }

  lemma Advance(front: seq<byte>, p: seq<byte>, at: nat, c: byte, rest: seq<byte>)
    requires at <= |p| && front == p[..at] && p[at..] == [c] + rest
    ensures at < |p| && p[at] == c && front + [c] == p[..at + 1] && rest == p[at + 1..]
  {
    assert p[at..][0] == c && p[at..][1..] == rest;
  }

  /** One call of a client of the reader. */
  datatype Call = Exactly(n: nat) | Line(maxlen: nat)

  method Perform(rd: Reader, call: Call) returns (data: seq<byte>)
    requires rd.Valid() && rd.fd.NoErrors()
    modifies rd`cnt, rd`ptr, rd.buf, rd.fd
    ensures rd.Valid() && rd.fd.NoErrors() && old(rd.Pending()) == data + rd.Pending()
  {
    hide Reader.Pending, Reader.Unread, Delivered, LineLength, Descriptor.NoErrors;
    ghost var p := rd.Pending();
    var usr := new byte[1 + match call case Exactly(n) => n case Line(m) => m];
    var r;
    match call {
      case Exactly(n) => r := rd.ReadN(usr, n);
      case Line(maxlen) => r := rd.ReadLine(usr, maxlen);
    }
    data := usr[..r];
    assert p == p[..r] + p[r..];
  }

  lemma Associative<T>(a: seq<T>, b: seq<T>, c: seq<T>)
    ensures a + (b + c) == (a + b) + c
  {
  }

  /** Any mix of calls: what was delivered, followed by what is pending, is what was pending before. */
  method Mix(rd: Reader, calls: seq<Call>) returns (delivered: seq<byte>)
    requires rd.Valid() && rd.fd.NoErrors()
    modifies rd`cnt, rd`ptr, rd.buf, rd.fd
    ensures rd.Valid() && delivered + rd.Pending() == old(rd.Pending())
  {
    hide Reader.Pending, Reader.Unread, Descriptor.NoErrors;
    delivered := [];
    ghost var p := rd.Pending();
    assert [] + p == p;
    for i := 0 to |calls|
      invariant rd.Valid() && rd.fd.NoErrors() && delivered + rd.Pending() == p
    {
      var data := Perform(rd, calls[i]);
      Associative(delivered, data, rd.Pending());
      delivered := delivered + data;
    }
  }
}
