/** The buffers of an allocator with headers and footers. */
module TagTrace {
  import opened Memlib
  import opened Blocks
  import opened Tags
  import opened Trace

  function Payload(b: Block): Buffer {
    Buffer(b.addr, b.size - 8)
  }

  ghost function Live(bs: seq<Block>): set<Buffer> {
    set b | b in bs && !b.free :: Payload(b)
  }

  lemma LiveBlock(bs: seq<Block>, u: Buffer) returns (b: Block)
    requires u in Live(bs)
    ensures b in bs && !b.free && Payload(b) == u
  {
    b :| b in bs && !b.free && Payload(b) == u;
  }

  /** A block is live exactly if its payload is a buffer. */
  lemma LiveIs(bs: seq<Block>, b: Block)
    requires !b.free
    ensures b in bs <==> Payload(b) in Live(bs)
  {
    if Payload(b) in Live(bs) {
      var c := LiveBlock(bs, Payload(b));
      assert c == b;
    }
  }

  lemma PreservedKept(m: seq<int>, m': seq<int>, bs: seq<Block>, bs': seq<Block>, gone: set<Block>, dead: set<Buffer>)
    requires Preserved(m, m', bs, bs', gone) && forall b :: b in gone ==> Payload(b) in dead
    ensures Retained(m, m', Live(bs), Live(bs'), dead)
  {
    hide Live;
    forall u | u in Live(bs) && u !in dead ensures u in Live(bs') && SameBytes(m, m', u) {
      var b := LiveBlock(bs, u);
      assert SamePayload(m, m', b);
      LiveIs(bs', b);
    }
  }

  /** Buffers are aligned, lie inside the heap and do not overlap. */
  lemma LiveSeparate(d: Design, m: seq<int>, bs: seq<Block>)
    requires Layout(d, m, bs)
    ensures Separate(Live(bs), |m|)
  {
    hide Live, Layout;
    forall u | u in Live(bs) ensures u.start % 8 == 0 && 0 < u.start && u.start + u.room <= |m| {
      var b := LiveBlock(bs, u);
      Payloads(d, m, bs, b, b);
    }
    forall u, v | u in Live(bs) && v in Live(bs) && u != v
      ensures u.start + u.room <= v.start || v.start + v.room <= u.start
    {
      var b := LiveBlock(bs, u);
      var c := LiveBlock(bs, v);
      Payloads(d, m, bs, b, c);
    }
  }

  /** A write that fits into a buffer stays inside the payload of its block. */
  lemma WriteReady(d: Design, m: seq<int>, bs: seq<Block>, b: Block, size: nat, offset: nat)
    requires Layout(d, m, bs) && b in bs && size <= Payload(b).room && offset + 4 <= size && offset % 4 == 0
    ensures Aligned(b.addr + offset) && 0 <= b.addr + offset < |m| && b.addr + offset + 4 <= b.addr + b.size - 8
  {
    hide Layout;
    Payloads(d, m, bs, b, b);
    WordInside(b.addr, offset);
  }

  lemma WordInside(a: int, offset: nat)
    requires a % 8 == 0 && offset % 4 == 0
    ensures Aligned(a + offset)
  {
  }
}
