/** `coalesce` of `mm.c`. */
module SegCoalesce {
  import opened Common
  import opened Memlib
  import opened Blocks
  import opened Tags
  import opened SegHeap
  import opened SegOps

  /** After its tags a free block also gets its place in a list. */
  method PushTagged(h: Memory, bp: int, ghost b: Block, ghost bs: seq<Block>, ghost ls: seq<seq<Block>>)
    returns (ghost ls': seq<seq<Block>>)
    requires h.Valid() && SegInv(Ceil, h.Mem(), bs, ls, {b}) && b in bs && b.free && b.addr == bp
    modifies h.cells
    ensures SegInv(Ceil, h.Mem(), bs, ls', {}) && Preserved(old(h.Mem()), h.Mem(), bs, bs, {})
  {
    hide SegInv, OnlyLinks, Preserved;
    ghost var m := h.Mem();
    ls' := PushInSeglist(h, bp, b, bs, ls, {b});
    assert {b} - {b} == {};
    InvLayout(Ceil, m, bs, ls, {b});
    LinksPreserved(Ceil, m, h.Mem(), bs, {});
  }

  // ---------- coalesce ----------

  /** `BIT_MODIFIED(flags, 0, 0)` */
  function NotAllocated(flags: int): int {
    flags - flags % 2
  }

  /** The last step of `coalesce`: free blocks that have left their lists become one. */
  method Fuse(h: Memory, bp: int, size: int, ghost lo: nat, ghost hi: nat, ghost bs: seq<Block>, ghost ls: seq<seq<Block>>)
    returns (ghost ls': seq<seq<Block>>)
    requires h.Valid() && lo < hi <= |bs| && SegInv(Ceil, h.Mem(), bs, ls, Freed(bs[lo..hi]))
    requires Tiles([Block(bp, size, true)], Start(bs, lo, h.brk), Start(bs, hi, h.brk))
    requires forall x :: x in bs[lo..hi] ==> x.free
    requires bs[lo].free && bs[hi - 1].free
    modifies h.cells
    ensures SegInv(Ceil, h.Mem(), Splice(bs, lo, hi, [Block(bp, size, true)]), ls', {})
    ensures Preserved(old(h.Mem()), h.Mem(), bs, Splice(bs, lo, hi, [Block(bp, size, true)]), {})
  {
    hide SegInv, Preserved, Tiles, Layout, Aligned;
    ghost var m, b, bs' := h.Mem(), Block(bp, size, true), Splice(bs, lo, hi, [Block(bp, size, true)]);
    InvLayout(Ceil, m, bs, ls, Freed(bs[lo..hi]));
    OneInside(Ceil, m, bs, lo, hi, b);
    FuseReads(Ceil, m, bs, lo, hi, b);
    Retagged(Ceil, m, bs, ls, lo, hi, b, {});
    MaskedSize(size);
    h.Put(bp - 4, size + NotAllocated(h.Get(bp - 4) % 8));
    var footer := bp + Masked(h.Get(bp - 4)) - 8;
    h.Put(footer, size + NotAllocated(h.Get(footer) % 8));
    ghost var m1 := h.Mem();
    assert b in bs' by {
      assert bs'[lo] == b;
    }
    ls' := PushTagged(h, bp, b, bs', ls);
    PreservedTrans(m, m1, h.Mem(), bs, bs', bs', {});
  }

  /** `pop_from_seglist`, with what it preserves. */
  method Pop(h: Memory, bp: int, ghost k: nat, ghost bs: seq<Block>, ghost ls: seq<seq<Block>>, ghost out: set<Block>)
    returns (ghost ls': seq<seq<Block>>)
    requires h.Valid() && SegInv(Ceil, h.Mem(), bs, ls, out) && k < |bs| && bs[k].free && bs[k] !in out && bs[k].addr == bp
    modifies h.cells
    ensures SegInv(Ceil, h.Mem(), bs, ls', out + {bs[k]}) && Preserved(old(h.Mem()), h.Mem(), bs, bs, {})
  {
    hide SegInv, OnlyLinks, Preserved;
    ghost var m := h.Mem();
    ls' := PopFromSeglist(h, bp, bs[k], bs, ls, out);
    InvLayout(Ceil, m, bs, ls, out);
    LinksPreserved(Ceil, m, h.Mem(), bs, {});
  }

  /** `coalesce`: a listed free block merges with its free neighbours. */
  method Coalesce(h: Memory, bp: int, ghost k: nat, ghost bs: seq<Block>, ghost ls: seq<seq<Block>>)
    returns (r: int, ghost ls': seq<seq<Block>>)
    requires h.Valid() && SegInv(Ceil, h.Mem(), bs, ls, {})
    requires k < |bs| && bs[k].free && bs[k].addr == bp
    modifies h.cells
    ensures SegInv(Ceil, h.Mem(), Release(bs, k), ls', {}) && r == Merged(bs, k).addr
    ensures Preserved(old(h.Mem()), h.Mem(), bs, Release(bs, k), {})
  {
    hide SegInv, Preserved, Tiles, Layout, Freed, Aligned;
    ghost var m, lo, hi, rs := h.Mem(), First(bs, k), Past(bs, k), Release(bs, k);
    InvLayout(Ceil, m, bs, ls, {});
    Around(Ceil, m, bs, k);
    Joined(Ceil, m, bs, k);
    r, ls' := bp, ls;
    var prev, next := bp - Masked(h.Get(bp - 8)), bp + Masked(h.Get(bp - 4));
    var prevAlloc, nextAlloc := h.Get(prev - 4) % 2 == 1, h.Get(next - 4) % 2 == 1;
    var size := Masked(h.Get(bp - 4));
    if h.Get(prev - 4) / 2 % 2 == 1 {
      prevAlloc := true;
    }
    if prevAlloc && nextAlloc {
      AlreadyMerged(bs, k);
      PreservedRefl(Ceil, m, bs, {});
      return;
    }
    if !prevAlloc {
      size := size + Masked(h.Get(prev - 4));
    }
    if !nextAlloc {
      size := size + Masked(h.Get(next - 4));
    }
    ls' := Pop(h, bp, k, bs, ls, {});
    ghost var m1, out := h.Mem(), {} + {bs[k]};
    if !prevAlloc {
      ls' := Pop(h, prev, k - 1, bs, ls', out);
      PreservedTrans(m, m1, h.Mem(), bs, bs, bs, {});
      m1, out := h.Mem(), out + {bs[k - 1]};
    }
    if !nextAlloc {
      ls' := Pop(h, next, k + 1, bs, ls', out);
      PreservedTrans(m, m1, h.Mem(), bs, bs, bs, {});
      m1, out := h.Mem(), out + {bs[k + 1]};
    }
    if !prevAlloc {
      r := prev;
    }
    assert out == Freed(bs[lo..hi]);
    ls' := Fuse(h, r, size, lo, hi, bs, ls');
    PreservedTrans(m, m1, h.Mem(), bs, bs, rs, {});
  }
}
