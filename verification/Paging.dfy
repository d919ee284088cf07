/**
 The page-table code itself: physical memory, the frame allocator over the
 bitmap, and a page table as an object that owns its table frames. Every method
 is proved equal to its function in `PageTable`.
 */
module Paging {
  import opened Bitmap
  import opened Options
  import opened Sv39
  import PT = PageTable
  import opened MemoryRuns

  /** Physical memory as words, and `FRAME_ALLOCATOR`, a `BitAlloc16M`. */
  class Memory {
    const bitmap: BitAlloc
    var words: map<nat, PT.Words>

    ghost predicate Valid()
      reads this, bitmap, bitmap.Repr
    {
      bitmap.level == 5 && bitmap.Valid() && this !in bitmap.Repr
    }

    ghost function State(): PT.Phys
      reads this, bitmap
    {
      PT.Phys(words, bitmap.Free)
    }

    constructor (bitmap: BitAlloc, words: map<nat, PT.Words>)
      requires bitmap.level == 5 && bitmap.Valid()
      ensures Valid() && this.bitmap == bitmap && this.words == words
    {
      this.bitmap := bitmap;
      this.words := words;
    }

    /** A store through `pte_array`. */
    method Poke(t: nat, i: nat, e: nat)
      requires Valid() && t in words && i < 512
      modifies this`words
      ensures Valid() && State() == PT.Poke(old(State()), t, i, e)
    {
      words := words[t := words[t][i := e]];
    }

    /** `FrameTracker::new`: clear the frame word by word. */
    method ZeroFrame(f: nat)
      modifies this`words
      ensures words == old(words)[f := PT.Zero()]
    {
      var w: seq<nat> := if f in words then words[f] else PT.Zero();
      var i := 0;
      while i < 512
        invariant 0 <= i <= 512 && |w| == 512
        invariant forall j :: 0 <= j < i ==> w[j] == 0
      {
        w := w[i := 0];
        i := i + 1;
      }
      assert w == PT.Zero();
      words := words[f := w];
    }

    /** `alloc_frame`. */
    method AllocFrame() returns (f: Option<nat>)
      requires Valid()
      modifies this`words, bitmap.Repr
      ensures Valid()
      ensures f.None? <==> old(State().free) == {}
      ensures f.None? ==> State() == old(State())
      ensures f.Some? ==> PT.AllocFrame(old(State())) == (State(), f.value)
    {
      f := bitmap.Alloc();
      if f.Some? {
        ZeroFrame(f.value);
      }
    }

    /** Dropping a `FrameTracker`. */
    method DropFrame(f: nat)
      requires Valid() && f < Cap(5) && f !in State().free
      modifies bitmap.Repr
      ensures Valid()
      ensures State() == old(State()).(free := old(State().free) + {f})
    {
      bitmap.Dealloc(f);
    }

    /** `alloc_contiguous_frame`: an empty vector when no block is free. */
    method AllocContiguous(n: nat) returns (fs: seq<nat>)
      requires Valid()
      modifies this`words, bitmap.Repr
      ensures Valid()
      ensures fs == [] ==>
        State() == old(State()) && (n == 0 || NoFit(old(State().free), Cap(5), n, 1))
      ensures fs != [] ==>
        && fs == Block(fs[0], n)
        && Fits(old(State().free), Cap(5), fs[0], n, 1)
        && NoFitBelow(old(State().free), Cap(5), n, 1, fs[0])
        && State() == PT.Phys(ZeroAll(old(words), fs[0], n), old(State().free) - Range(fs[0], fs[0] + n))
    {
      var base := bitmap.AllocContiguous(n, 0);
      if base.None? {
        return [];
      }
      BlockShape(base.value, n);
      fs := TrackBlock(base.value, n);
    }

    /** Wrap each frame of an allocated block in a `FrameTracker`. */
    method TrackBlock(b: nat, n: nat) returns (fs: seq<nat>)
      modifies this`words
      ensures fs == Block(b, n) && words == ZeroAll(old(words), b, n)
    {
      fs := [];
      var i := 0;
      while i < n
        invariant 0 <= i <= n && fs == Block(b, i) && words == ZeroAll(old(words), b, i)
      {
        ZeroFrame(b + i);
        fs := fs + [b + i];
        i := i + 1;
      }
    }
  }

  /** `b, b + 1, ..., b + n - 1`. */
  function Block(b: nat, n: nat): seq<nat> {
    if n == 0 then [] else Block(b, n - 1) + [b + n - 1]
  }

  lemma {:induction false} BlockShape(b: nat, n: nat)
    ensures |Block(b, n)| == n
    ensures forall i :: 0 <= i < n ==> Block(b, n)[i] == b + i
  {
    if n > 0 {
      BlockShape(b, n - 1);
    }
  }

  /** The entry of table `table` at `idx`: what `find_pte` returns a reference to. */
  datatype Slot = Slot(table: nat, idx: nat)

  class PageTable {
    const root: nat
    var frames: seq<nat>

    constructor (root: nat)
      ensures this.root == root && frames == [root]
    {
      this.root := root;
      frames := [root];
    }

    ghost function Owned(): set<nat>
      reads this
    {
      set f | f in frames
    }

    /** One round of the `find_pte_create` loop. */
    method DescendOne(m: Memory, pa: nat, i: nat) returns (c: nat)
      requires m.Valid() && i < 512 && PT.Descend(m.State(), pa, i).Some?
      requires {this, m} !! m.bitmap.Repr
      modifies this`frames, m`words, m.bitmap.Repr
      ensures m.Valid()
      ensures PT.Descend(old(m.State()), pa, i) == Some((m.State(), c))
      ensures m.State().free <= old(m.State().free)
      ensures Owned() == old(Owned()) + (old(m.State().free) - m.State().free)
    {
      if IsValid(m.words[pa][i]) {
        return PpnOf(m.words[pa][i]);
      }
      var f := m.AllocFrame();
      m.Poke(pa, i, NewPte(f.value, PT.TableFlags()));
      frames := frames + [f.value];
      assert Owned() == old(Owned()) + {f.value};
      c := f.value;
    }

    /** `find_pte_create`: walk the two upper levels, adding tables where they are missing. */
    method FindPteCreate(m: Memory, v: nat) returns (slot: Slot)
      requires m.Valid() && PT.WalkCreate(m.State(), root, v).Some?
      requires {this, m} !! m.bitmap.Repr
      modifies this`frames, m`words, m.bitmap.Repr
      ensures m.Valid()
      ensures PT.WalkCreate(old(m.State()), root, v) == Some((m.State(), slot.table))
      ensures slot.idx == Split(v).low
      ensures Owned() == old(Owned()) + (old(m.State().free) - m.State().free)
    {
      var s := Split(v);
      var idx := [s.top, s.mid, s.low];
      var pa := root;
      var i := 0;
      while i < 2
        invariant 0 <= i <= 2 && m.Valid()
        invariant i == 0 ==> pa == root && m.State() == old(m.State())
        invariant i == 1 ==> PT.Descend(old(m.State()), root, s.top) == Some((m.State(), pa))
        invariant i == 2 ==> PT.WalkCreate(old(m.State()), root, v) == Some((m.State(), pa))
        invariant m.State().free <= old(m.State().free)
        invariant Owned() == old(Owned()) + (old(m.State().free) - m.State().free)
      {
        pa := DescendOne(m, pa, idx[i]);
        i := i + 1;
      }
      slot := Slot(pa, idx[2]);
    }

    /** `find_pte`: the valid leaf entry of a page, if any. */
    method FindPte(m: Memory, v: nat) returns (slot: Option<Slot>)
      ensures slot.None? <==> PT.Lookup(m.words, root, v).None?
      ensures slot.Some? ==>
        && PT.LeafTable(m.words, root, v) == Some(slot.value.table)
        && slot.value.idx == Split(v).low
        && PT.Lookup(m.words, root, v) == PT.Decode(m.words[slot.value.table][slot.value.idx])
    {
      var s := Split(v);
      var idx := [s.top, s.mid, s.low];
      var pa := root;
      var i := 0;
      while i < 3
        invariant 0 <= i <= 2
        invariant i == 0 ==> pa == root
        invariant i == 1 ==> PT.Child(m.words, root, s.top) == Some(pa)
        invariant i == 2 ==> PT.LeafTable(m.words, root, v) == Some(pa)
      {
        if pa !in m.words || !IsValid(m.words[pa][idx[i]]) {
          return None;
        }
        if i == 2 {
          return Some(Slot(pa, idx[i]));
        }
        pa := PpnOf(m.words[pa][idx[i]]);
        i := i + 1;
      }
    }

    lemma MapOneIsWrite(p: PT.Phys, q: PT.Phys, t: nat, v: nat, ppn: nat, flags: Flags)
      requires PT.MapOne(p, root, v, ppn, flags).Some? && PT.WalkCreate(p, root, v) == Some((q, t))
      ensures t in q.mem
      ensures PT.MapOne(p, root, v, ppn, flags).value == PT.Poke(q, t, Split(v).low, NewPte(ppn, PT.Accessed(flags)))
    {
    }

    /** `map_one`. */
    method MapOne(m: Memory, v: nat, ppn: nat, flags: Flags)
      requires m.Valid() && {this, m} !! m.bitmap.Repr
      requires PT.MapOne(m.State(), root, v, ppn, flags).Some?
      modifies this`frames, m`words, m.bitmap.Repr
      ensures m.Valid()
      ensures PT.MapOne(old(m.State()), root, v, ppn, flags) == Some(m.State())
      ensures Owned() == old(Owned()) + (old(m.State().free) - m.State().free)
    {
      var s := FindPteCreate(m, v);
      MapOneIsWrite(old(m.State()), m.State(), s.table, v, ppn, flags);
      m.Poke(s.table, s.idx, NewPte(ppn, PT.Accessed(flags)));
    }

    /** `unmap`; the `assert!` inside holds, because `find_pte` only returns valid entries. */
    method Unmap(m: Memory, v: nat)
      requires m.Valid() && CheckedVpn(v)
      modifies m`words
      ensures m.Valid()
      ensures PT.Unmap(old(m.State()), root, v) == Some(m.State())
    {
      var s := FindPte(m, v);
      if s.Some? {
        assert IsValid(m.words[s.value.table][s.value.idx]);
        m.Poke(s.value.table, s.value.idx, 0);
      }
    }

    /** `modify_flags`; the `unwrap` needs a mapped page. */
    method ModifyFlags(m: Memory, v: nat, flags: Flags)
      requires m.Valid() && PT.ModifyFlags(m.State(), root, v, flags).Some?
      modifies m`words
      ensures m.Valid()
      ensures PT.ModifyFlags(old(m.State()), root, v, flags) == Some(m.State())
    {
      var s := FindPte(m, v);
      var e := ModifyBits(m.words[s.value.table][s.value.idx], flags);
      m.Poke(s.value.table, s.value.idx, e);
    }
  }

  /** `PageTable::new_user`. */
  method NewUserTable(m: Memory, kernelRoot: nat) returns (t: PageTable)
    requires m.Valid() && PT.NewUser(m.State(), kernelRoot).Some?
    modifies m`words, m.bitmap.Repr
    ensures m.Valid() && fresh(t)
    ensures PT.NewUser(old(m.State()), kernelRoot) == Some((m.State(), t.root))
    ensures t.frames == [t.root]
  {
    var f := m.AllocFrame();
    var w := m.words[f.value];
    w := w[KERNEL_PTE_POS := m.words[kernelRoot][KERNEL_PTE_POS]];
    m.words := m.words[f.value := w];
    w := w[KERNEL_MMIO_PTE_POS := m.words[kernelRoot][KERNEL_MMIO_PTE_POS]];
    m.words := m.words[f.value := w];
    t := new PageTable(f.value);
  }
}
