/**
 Address spaces under fork. `ForkLazy` is `from_user_lazily`, which shares pages
 copy-on-write; `ForkEager` is `from_user`, which copies them. Page tables are
 flat maps here, which `MemoryRuns.RunIsFlat` justifies, and a page is its frame;
 a frame is in use while some page map or COW map refers to it.
 */
module Cow {
  import opened Options
  import opened Sv39
  import opened PT = PageTable

  type Page = seq<nat>

  /** `MapPermission`. */
  datatype Perm = Perm(r: bool, w: bool, x: bool, u: bool)

  /** A segment, in page numbers, with its own page map (`pma.page_manager`). */
  datatype Vma = Vma(start: nat, end: nat, perm: Perm, pages: map<nat, nat>)

  datatype Space = Space(segs: seq<Vma>, cow: map<nat, nat>, pt: map<nat, Entry>)

  datatype World = World(mem: map<nat, Page>, spaces: map<nat, Space>)

  /** `PTEFlags::from(MapPermission)`. */
  function PermFlags(p: Perm): Flags {
    Flags(false, p.r, p.w, p.x, p.u, false, false, false, false)
  }

  /** What an entry lets a process do. */
  function Grants(e: Entry): Perm {
    Perm(e.flags.r, e.flags.w, e.flags.x, e.flags.u)
  }

  /** The entry with the rights of `perm` and everything else kept. */
  predicate Regranted(e: Entry, e': Entry, perm: Perm) {
    && e'.ppn == e.ppn && Grants(e') == perm
    && e'.flags == e.flags.(r := e'.flags.r, w := e'.flags.w, x := e'.flags.x, u := e'.flags.u)
  }

  // ----- segments -----------------------------------------------------------

  predicate InSeg(s: Vma, v: nat) {
    s.start <= v < s.end
  }

  /** Segments as the ordered map keyed by start holds them: disjoint and ascending. A heap starts out empty. */
  ghost predicate Sorted(segs: seq<Vma>) {
    && (forall i :: 0 <= i < |segs| ==> segs[i].start <= segs[i].end)
    && (forall i, j :: 0 <= i < j < |segs| ==> segs[i].end <= segs[j].start)
  }

  /** The first segment that covers page `v`. */
  function SegOf(segs: seq<Vma>, v: nat, from: nat := 0): (i: nat)
    requires from <= |segs|
    ensures from <= i <= |segs|
    ensures i < |segs| ==> InSeg(segs[i], v)
    ensures forall j :: from <= j < i ==> !InSeg(segs[j], v)
    decreases |segs| - from
  {
    if from == |segs| || InSeg(segs[from], v) then from else SegOf(segs, v, from + 1)
  }

  predicate Covered(segs: seq<Vma>, v: nat) {
    SegOf(segs, v) < |segs|
  }

  /** `find_vm_by_vaddr`: the test includes the upper end. */
  function FindVm(segs: seq<Vma>, va: nat, from: nat := 0): (i: nat)
    requires from <= |segs|
    ensures from <= i <= |segs|
    ensures i < |segs| ==> segs[i].start * PAGE_SIZE <= va <= segs[i].end * PAGE_SIZE
    ensures forall j :: from <= j < i ==> !(segs[j].start * PAGE_SIZE <= va <= segs[j].end * PAGE_SIZE)
    decreases |segs| - from
  {
    if from == |segs| || segs[from].start * PAGE_SIZE <= va <= segs[from].end * PAGE_SIZE then from
    else FindVm(segs, va, from + 1)
  }

  ghost predicate EndsAt(segs: seq<Vma>, va: nat) {
    exists i :: 0 <= i < |segs| && segs[i].end * PAGE_SIZE == va
  }

  /** The fault handler finds the covering segment exactly when no segment ends at the address. */
  lemma FindVmExact(segs: seq<Vma>, va: nat)
    requires Sorted(segs) && Covered(segs, va / PAGE_SIZE)
    ensures FindVm(segs, va) == SegOf(segs, va / PAGE_SIZE) <==> !EndsAt(segs, va)
  {
    var v, i, k := va / PAGE_SIZE, SegOf(segs, va / PAGE_SIZE), FindVm(segs, va);
    assert segs[i].start * PAGE_SIZE <= va < segs[i].end * PAGE_SIZE;
    if k != i {
      assert k < i;
      assert segs[k].end <= segs[i].start;
      assert segs[k].end * PAGE_SIZE == va;
    }
    if EndsAt(segs, va) {
      var j :| 0 <= j < |segs| && segs[j].end * PAGE_SIZE == va;
      assert j < i;
    }
  }

  // ----- the invariant --------------------------------------------------------

  function PagesAt(segs: seq<Vma>, v: nat): map<nat, nat>
    requires Covered(segs, v)
  {
    segs[SegOf(segs, v)].pages
  }

  /** How one page of a space is mapped, and who holds its frame. */
  ghost predicate PageOk(sp: Space, v: nat)
    requires v in sp.pt && Covered(sp.segs, v)
  {
    var e, pages := sp.pt[v], PagesAt(sp.segs, v);
    if v in sp.cow then
      e.ppn == sp.cow[v] && !e.flags.w && e.flags.cow && (v in pages ==> pages[v] == e.ppn)
    else
      v in pages && pages[v] == e.ppn && !e.flags.cow && (e.flags.w <==> sp.segs[SegOf(sp.segs, v)].perm.w)
  }

  ghost predicate SegsOk(segs: seq<Vma>) {
    && Sorted(segs)
    && (forall i, v :: 0 <= i < |segs| && v in segs[i].pages ==> InSeg(segs[i], v))
  }

  ghost predicate SpaceOk(sp: Space) {
    && SegsOk(sp.segs)
    && (forall v :: v in sp.pt <==> Covered(sp.segs, v))
    && (forall v :: v in sp.cow ==> v in sp.pt)
    && (forall v {:trigger PageOk(sp, v)} :: v in sp.pt ==> PageOk(sp, v))
  }

  predicate Mapped(w: World, s: nat, v: nat) {
    s in w.spaces && v in w.spaces[s].pt
  }

  function FrameAt(w: World, s: nat, v: nat): nat
    requires Mapped(w, s, v)
  {
    w.spaces[s].pt[v].ppn
  }

  /** Nothing else maps the frame of this page. */
  ghost predicate Sole(w: World, s: nat, v: nat)
    requires Mapped(w, s, v)
  {
    forall s', v' :: Mapped(w, s', v') && FrameAt(w, s', v') == FrameAt(w, s, v) ==> s' == s && v' == v
  }

  /** A frame that is mapped twice is copy-on-write wherever it is mapped. */
  ghost predicate Exclusive(w: World) {
    forall s, v :: Mapped(w, s, v) && v !in w.spaces[s].cow ==> Sole(w, s, v)
  }

  ghost predicate Inv(w: World) {
    SpacesOk(w) && FramesOk(w) && Exclusive(w)
  }

  ghost predicate SpacesOk(w: World) {
    forall s :: s in w.spaces ==> SpaceOk(w.spaces[s])
  }

  ghost predicate FramesOk(w: World) {
    forall s, v :: Mapped(w, s, v) ==> FrameAt(w, s, v) in w.mem
  }

  /** The frame has a live reference in some page map or COW map. */
  ghost predicate Held(w: World, f: nat) {
    exists s :: s in w.spaces && HeldBy(w.spaces[s], f)
  }

  ghost predicate HeldBy(sp: Space, f: nat) {
    || (exists v :: v in sp.cow && sp.cow[v] == f)
    || (exists i, v :: 0 <= i < |sp.segs| && v in sp.segs[i].pages && sp.segs[i].pages[v] == f)
  }

  /** Safety: a writable frame is mapped once, and a mapped frame is held by its own space. */
  lemma MappedFrames(w: World, s: nat, v: nat)
    requires Inv(w) && Mapped(w, s, v)
    ensures HeldBy(w.spaces[s], FrameAt(w, s, v))
    ensures w.spaces[s].pt[v].flags.w ==>
      forall s', v' :: Mapped(w, s', v') && FrameAt(w, s', v') == FrameAt(w, s, v) ==> s' == s && v' == v
  {
    var sp := w.spaces[s];
    assert PageOk(sp, v);
  }

  // ----- what a process sees --------------------------------------------------

  /** The page a process sees at (space, page number). */
  type Contents = (nat, nat) -> Option<Page>

  function PageAt(w: World, s: nat, v: nat): Option<Page> {
    if Mapped(w, s, v) && FrameAt(w, s, v) in w.mem then Some(w.mem[FrameAt(w, s, v)]) else None
  }

  /** `c` is what every process of `w` sees. */
  ghost predicate Shows(w: World, c: Contents) {
    forall s, v :: s in w.spaces ==> c(s, v) == PageAt(w, s, v)
  }

  /** Fork and store, on contents alone. */
  function CopySpace(c: Contents, parent: nat, child: nat): Contents {
    (s: nat, v: nat) => c(if s == child then parent else s, v)
  }

  function WriteWord(c: Contents, s: nat, v: nat, o: nat, x: nat): Contents {
    (s': nat, v': nat) =>
      if s' == s && v' == v && c(s, v).Some? && o < |c(s, v).value| then Some(c(s, v).value[o := x]) else c(s', v')
  }

  // ----- the eager and the lazy fork -------------------------------------------

  function Emptied(segs: seq<Vma>): (r: seq<Vma>)
    ensures |r| == |segs|
    ensures forall i :: 0 <= i < |segs| ==> r[i] == segs[i].(pages := map[])
  {
    seq(|segs|, i requires 0 <= i < |segs| => segs[i].(pages := map[]))
  }

  /** Every page is in its segment's own page map; otherwise `from_user_lazily` hits its `todo!`. */
  ghost predicate Resident(sp: Space) {
    forall v :: Covered(sp.segs, v) ==> v in sp.pt && v in PagesAt(sp.segs, v)
  }

  function CowFlags(f: Flags): Flags {
    f.(cow := true, w := false)
  }

  ghost function ShareAll(sp: Space): map<nat, nat>
    requires Resident(sp)
  {
    sp.cow + map v | v in sp.pt && Covered(sp.segs, v) :: PagesAt(sp.segs, v)[v]
  }

  /** The parent after `from_user_lazily`: its writable entries are demoted, its pages noted as COW. */
  ghost function LazyParent(sp: Space): Space
    requires Resident(sp)
  {
    sp.(pt := map v | v in sp.pt :: if Covered(sp.segs, v) then sp.pt[v].(flags := CowFlags(sp.pt[v].flags)) else sp.pt[v],
        cow := ShareAll(sp))
  }

  ghost function ChildTable(sp: Space): map<nat, Entry>
    requires Resident(sp)
  {
    map v | v in sp.pt && Covered(sp.segs, v) :: Entry(PagesAt(sp.segs, v)[v], Accessed(CowFlags(sp.pt[v].flags)))
  }

  /** The child of `from_user_lazily`: same segments without pages, same frames, all COW. */
  ghost function LazyChild(sp: Space): Space
    requires Resident(sp)
  {
    Space(Emptied(sp.segs), ShareAll(sp), ChildTable(sp))
  }

  ghost function ForkLazy(w: World, parent: nat, child: nat): World
    requires parent in w.spaces && Resident(w.spaces[parent])
  {
    w.(spaces := w.spaces[parent := LazyParent(w.spaces[parent])][child := LazyChild(w.spaces[parent])])
  }

  lemma EmptiedSame(segs: seq<Vma>, v: nat, from: nat)
    requires from <= |segs|
    ensures SegOf(Emptied(segs), v, from) == SegOf(segs, v, from)
    decreases |segs| - from
  {
    if from < |segs| && !InSeg(segs[from], v) {
      EmptiedSame(segs, v, from + 1);
    }
  }

  /** The pieces of `SpaceOk` for a space derived from `sp` over segments with the same bounds. */
  lemma DerivedSpaceOk(sp: Space, q: Space)
    requires SpaceOk(sp) && SegsOk(q.segs)
    requires forall v :: Covered(q.segs, v) <==> Covered(sp.segs, v)
    requires q.pt.Keys == sp.pt.Keys && q.cow.Keys <= sp.pt.Keys
    requires forall v :: v in q.pt ==> PageOk(q, v)
    ensures SpaceOk(q)
  {
  }

  /** `q` maps the same frames as `sp`, all of them COW. */
  ghost predicate AllCow(sp: Space, q: Space) {
    && q.pt.Keys == sp.pt.Keys
    && forall v :: v in sp.pt ==> q.pt[v].ppn == sp.pt[v].ppn && v in q.cow
  }

  /** The entry of a page that is now shared: the same page, the same rights but W, and COW. */
  predicate SharedEntry(e: Entry, e': Entry) {
    && e'.ppn == e.ppn && Grants(e') == Grants(e).(w := false) && e'.flags.cow && e'.flags.g == e.flags.g
    && (Live(e) ==> Live(e'))
  }

  /** Valid, accessed and dirty, as `map_one` makes every entry. */
  predicate Live(e: Entry) {
    e.flags.v && e.flags.a && e.flags.d
  }

  /** Same bounds, same permissions. */
  ghost predicate SameSegs(segs: seq<Vma>, segs': seq<Vma>) {
    |segs'| == |segs| && forall i :: 0 <= i < |segs| ==> segs'[i] == segs[i].(pages := segs'[i].pages)
  }

  ghost predicate SharedAt(sp: Space, q: Space, v: nat) {
    v in sp.pt && v in q.pt && SharedEntry(sp.pt[v], q.pt[v])
  }

  /** `q` has the segments of `sp`, and every page of `sp` as a shared one. */
  ghost predicate SharesWith(sp: Space, q: Space) {
    SameSegs(sp.segs, q.segs) && q.pt.Keys == sp.pt.Keys && forall v {:trigger SharedAt(sp, q, v)} :: v in sp.pt ==> SharedAt(sp, q, v)
  }

  ghost predicate AllLive(sp: Space) {
    forall v :: v in sp.pt ==> Live(sp.pt[v])
  }

  lemma ParentEntry(sp: Space, v: nat)
    requires SpaceOk(sp) && Resident(sp) && v in sp.pt
    ensures SharedAt(sp, LazyParent(sp), v)
  {
    assert PageOk(sp, v);
  }

  lemma ChildEntry(sp: Space, v: nat)
    requires SpaceOk(sp) && Resident(sp) && v in sp.pt
    ensures SharedAt(sp, LazyChild(sp), v)
  {
    assert PageOk(sp, v);
  }

  lemma ParentShares(sp: Space)
    requires SpaceOk(sp) && Resident(sp)
    ensures SharesWith(sp, LazyParent(sp))
  {
    forall v | v in sp.pt ensures SharedAt(sp, LazyParent(sp), v) == true {
      ParentEntry(sp, v);
    }
    assert LazyParent(sp).pt.Keys == sp.pt.Keys;
  }

  lemma ChildShares(sp: Space)
    requires SpaceOk(sp) && Resident(sp)
    ensures SharesWith(sp, LazyChild(sp))
  {
    LazyKeys(sp);
    forall v | v in sp.pt ensures SharedAt(sp, LazyChild(sp), v) == true {
      ChildEntry(sp, v);
    }
  }

  lemma ChildLive(sp: Space)
    requires Resident(sp)
    ensures AllLive(LazyChild(sp))
  {
  }

  /** The spaces of a fork. */
  lemma ForkLazySpaces(w: World, parent: nat, child: nat)
    requires parent in w.spaces && child !in w.spaces && Resident(w.spaces[parent])
    ensures var sp, w' := w.spaces[parent], ForkLazy(w, parent, child);
      && w'.spaces.Keys == w.spaces.Keys + {child}
      && w'.spaces[parent] == LazyParent(sp) && w'.spaces[child] == LazyChild(sp)
      && forall s :: s in w.spaces && s != parent ==> w'.spaces[s] == w.spaces[s]
  {
  }

  lemma LazyPage(sp: Space, v: nat)
    requires SpaceOk(sp) && Resident(sp) && v in sp.pt
    ensures v in LazyParent(sp).pt && v in LazyChild(sp).pt
    ensures LazyParent(sp).pt[v].ppn == sp.pt[v].ppn && v in LazyParent(sp).cow
    ensures LazyChild(sp).pt[v].ppn == sp.pt[v].ppn && v in LazyChild(sp).cow
    ensures Covered(LazyParent(sp).segs, v) && PageOk(LazyParent(sp), v)
    ensures Covered(LazyChild(sp).segs, v) && PageOk(LazyChild(sp), v)
  {
    EmptiedSame(sp.segs, v, 0);
    assert PageOk(sp, v);
  }

  lemma LazyParentOk(sp: Space)
    requires SpaceOk(sp) && Resident(sp)
    ensures SpaceOk(LazyParent(sp)) && AllCow(sp, LazyParent(sp))
  {
    var q := LazyParent(sp);
    assert q.pt.Keys == sp.pt.Keys && q.segs == sp.segs;
    forall v | v in sp.pt
      ensures PageOk(q, v) == true
      ensures q.pt[v].ppn == sp.pt[v].ppn && v in q.cow
    {
      LazyPage(sp, v);
    }
    DerivedSpaceOk(sp, q);
  }

  lemma EmptiedOk(sp: Space)
    requires SegsOk(sp.segs)
    ensures SegsOk(Emptied(sp.segs))
    ensures forall v :: Covered(Emptied(sp.segs), v) <==> Covered(sp.segs, v)
  {
    forall v: nat
      ensures Covered(Emptied(sp.segs), v) <==> Covered(sp.segs, v)
    {
      EmptiedSame(sp.segs, v, 0);
    }
  }

  lemma LazyKeys(sp: Space)
    requires SpaceOk(sp) && Resident(sp)
    ensures LazyChild(sp).pt.Keys == sp.pt.Keys && LazyChild(sp).cow.Keys <= sp.pt.Keys
  {
  }

  lemma LazyChildOk(sp: Space)
    requires SpaceOk(sp) && Resident(sp)
    ensures SpaceOk(LazyChild(sp)) && AllCow(sp, LazyChild(sp))
  {
    var q := LazyChild(sp);
    EmptiedOk(sp);
    LazyKeys(sp);
    forall v | v in sp.pt
      ensures PageOk(q, v) == true && q.pt[v].ppn == sp.pt[v].ppn && v in q.cow
    {
      LazyPage(sp, v);
    }
    DerivedSpaceOk(sp, q);
  }

  /** `w'` is `w` after `parent` became `p'` and `child` was added as `q'`, both all COW. */
  ghost predicate Forked(w: World, w': World, parent: nat, child: nat) {
    && parent in w.spaces && child !in w.spaces
    && w'.mem == w.mem
    && w'.spaces.Keys == w.spaces.Keys + {child}
    && (forall s :: s in w.spaces && s != parent ==> w'.spaces[s] == w.spaces[s])
    && AllCow(w.spaces[parent], w'.spaces[parent])
    && AllCow(w.spaces[parent], w'.spaces[child])
  }

  /** Each space maps what its origin mapped, and the two of the fork as COW. */
  lemma ForkedAt(w: World, w': World, parent: nat, child: nat, s: nat, v: nat)
    requires Forked(w, w', parent, child) && s in w'.spaces
    ensures var o := if s == child then parent else s;
      && o in w.spaces
      && (Mapped(w', s, v) <==> Mapped(w, o, v))
      && (Mapped(w, o, v) ==>
            && FrameAt(w', s, v) == FrameAt(w, o, v)
            && (v in w.spaces[o].cow || o == parent ==> v in w'.spaces[s].cow))
  {
  }

  lemma ForkedKeeps(w: World, w': World, c: Contents, parent: nat, child: nat)
    requires Forked(w, w', parent, child) && FramesOk(w) && Exclusive(w) && Shows(w, c)
    ensures FramesOk(w') && Exclusive(w') && Shows(w', CopySpace(c, parent, child))
  {
    forall s, v | s in w'.spaces
      ensures Mapped(w', s, v) ==> FrameAt(w', s, v) in w'.mem
      ensures CopySpace(c, parent, child)(s, v) == PageAt(w', s, v)
    {
      ForkedAt(w, w', parent, child, s, v);
    }
    forall s, v | Mapped(w', s, v) && v !in w'.spaces[s].cow
      ensures Sole(w', s, v)
    {
      ForkedAt(w, w', parent, child, s, v);
      forall s', v' | Mapped(w', s', v') && FrameAt(w', s', v') == FrameAt(w', s, v)
        ensures s' == s && v' == v
      {
        ForkedAt(w, w', parent, child, s', v');
      }
    }
  }

  lemma AddsForked(w: World, w': World, parent: nat, child: nat, p: Space, q: Space)
    requires parent in w.spaces && child !in w.spaces
    requires AllCow(w.spaces[parent], p) && AllCow(w.spaces[parent], q)
    requires w' == w.(spaces := w.spaces[parent := p][child := q])
    ensures Forked(w, w', parent, child)
  {
  }

  lemma SetSpaceOk(w: World, w': World, s: nat, sp: Space)
    requires SpacesOk(w) && SpaceOk(sp) && w'.spaces == w.spaces[s := sp]
    ensures SpacesOk(w')
  {
    forall t | t in w'.spaces
      ensures SpaceOk(w'.spaces[t]) == true
    {
    }
  }

  /** Who may do what after a lazy fork: both processes as the parent before, but for writing. */
  lemma ForkLazyRights(w: World, parent: nat, child: nat)
    requires Inv(w) && parent in w.spaces && child !in w.spaces && Resident(w.spaces[parent])
    ensures var sp, w' := w.spaces[parent], ForkLazy(w, parent, child);
      && w'.spaces.Keys == w.spaces.Keys + {child}
      && SharesWith(sp, w'.spaces[parent]) && w'.spaces[parent].segs == sp.segs
      && SharesWith(sp, w'.spaces[child]) && AllLive(w'.spaces[child])
      && forall s :: s in w.spaces && s != parent ==> w'.spaces[s] == w.spaces[s]
  {
    ForkLazySpaces(w, parent, child);
    ParentShares(w.spaces[parent]);
    ChildShares(w.spaces[parent]);
    ChildLive(w.spaces[parent]);
  }

  /** A lazy fork keeps the invariant and shows the child the parent's contents. */
  lemma ForkLazyCorrect(w: World, c: Contents, parent: nat, child: nat)
    requires Inv(w) && Shows(w, c) && parent in w.spaces && child !in w.spaces && Resident(w.spaces[parent])
    ensures Inv(ForkLazy(w, parent, child))
    ensures Shows(ForkLazy(w, parent, child), CopySpace(c, parent, child))
  {
    var sp := w.spaces[parent];
    LazyParentOk(sp);
    LazyChildOk(sp);
    var w1 := w.(spaces := w.spaces[parent := LazyParent(sp)]);
    SetSpaceOk(w, w1, parent, LazyParent(sp));
    SetSpaceOk(w1, ForkLazy(w, parent, child), child, LazyChild(sp));
    AddsForked(w, ForkLazy(w, parent, child), parent, child, LazyParent(sp), LazyChild(sp));
    ForkedKeeps(w, ForkLazy(w, parent, child), c, parent, child);
  }

  // ----- stores and the copy-on-write fault ---------------------------------------

  /** `CowPageFaultHandler` for page `v`, whose new page `f` lands in segment `i`'s page map. */
  function CowSpace(sp: Space, v: nat, i: nat, f: nat): Space
    requires v in sp.pt && i < |sp.segs|
  {
    Space(sp.segs[i := sp.segs[i].(pages := sp.segs[i].pages[v := f])],
          sp.cow - {v},
          sp.pt[v := Entry(f, Accessed(sp.pt[v].flags.(w := true, cow := false)))])
  }

  function CowFault(w: World, s: nat, v: nat, i: nat, f: nat): World
    requires Mapped(w, s, v) && v in w.spaces[s].cow && w.spaces[s].cow[v] in w.mem && i < |w.spaces[s].segs|
  {
    World(w.mem[f := w.mem[w.spaces[s].cow[v]]], w.spaces[s := CowSpace(w.spaces[s], v, i, f)])
  }

  /** The new frame is one the allocator may hand out: nobody refers to it. */
  ghost predicate Fresh(w: World, f: nat) {
    !Held(w, f)
  }

  lemma FreshNotMapped(w: World, f: nat)
    requires Inv(w) && Fresh(w, f)
    ensures forall s, v :: Mapped(w, s, v) ==> FrameAt(w, s, v) != f
  {
    forall s, v | Mapped(w, s, v)
      ensures FrameAt(w, s, v) != f
    {
      MappedFrames(w, s, v);
    }
  }

  lemma {:induction false} UpdateKeepsSegOf(segs: seq<Vma>, i: nat, pages: map<nat, nat>, v: nat, from: nat)
    requires i < |segs| && from <= |segs|
    ensures SegOf(segs[i := segs[i].(pages := pages)], v, from) == SegOf(segs, v, from)
    decreases |segs| - from
  {
    if from < |segs| {
      UpdateKeepsSegOf(segs, i, pages, v, from + 1);
    }
  }

  /** Adding a page to a segment's map, inside the segment. */
  lemma AddPageSegsOk(segs: seq<Vma>, i: nat, v: nat, f: nat)
    requires SegsOk(segs) && i < |segs| && InSeg(segs[i], v)
    ensures SegsOk(segs[i := segs[i].(pages := segs[i].pages[v := f])])
  {
    var t := segs[i := segs[i].(pages := segs[i].pages[v := f])];
    assert forall j :: 0 <= j < |segs| ==> t[j].start == segs[j].start && t[j].end == segs[j].end;
  }

  lemma CowSpaceOk(sp: Space, v: nat, f: nat)
    requires SpaceOk(sp) && v in sp.pt && v in sp.cow && sp.segs[SegOf(sp.segs, v)].perm.w
    ensures SpaceOk(CowSpace(sp, v, SegOf(sp.segs, v), f))
  {
    var i := SegOf(sp.segs, v);
    var q := CowSpace(sp, v, i, f);
    AddPageSegsOk(sp.segs, i, v, f);
    forall u: nat
      ensures Covered(q.segs, u) <==> Covered(sp.segs, u)
    {
      UpdateKeepsSegOf(sp.segs, i, sp.segs[i].pages[v := f], u, 0);
    }
    forall u | u in q.pt
      ensures PageOk(q, u) == true
    {
      CowSpacePage(sp, v, f, u);
    }
  }

  lemma CowSpacePage(sp: Space, v: nat, f: nat, u: nat)
    requires SpaceOk(sp) && v in sp.pt && v in sp.cow && sp.segs[SegOf(sp.segs, v)].perm.w && u in sp.pt
    ensures Covered(CowSpace(sp, v, SegOf(sp.segs, v), f).segs, u)
    ensures PageOk(CowSpace(sp, v, SegOf(sp.segs, v), f), u)
  {
    var i, j := SegOf(sp.segs, v), SegOf(sp.segs, u);
    var q := CowSpace(sp, v, i, f);
    UpdateKeepsSegOf(sp.segs, i, sp.segs[i].pages[v := f], u, 0);
    assert PageOk(sp, u);
    assert q.segs[j].perm == sp.segs[j].perm;
    assert q.segs[j].pages == if j == i then sp.segs[i].pages[v := f] else sp.segs[j].pages;
  }

  /** `w'` is `w` with one page of `s` moved to the unused frame `f`, a copy, and off the COW map. */
  ghost predicate Moved(w: World, w': World, s: nat, v: nat, f: nat) {
    && Mapped(w, s, v) && FrameAt(w, s, v) in w.mem
    && (forall s', v' :: Mapped(w, s', v') ==> FrameAt(w, s', v') != f)
    && w'.mem == w.mem[f := w.mem[FrameAt(w, s, v)]]
    && w'.spaces.Keys == w.spaces.Keys
    && (forall s' :: s' in w.spaces && s' != s ==> w'.spaces[s'] == w.spaces[s'])
    && w'.spaces[s].pt.Keys == w.spaces[s].pt.Keys && w'.spaces[s].pt[v].ppn == f
    && (forall v' :: v' in w.spaces[s].pt && v' != v ==> w'.spaces[s].pt[v'] == w.spaces[s].pt[v'])
    && w'.spaces[s].cow == w.spaces[s].cow - {v}
  }

  lemma MovedKeeps(w: World, w': World, c: Contents, s: nat, v: nat, f: nat)
    requires Moved(w, w', s, v, f) && FramesOk(w) && Exclusive(w) && Shows(w, c)
    ensures FramesOk(w') && Exclusive(w') && Shows(w', c)
  {
    forall s1, v1 | s1 in w'.spaces
      ensures Mapped(w', s1, v1) ==> FrameAt(w', s1, v1) in w'.mem
      ensures c(s1, v1) == PageAt(w', s1, v1)
    {
      assert Mapped(w, s1, v1) <==> Mapped(w', s1, v1);
    }
    forall s1, v1 | Mapped(w', s1, v1) && v1 !in w'.spaces[s1].cow
      ensures Sole(w', s1, v1)
    {
      MovedSole(w, w', s, v, f, s1, v1);
    }
  }

  lemma MovedSole(w: World, w': World, s: nat, v: nat, f: nat, s1: nat, v1: nat)
    requires Moved(w, w', s, v, f) && Exclusive(w) && Mapped(w', s1, v1) && v1 !in w'.spaces[s1].cow
    ensures Sole(w', s1, v1)
  {
    assert Mapped(w, s1, v1);
    forall s2, v2 | Mapped(w', s2, v2) && FrameAt(w', s2, v2) == FrameAt(w', s1, v1)
      ensures s2 == s1 && v2 == v1
    {
      assert Mapped(w, s2, v2);
      if !(s1 == s && v1 == v) {
        assert Sole(w, s1, v1);
      }
    }
  }

  lemma CowFaultMoves(w: World, s: nat, v: nat, i: nat, f: nat)
    requires Mapped(w, s, v) && v in w.spaces[s].cow && FrameAt(w, s, v) == w.spaces[s].cow[v] && i < |w.spaces[s].segs|
    requires FramesOk(w) && forall s', v' :: Mapped(w, s', v') ==> FrameAt(w, s', v') != f
    ensures w.spaces[s].cow[v] in w.mem && Moved(w, CowFault(w, s, v, i, f), s, v, f)
  {
    assert FrameAt(w, s, v) in w.mem;
  }

  /** The fault resolved in the covering segment keeps the invariant and all contents. */
  lemma CowFaultCorrect(w: World, c: Contents, s: nat, v: nat, f: nat)
    requires Inv(w) && Shows(w, c) && Mapped(w, s, v) && v in w.spaces[s].cow && Fresh(w, f)
    requires w.spaces[s].segs[SegOf(w.spaces[s].segs, v)].perm.w
    ensures w.spaces[s].cow[v] in w.mem
    ensures Inv(CowFault(w, s, v, SegOf(w.spaces[s].segs, v), f))
    ensures Shows(CowFault(w, s, v, SegOf(w.spaces[s].segs, v), f), c)
  {
    var i := SegOf(w.spaces[s].segs, v);
    assert PageOk(w.spaces[s], v);
    FreshNotMapped(w, f);
    CowFaultMoves(w, s, v, i, f);
    var w' := CowFault(w, s, v, i, f);
    CowSpaceOk(w.spaces[s], v, f);
    SetSpaceOk(w, w', s, CowSpace(w.spaces[s], v, i, f));
    MovedKeeps(w, w', c, s, v, f);
  }

  /** Who may do what after the fault: this process may write its page too, and all else is as it was. */
  lemma CowFaultRights(w: World, s: nat, v: nat, i: nat, f: nat)
    requires Mapped(w, s, v) && v in w.spaces[s].cow && w.spaces[s].cow[v] in w.mem && i < |w.spaces[s].segs|
    ensures var sp, w' := w.spaces[s], CowFault(w, s, v, i, f);
      && w'.spaces.Keys == w.spaces.Keys && (forall s' :: s' in w.spaces && s' != s ==> w'.spaces[s'] == w.spaces[s'])
      && var q := w'.spaces[s];
        && SameSegs(sp.segs, q.segs) && q.pt.Keys == sp.pt.Keys
        && (forall u :: u in sp.pt && u != v ==> q.pt[u] == sp.pt[u])
        && q.pt[v].ppn == f && Grants(q.pt[v]) == Grants(sp.pt[v]).(w := true)
        && Live(q.pt[v]) && !q.pt[v].flags.cow && q.pt[v].flags.g == sp.pt[v].flags.g
  {
  }

  /** A word stored through a writable entry. */
  function PokePage(w: World, s: nat, v: nat, o: nat, x: nat): World
    requires Mapped(w, s, v) && FrameAt(w, s, v) in w.mem
  {
    var page := w.mem[FrameAt(w, s, v)];
    if o < |page| then w.(mem := w.mem[FrameAt(w, s, v) := page[o := x]]) else w
  }

  /** A store to a page that only this process maps is seen by this process alone. */
  lemma PokeCorrect(w: World, c: Contents, s: nat, v: nat, o: nat, x: nat)
    requires Inv(w) && Shows(w, c) && Mapped(w, s, v) && v !in w.spaces[s].cow
    ensures FrameAt(w, s, v) in w.mem
    ensures Inv(PokePage(w, s, v, o, x))
    ensures Shows(PokePage(w, s, v, o, x), WriteWord(c, s, v, o, x))
  {
    assert Sole(w, s, v);
    var w' := PokePage(w, s, v, o, x);
    assert w'.spaces == w.spaces;
    forall s', v'
      ensures Mapped(w', s', v') <==> Mapped(w, s', v')
      ensures Mapped(w, s', v') ==> FrameAt(w', s', v') == FrameAt(w, s', v')
    {
    }
    forall s', v' | Mapped(w', s', v') && v' !in w'.spaces[s'].cow
      ensures Sole(w', s', v')
    {
      assert Sole(w, s', v');
    }
    assert c(s, v) == PageAt(w, s, v);
  }

  /**
   A store by process `s` at address `va`, with the page fault it may take; `f`
   is the frame a fault gets. `None` when the store is not let through.
   */
  ghost function StoreLazy(w: World, s: nat, va: nat, o: nat, x: nat, f: nat): Option<World> {
    var v := va / PAGE_SIZE;
    if !Mapped(w, s, v) || FrameAt(w, s, v) !in w.mem then None
    else if w.spaces[s].pt[v].flags.w then Some(PokePage(w, s, v, o, x))
    else
      var i := FindVm(w.spaces[s].segs, va);
      if v !in w.spaces[s].cow || w.spaces[s].cow[v] !in w.mem || i == |w.spaces[s].segs| then None
      else Some(PokePage(CowFault(w, s, v, i, f), s, v, o, x))
  }

  predicate WritableSeg(w: World, s: nat, v: nat) {
    s in w.spaces && Covered(w.spaces[s].segs, v) && w.spaces[s].segs[SegOf(w.spaces[s].segs, v)].perm.w
  }

  /** A store to a writable segment succeeds and changes just that word of just that process. */
  lemma StoreLazyCorrect(w: World, c: Contents, s: nat, va: nat, o: nat, x: nat, f: nat)
    requires Inv(w) && Shows(w, c) && WritableSeg(w, s, va / PAGE_SIZE) && Fresh(w, f)
    requires !EndsAt(w.spaces[s].segs, va)
    ensures StoreLazy(w, s, va, o, x, f).Some?
    ensures Inv(StoreLazy(w, s, va, o, x, f).value)
    ensures Shows(StoreLazy(w, s, va, o, x, f).value, WriteWord(c, s, va / PAGE_SIZE, o, x))
  {
    var v := va / PAGE_SIZE;
    var sp := w.spaces[s];
    assert Mapped(w, s, v) && FrameAt(w, s, v) in w.mem;
    assert PageOk(sp, v);
    if v in sp.cow {
      FindVmExact(sp.segs, va);
      CowFaultCorrect(w, c, s, v, f);
      PokeCorrect(CowFault(w, s, v, SegOf(sp.segs, v), f), c, s, v, o, x);
    } else {
      PokeCorrect(w, c, s, v, o, x);
    }
  }

  // ----- where the lazy form departs ---------------------------------------------

  /**
   A faulting store keeps page ownership in order exactly when no segment ends at
   its address: otherwise the copy lands in the neighbour's page map.
   */
  lemma BoundaryStore(w: World, c: Contents, s: nat, va: nat, o: nat, x: nat, f: nat)
    requires Inv(w) && Shows(w, c) && WritableSeg(w, s, va / PAGE_SIZE) && Fresh(w, f)
    requires va / PAGE_SIZE in w.spaces[s].cow
    ensures StoreLazy(w, s, va, o, x, f).Some?
    ensures Inv(StoreLazy(w, s, va, o, x, f).value) <==> !EndsAt(w.spaces[s].segs, va)
  {
    var sp := w.spaces[s];
    FindVmExact(sp.segs, va);
    if !EndsAt(sp.segs, va) {
      StoreLazyCorrect(w, c, s, va, o, x, f);
    } else {
      StrayStore(w, s, va, o, x, f);
    }
  }

  lemma StrayStore(w: World, s: nat, va: nat, o: nat, x: nat, f: nat)
    requires Inv(w) && WritableSeg(w, s, va / PAGE_SIZE) && Fresh(w, f)
    requires va / PAGE_SIZE in w.spaces[s].cow
    requires FindVm(w.spaces[s].segs, va) != SegOf(w.spaces[s].segs, va / PAGE_SIZE)
    ensures StoreLazy(w, s, va, o, x, f).Some?
    ensures !SpacesOk(StoreLazy(w, s, va, o, x, f).value)
  {
    var v, sp := va / PAGE_SIZE, w.spaces[s];
    var k := FindVm(sp.segs, va);
    StoreFaults(w, s, va, o, x, f);
    StrayPage(w, s, v, k, f);
    assert s in CowFault(w, s, v, k, f).spaces;
  }

  /** A store to a shared page is the fault and then the store. */
  lemma StoreFaults(w: World, s: nat, va: nat, o: nat, x: nat, f: nat)
    requires Inv(w) && Mapped(w, s, va / PAGE_SIZE) && va / PAGE_SIZE in w.spaces[s].cow
    ensures var v, k := va / PAGE_SIZE, FindVm(w.spaces[s].segs, va);
      && w.spaces[s].cow[v] in w.mem && k < |w.spaces[s].segs|
      && StoreLazy(w, s, va, o, x, f) == Some(PokePage(CowFault(w, s, v, k, f), s, v, o, x))
  {
    var v, sp := va / PAGE_SIZE, w.spaces[s];
    var i := SegOf(sp.segs, v);
    assert PageOk(sp, v) && FrameAt(w, s, v) in w.mem;
    assert sp.segs[i].start * PAGE_SIZE <= va <= sp.segs[i].end * PAGE_SIZE;
  }

  lemma StrayPage(w: World, s: nat, v: nat, k: nat, f: nat)
    requires Inv(w) && Mapped(w, s, v) && v in w.spaces[s].cow && Fresh(w, f)
    requires w.spaces[s].cow[v] in w.mem && k < |w.spaces[s].segs| && k != SegOf(w.spaces[s].segs, v)
    ensures !SpaceOk(CowFault(w, s, v, k, f).spaces[s])
  {
    var sp := w.spaces[s];
    var i := SegOf(sp.segs, v);
    var q := CowFault(w, s, v, k, f).spaces[s];
    UpdateKeepsSegOf(sp.segs, k, sp.segs[k].pages[v := f], v, 0);
    assert PagesAt(q.segs, v) == sp.segs[i].pages;
    assert v in sp.segs[i].pages ==> sp.segs[i].pages[v] != f;
    assert !PageOk(q, v);
  }

  /** After a fork, a store to a read-only segment is let through exactly while the page is COW. */
  lemma ReadOnlyStore(w: World, s: nat, va: nat, o: nat, x: nat, f: nat)
    requires Inv(w) && Mapped(w, s, va / PAGE_SIZE)
    ensures StoreLazy(w, s, va, o, x, f).Some? <==>
      WritableSeg(w, s, va / PAGE_SIZE) || va / PAGE_SIZE in w.spaces[s].cow
  {
    var v, sp := va / PAGE_SIZE, w.spaces[s];
    assert PageOk(sp, v) && FrameAt(w, s, v) in w.mem;
    var i := SegOf(sp.segs, v);
    assert sp.segs[i].start * PAGE_SIZE <= va <= sp.segs[i].end * PAGE_SIZE;
  }

  // ----- the eager form -------------------------------------------------------------

  /** `copies` gives each page of the parent its own unused frame. */
  ghost predicate FreshCopies(w: World, sp: Space, copies: map<nat, nat>) {
    && copies.Keys == sp.pt.Keys
    && (forall v :: v in copies ==> Fresh(w, copies[v]))
    && (forall u, v :: u in copies && v in copies && copies[u] == copies[v] ==> u == v)
  }

  function OwnPages(seg: Vma, copies: map<nat, nat>): map<nat, nat> {
    map v | v in copies && InSeg(seg, v) :: copies[v]
  }

  function WithCopies(segs: seq<Vma>, copies: map<nat, nat>): (r: seq<Vma>)
    ensures |r| == |segs|
    ensures forall i :: 0 <= i < |segs| ==> r[i] == segs[i].(pages := OwnPages(segs[i], copies))
  {
    seq(|segs|, i requires 0 <= i < |segs| => segs[i].(pages := OwnPages(segs[i], copies)))
  }

  /** The child of `from_user`: its own copy of every page, mapped with the segment's permission. */
  ghost function EagerChild(sp: Space, copies: map<nat, nat>): Space {
    Space(WithCopies(sp.segs, copies),
          map[],
          map v | v in copies && Covered(sp.segs, v) :: Entry(copies[v], Accessed(PermFlags(sp.segs[SegOf(sp.segs, v)].perm))))
  }

  /** `from_user`: the new space, and memory with the pages copied and nothing else changed. */
  ghost predicate ForkEager(w: World, parent: nat, child: nat, copies: map<nat, nat>, w': World) {
    && parent in w.spaces && child !in w.spaces
    && FreshCopies(w, w.spaces[parent], copies)
    && w'.spaces == w.spaces[child := EagerChild(w.spaces[parent], copies)]
    && (forall v :: v in copies && FrameAt(w, parent, v) in w.mem ==>
          copies[v] in w'.mem && w'.mem[copies[v]] == w.mem[FrameAt(w, parent, v)])
    && (forall f :: f in w.mem && f !in copies.Values ==> f in w'.mem && w'.mem[f] == w.mem[f])
  }

  lemma {:induction false} WithCopiesSame(segs: seq<Vma>, copies: map<nat, nat>, v: nat, from: nat)
    requires from <= |segs|
    ensures SegOf(WithCopies(segs, copies), v, from) == SegOf(segs, v, from)
    decreases |segs| - from
  {
    if from < |segs| {
      WithCopiesSame(segs, copies, v, from + 1);
    }
  }

  /** Who may do what in the copy: its segments are the parent's, and every entry grants what its segment does. */
  lemma ForkEagerRights(w: World, parent: nat, child: nat, copies: map<nat, nat>, w': World)
    requires SpacesOk(w) && ForkEager(w, parent, child, copies, w')
    ensures var sp, q := w.spaces[parent], w'.spaces[child];
      && w'.spaces.Keys == w.spaces.Keys + {child} && (forall s :: s in w.spaces ==> w'.spaces[s] == w.spaces[s])
      && SameSegs(sp.segs, q.segs) && q.pt.Keys == sp.pt.Keys && q.cow == map[]
      && forall v :: v in sp.pt ==>
        Grants(q.pt[v]) == sp.segs[SegOf(sp.segs, v)].perm && Live(q.pt[v]) && !q.pt[v].flags.cow && !q.pt[v].flags.g
  {
    EagerChildFrames(w.spaces[parent], copies);
  }

  lemma EagerPage(sp: Space, copies: map<nat, nat>, v: nat)
    requires SpaceOk(sp) && copies.Keys == sp.pt.Keys && v in sp.pt
    ensures v in EagerChild(sp, copies).pt && EagerChild(sp, copies).pt[v].ppn == copies[v]
    ensures Covered(EagerChild(sp, copies).segs, v) && PageOk(EagerChild(sp, copies), v)
  {
    WithCopiesSame(sp.segs, copies, v, 0);
  }

  lemma WithCopiesOk(segs: seq<Vma>, copies: map<nat, nat>)
    requires SegsOk(segs)
    ensures SegsOk(WithCopies(segs, copies))
    ensures forall v :: Covered(WithCopies(segs, copies), v) <==> Covered(segs, v)
  {
    forall v: nat
      ensures Covered(WithCopies(segs, copies), v) <==> Covered(segs, v)
    {
      WithCopiesSame(segs, copies, v, 0);
    }
  }

  lemma EagerChildFrames(sp: Space, copies: map<nat, nat>)
    requires SpaceOk(sp) && copies.Keys == sp.pt.Keys
    ensures EagerChild(sp, copies).pt.Keys == sp.pt.Keys
    ensures forall v :: v in sp.pt ==> EagerChild(sp, copies).pt[v].ppn == copies[v]
  {
  }

  lemma EagerChildPages(sp: Space, q: Space, copies: map<nat, nat>)
    requires SpaceOk(sp) && copies.Keys == sp.pt.Keys && q == EagerChild(sp, copies)
    requires q.pt.Keys == sp.pt.Keys
    requires forall v :: Covered(q.segs, v) <==> Covered(sp.segs, v)
    ensures forall v :: v in q.pt ==> PageOk(q, v)
  {
    forall v | v in q.pt
      ensures PageOk(q, v) == true
    {
      EagerPage(sp, copies, v);
    }
  }

  lemma EagerChildOk(sp: Space, copies: map<nat, nat>)
    requires SpaceOk(sp) && copies.Keys == sp.pt.Keys
    ensures SpaceOk(EagerChild(sp, copies))
    ensures EagerChild(sp, copies).pt.Keys == sp.pt.Keys
    ensures forall v :: v in sp.pt ==> EagerChild(sp, copies).pt[v].ppn == copies[v]
  {
    var q := EagerChild(sp, copies);
    EagerChildFrames(sp, copies);
    WithCopiesOk(sp.segs, copies);
    EagerChildPages(sp, q, copies);
    DerivedSpaceOk(sp, q);
  }

  /** Where the frames of the new world come from. */
  lemma ForkEagerAt(w: World, parent: nat, child: nat, copies: map<nat, nat>, w': World, s: nat, v: nat)
    requires ForkEager(w, parent, child, copies, w') && SpaceOk(w.spaces[parent]) && s in w'.spaces
    ensures Mapped(w', s, v) <==> if s == child then Mapped(w, parent, v) else Mapped(w, s, v)
    ensures Mapped(w', s, v) ==> FrameAt(w', s, v) == if s == child then copies[v] else FrameAt(w, s, v)
  {
    EagerChildOk(w.spaces[parent], copies);
  }

  lemma CopiesUnmapped(w: World, parent: nat, copies: map<nat, nat>, s: nat, v: nat)
    requires Inv(w) && parent in w.spaces && FreshCopies(w, w.spaces[parent], copies) && Mapped(w, s, v)
    ensures FrameAt(w, s, v) !in copies.Values
  {
    MappedFrames(w, s, v);
  }

  /** An eager fork keeps the invariant and gives the child a copy of the parent's contents. */
  lemma ForkEagerCorrect(w: World, c: Contents, parent: nat, child: nat, copies: map<nat, nat>, w': World)
    requires Inv(w) && Shows(w, c) && ForkEager(w, parent, child, copies, w')
    ensures Inv(w') && Shows(w', CopySpace(c, parent, child))
  {
    EagerChildOk(w.spaces[parent], copies);
    SetSpaceOk(w, w', child, EagerChild(w.spaces[parent], copies));
    forall s, v | s in w'.spaces
      ensures Mapped(w', s, v) ==> FrameAt(w', s, v) in w'.mem
      ensures CopySpace(c, parent, child)(s, v) == PageAt(w', s, v)
    {
      ForkEagerPage(w, c, parent, child, copies, w', s, v);
    }
    forall s, v | Mapped(w', s, v) && v !in w'.spaces[s].cow
      ensures Sole(w', s, v)
    {
      ForkEagerSole(w, parent, child, copies, w', s, v);
    }
  }

  lemma ForkEagerPage(w: World, c: Contents, parent: nat, child: nat, copies: map<nat, nat>, w': World, s: nat, v: nat)
    requires Inv(w) && Shows(w, c) && ForkEager(w, parent, child, copies, w') && s in w'.spaces
    ensures Mapped(w', s, v) ==> FrameAt(w', s, v) in w'.mem
    ensures CopySpace(c, parent, child)(s, v) == PageAt(w', s, v)
  {
    ForkEagerAt(w, parent, child, copies, w', s, v);
    var o := if s == child then parent else s;
    assert c(o, v) == PageAt(w, o, v);
    if Mapped(w, o, v) {
      CopiesUnmapped(w, parent, copies, o, v);
    }
  }

  lemma ForkEagerSole(w: World, parent: nat, child: nat, copies: map<nat, nat>, w': World, s: nat, v: nat)
    requires Inv(w) && ForkEager(w, parent, child, copies, w') && Mapped(w', s, v) && v !in w'.spaces[s].cow
    ensures Sole(w', s, v)
  {
    ForkEagerAt(w, parent, child, copies, w', s, v);
    if s != child {
      assert Sole(w, s, v);
      CopiesUnmapped(w, parent, copies, s, v);
    }
    forall s', v' | Mapped(w', s', v') && FrameAt(w', s', v') == FrameAt(w', s, v)
      ensures s' == s && v' == v
    {
      ForkEagerAt(w, parent, child, copies, w', s', v');
      if s' != child {
        CopiesUnmapped(w, parent, copies, s', v');
      }
    }
  }

  // ----- mprotect on shared pages ----------------------------------------------------

  /** The page is in its segment's own page map. */
  predicate OwnsPage(sp: Space, v: nat) {
    Covered(sp.segs, v) && v in PagesAt(sp.segs, v)
  }

  predicate PermAt(sp: Space, v: nat, p: Perm) {
    Covered(sp.segs, v) && sp.segs[SegOf(sp.segs, v)].perm == p
  }

  ghost predicate SameOwned(sp: Space, q: Space, v: nat) {
    (OwnsPage(q, v) <==> OwnsPage(sp, v)) && (OwnsPage(sp, v) ==> PagesAt(q.segs, v)[v] == PagesAt(sp.segs, v)[v])
  }

  /**
   `mprotect` of pages `[a, b)`, page by page as `VmaRange.MprotectCorrect` has it: owned
   pages in range get the new R, W, X and U in their entries, shared or not.
   */
  ghost predicate Protected(sp: Space, a: nat, b: nat, perm: Perm, q: Space) {
    && SegsOk(q.segs) && q.cow == sp.cow && q.pt.Keys == sp.pt.Keys
    && (forall v: nat {:trigger Covered(q.segs, v)} :: Covered(q.segs, v) <==> Covered(sp.segs, v))
    && (forall v: nat, p: Perm {:trigger PermAt(q, v, p)} :: PermAt(q, v, p) <==>
          if Covered(sp.segs, v) && a <= v < b then p == perm else PermAt(sp, v, p))
    && (forall v: nat {:trigger SameOwned(sp, q, v)} :: SameOwned(sp, q, v))
    && (forall v: nat :: v in sp.pt ==>
          q.pt[v] == if a <= v < b && OwnsPage(sp, v) then Remode(sp.pt[v], PermFlags(perm)) else sp.pt[v])
  }

  /** No page that is owned and shared at once is made writable. */
  ghost predicate ProtectOk(sp: Space, a: nat, b: nat, perm: Perm) {
    perm.w ==> forall v: nat :: a <= v < b && v in sp.cow ==> !OwnsPage(sp, v)
  }

  lemma ProtectedPage(sp: Space, a: nat, b: nat, perm: Perm, q: Space, v: nat)
    requires SpaceOk(sp) && Protected(sp, a, b, perm, q) && v in sp.pt
    ensures Covered(q.segs, v)
    ensures PageOk(q, v) <==> !(perm.w && a <= v < b && v in sp.cow && OwnsPage(sp, v))
  {
    assert PageOk(sp, v) && SameOwned(sp, q, v) && Covered(q.segs, v);
    assert PermAt(q, v, q.segs[SegOf(q.segs, v)].perm);
    assert PermAt(sp, v, sp.segs[SegOf(sp.segs, v)].perm);
  }

  lemma ProtectedSpace(sp: Space, a: nat, b: nat, perm: Perm, q: Space)
    requires SpaceOk(sp) && Protected(sp, a, b, perm, q)
    ensures SpaceOk(q) <==> ProtectOk(sp, a, b, perm)
  {
    if ProtectOk(sp, a, b, perm) {
      forall v | v in q.pt ensures PageOk(q, v) == true {
        ProtectedPage(sp, a, b, perm, q, v);
      }
    } else {
      var v: nat :| a <= v < b && v in sp.cow && OwnsPage(sp, v);
      ProtectedPage(sp, a, b, perm, q, v);
    }
  }

  /** The same pages are mapped to the same frames. */
  ghost predicate SameFrames(w: World, w': World) {
    forall s, v {:trigger Mapped(w', s, v)} ::
      (Mapped(w', s, v) <==> Mapped(w, s, v)) && (Mapped(w, s, v) ==> FrameAt(w', s, v) == FrameAt(w, s, v))
  }

  lemma ProtectFrames(w: World, s: nat, a: nat, b: nat, perm: Perm, q: Space)
    requires s in w.spaces && Protected(w.spaces[s], a, b, perm, q)
    ensures SameFrames(w, w.(spaces := w.spaces[s := q]))
  {
  }

  lemma SameSole(w: World, w': World, s: nat, v: nat)
    requires SameFrames(w, w') && Mapped(w, s, v)
    ensures Mapped(w', s, v) && (Sole(w', s, v) <==> Sole(w, s, v))
  {
    assert Mapped(w', s, v);
    if Sole(w', s, v) {
      forall s', v' | Mapped(w, s', v') && FrameAt(w, s', v') == FrameAt(w, s, v) ensures s' == s && v' == v {
        assert Mapped(w', s', v');
      }
    }
  }

  lemma ProtectKeepsRest(w: World, c: Contents, s: nat, a: nat, b: nat, perm: Perm, q: Space)
    requires FramesOk(w) && Exclusive(w) && Shows(w, c) && s in w.spaces && Protected(w.spaces[s], a, b, perm, q)
    ensures var w' := w.(spaces := w.spaces[s := q]); FramesOk(w') && Exclusive(w') && Shows(w', c)
  {
    var w' := w.(spaces := w.spaces[s := q]);
    ProtectFrames(w, s, a, b, perm, q);
    forall s1, v1 | Mapped(w', s1, v1) && v1 !in w'.spaces[s1].cow ensures Sole(w', s1, v1) {
      SameSole(w, w', s1, v1);
    }
    forall s1, v1 | s1 in w'.spaces ensures c(s1, v1) == PageAt(w', s1, v1) {
      assert Mapped(w', s1, v1) <==> Mapped(w, s1, v1);
    }
  }

  /** Nobody's contents change; the invariant is kept if and only if no owned and shared page is made writable. */
  lemma ProtectCorrect(w: World, c: Contents, s: nat, a: nat, b: nat, perm: Perm, q: Space)
    requires Inv(w) && Shows(w, c) && s in w.spaces && Protected(w.spaces[s], a, b, perm, q)
    ensures var w' := w.(spaces := w.spaces[s := q]);
      Shows(w', c) && (Inv(w') <==> ProtectOk(w.spaces[s], a, b, perm))
  {
    var w' := w.(spaces := w.spaces[s := q]);
    ProtectedSpace(w.spaces[s], a, b, perm, q);
    ProtectKeepsRest(w, c, s, a, b, perm, q);
    if ProtectOk(w.spaces[s], a, b, perm) {
      SetSpaceOk(w, w', s, q);
    } else {
      assert s in w'.spaces && !SpaceOk(w'.spaces[s]);
    }
  }

  ghost predicate OnceIfWritable(w: World, s: nat, v: nat) {
    Mapped(w, s, v) && w.spaces[s].pt[v].flags.w ==> Sole(w, s, v)
  }

  ghost predicate WritableOnce(w: World) {
    forall s, v {:trigger OnceIfWritable(w, s, v)} :: OnceIfWritable(w, s, v)
  }

  /** A page that `mprotect` makes writable while the frame may have other users. */
  ghost predicate Exposed(sp: Space, a: nat, b: nat, v: nat) {
    a <= v < b && v in sp.pt && v in sp.cow && OwnsPage(sp, v)
  }

  lemma ProtectExposes(w: World, s: nat, a: nat, b: nat, perm: Perm, q: Space, s': nat, v: nat)
    requires Inv(w) && s in w.spaces && Protected(w.spaces[s], a, b, perm, q)
    ensures OnceIfWritable(w.(spaces := w.spaces[s := q]), s', v) <==>
      (perm.w && s' == s && Exposed(w.spaces[s], a, b, v) ==> Sole(w, s, v))
  {
    var w' := w.(spaces := w.spaces[s := q]);
    ProtectFrames(w, s, a, b, perm, q);
    assert Mapped(w', s', v) <==> Mapped(w, s', v);
    if Mapped(w, s', v) {
      SameSole(w, w', s', v);
      WritableIsSole(w, s', v);
      if s' == s {
        NotSharedIsSole(w, s, v);
      }
    }
  }

  lemma WritableIsSole(w: World, s: nat, v: nat)
    requires Inv(w) && Mapped(w, s, v)
    ensures w.spaces[s].pt[v].flags.w ==> Sole(w, s, v)
  {
    assert PageOk(w.spaces[s], v);
  }

  lemma NotSharedIsSole(w: World, s: nat, v: nat)
    requires Exclusive(w) && Mapped(w, s, v)
    ensures v !in w.spaces[s].cow ==> Sole(w, s, v)
  {
  }

  /** A frame mapped writable is mapped once if and only if each page made writable that way is shared with nobody. */
  lemma ProtectWritable(w: World, s: nat, a: nat, b: nat, perm: Perm, q: Space)
    requires Inv(w) && s in w.spaces && Protected(w.spaces[s], a, b, perm, q)
    ensures WritableOnce(w.(spaces := w.spaces[s := q])) <==>
      (perm.w ==> forall v: nat :: Exposed(w.spaces[s], a, b, v) ==> Sole(w, s, v))
  {
    var w' := w.(spaces := w.spaces[s := q]);
    forall s', v ensures OnceIfWritable(w', s', v) <==>
      (perm.w && s' == s && Exposed(w.spaces[s], a, b, v) ==> Sole(w, s, v))
    {
      ProtectExposes(w, s, a, b, perm, q, s', v);
    }
    assert forall v :: Exposed(w.spaces[s], a, b, v) ==> (OnceIfWritable(w', s, v) <==> (perm.w ==> Sole(w, s, v)));
  }

  // ----- behaviours ---------------------------------------------------------------------

  datatype Act =
    | Fork(parent: nat, child: nat)
    | Store(s: nat, va: nat, o: nat, x: nat)
    | Exit(s: nat)
    | Mprotect(s: nat, a: nat, b: nat, perm: Perm)

  /** What an action does to the contents alone. */
  function ActOn(c: Contents, a: Act): Contents {
    match a
    case Fork(parent, child) => CopySpace(c, parent, child)
    case Store(s, va, o, x) => WriteWord(c, s, va / PAGE_SIZE, o, x)
    case Exit(_) => c
    case Mprotect(_, _, _, _) => c
  }

  function ActAll(c: Contents, acts: seq<Act>): Contents {
    if acts == [] then c else ActOn(ActAll(c, acts[..|acts| - 1]), acts[|acts| - 1])
  }

  /** The processes alive after an action. */
  function AliveAfter(procs: set<nat>, a: Act): set<nat> {
    match a
    case Fork(_, child) => procs + {child}
    case Store(_, _, _, _) => procs
    case Exit(s) => procs - {s}
    case Mprotect(_, _, _, _) => procs
  }

  function Alive(procs: set<nat>, acts: seq<Act>): set<nat> {
    if acts == [] then procs else AliveAfter(Alive(procs, acts[..|acts| - 1]), acts[|acts| - 1])
  }

  /** Stores go to writable segments, at an address where no segment ends. */
  ghost predicate MayStore(w: World, s: nat, va: nat) {
    WritableSeg(w, s, va / PAGE_SIZE) && !EndsAt(w.spaces[s].segs, va)
  }

  /** Page `v` of a segment that `[a, b)` cuts is moved to a new segment. */
  predicate Moves(seg: Vma, a: nat, b: nat, v: nat) {
    seg.start < b && a < seg.end && ((seg.start < a && a <= v) || (b < seg.end && b <= v))
  }

  /** The pages that the splits move are there, and no owned and shared page is made writable. */
  ghost predicate MayProtect(w: World, s: nat, a: nat, b: nat, perm: Perm) {
    && s in w.spaces && a < b && ProtectOk(w.spaces[s], a, b, perm)
    && forall v: nat :: Covered(w.spaces[s].segs, v) && Moves(w.spaces[s].segs[SegOf(w.spaces[s].segs, v)], a, b, v) ==>
         OwnsPage(w.spaces[s], v)
  }

  ghost predicate ProtectNext(w: World, s: nat, a: nat, b: nat, perm: Perm, w': World) {
    MayProtect(w, s, a, b, perm) &&
    exists q :: Protected(w.spaces[s], a, b, perm, q) && w' == w.(spaces := w.spaces[s := q])
  }

  ghost predicate LazyNext(w: World, a: Act, w': World) {
    match a
    case Fork(parent, child) =>
      && parent in w.spaces && child !in w.spaces && Resident(w.spaces[parent])
      && w' == ForkLazy(w, parent, child)
    case Store(s, va, o, x) =>
      MayStore(w, s, va) && exists f: nat :: Fresh(w, f) && StoreLazy(w, s, va, o, x, f) == Some(w')
    case Exit(s) => w' == w.(spaces := w.spaces - {s})
    case Mprotect(s, a, b, perm) => ProtectNext(w, s, a, b, perm, w')
  }

  /** The same actions with eager copies: a page is never COW, so a store never faults. */
  ghost predicate EagerNext(w: World, a: Act, w': World) {
    match a
    case Fork(parent, child) => exists copies :: ForkEager(w, parent, child, copies, w')
    case Store(s, va, o, x) =>
      MayStore(w, s, va) && exists f: nat :: Fresh(w, f) && StoreLazy(w, s, va, o, x, f) == Some(w')
    case Exit(s) => w' == w.(spaces := w.spaces - {s})
    case Mprotect(s, a, b, perm) => ProtectNext(w, s, a, b, perm, w')
  }

  ghost predicate Behaviour(lazy: bool, ws: seq<World>, acts: seq<Act>) {
    && |ws| == |acts| + 1
    && forall i :: 0 <= i < |acts| ==> if lazy then LazyNext(ws[i], acts[i], ws[i + 1]) else EagerNext(ws[i], acts[i], ws[i + 1])
  }

  lemma ExitCorrect(w: World, c: Contents, s: nat)
    requires Inv(w) && Shows(w, c)
    ensures Inv(w.(spaces := w.spaces - {s})) && Shows(w.(spaces := w.spaces - {s}), c)
  {
    var w' := w.(spaces := w.spaces - {s});
    forall s', v' | s' in w'.spaces
      ensures Mapped(w', s', v') <==> Mapped(w, s', v')
      ensures c(s', v') == PageAt(w', s', v')
    {
    }
    forall s1, v1 | Mapped(w', s1, v1) && v1 !in w'.spaces[s1].cow
      ensures Sole(w', s1, v1)
    {
      assert Mapped(w, s1, v1) && Sole(w, s1, v1);
      assert forall s2, v2 :: Mapped(w', s2, v2) ==> Mapped(w, s2, v2) && FrameAt(w', s2, v2) == FrameAt(w, s2, v2);
    }
  }

  lemma NextCorrect(lazy: bool, w: World, c: Contents, a: Act, w': World)
    requires Inv(w) && Shows(w, c)
    requires if lazy then LazyNext(w, a, w') else EagerNext(w, a, w')
    ensures Inv(w') && Shows(w', ActOn(c, a))
  {
    match a {
      case Fork(parent, child) =>
        if lazy {
          ForkLazyCorrect(w, c, parent, child);
        } else {
          var copies :| ForkEager(w, parent, child, copies, w');
          ForkEagerCorrect(w, c, parent, child, copies, w');
        }
      case Store(s, va, o, x) =>
        var f: nat :| Fresh(w, f) && StoreLazy(w, s, va, o, x, f) == Some(w');
        StoreLazyCorrect(w, c, s, va, o, x, f);
      case Exit(s) =>
        ExitCorrect(w, c, s);
      case Mprotect(s, a', b, perm) =>
        var q :| Protected(w.spaces[s], a', b, perm, q) && w' == w.(spaces := w.spaces[s := q]);
        ProtectCorrect(w, c, s, a', b, perm, q);
    }
  }

  lemma StoreAlive(w: World, s: nat, va: nat, o: nat, x: nat, f: nat)
    requires StoreLazy(w, s, va, o, x, f).Some?
    ensures StoreLazy(w, s, va, o, x, f).value.spaces.Keys == w.spaces.Keys
  {
  }

  lemma NextAlive(lazy: bool, w: World, a: Act, w': World)
    requires if lazy then LazyNext(w, a, w') else EagerNext(w, a, w')
    ensures w'.spaces.Keys == AliveAfter(w.spaces.Keys, a)
  {
    match a {
      case Fork(parent, child) =>
        if !lazy {
          var copies :| ForkEager(w, parent, child, copies, w');
        }
      case Store(s, va, o, x) =>
        var f: nat :| Fresh(w, f) && StoreLazy(w, s, va, o, x, f) == Some(w');
        StoreAlive(w, s, va, o, x, f);
      case Exit(s) =>
      case Mprotect(s, a', b, perm) =>
    }
  }

  /** In every behaviour, of either kind, each process sees what the actions alone prescribe. */
  lemma {:induction false} BehaviourCorrect(lazy: bool, ws: seq<World>, acts: seq<Act>, c: Contents)
    requires Behaviour(lazy, ws, acts) && Inv(ws[0]) && Shows(ws[0], c)
    ensures Inv(ws[|acts|]) && Shows(ws[|acts|], ActAll(c, acts))
    ensures ws[|acts|].spaces.Keys == Alive(ws[0].spaces.Keys, acts)
    decreases |acts|
  {
    if acts != [] {
      var n := |acts| - 1;
      assert Behaviour(lazy, ws[..n + 1], acts[..n]);
      BehaviourCorrect(lazy, ws[..n + 1], acts[..n], c);
      assert ws[..n + 1][n] == ws[n];
      NextCorrect(lazy, ws[n], ActAll(c, acts[..n]), acts[n], ws[n + 1]);
      NextAlive(lazy, ws[n], acts[n], ws[n + 1]);
    }
  }

  /** Copy-on-write refines copying: after the same actions, every process sees the same pages. */
  lemma LazyRefinesEager(lws: seq<World>, ews: seq<World>, acts: seq<Act>, c: Contents)
    requires Behaviour(true, lws, acts) && Behaviour(false, ews, acts)
    requires Inv(lws[0]) && Inv(ews[0]) && Shows(lws[0], c) && Shows(ews[0], c)
    requires lws[0].spaces.Keys == ews[0].spaces.Keys
    ensures lws[|acts|].spaces.Keys == ews[|acts|].spaces.Keys
    ensures forall s, v :: s in lws[|acts|].spaces ==> PageAt(lws[|acts|], s, v) == PageAt(ews[|acts|], s, v)
  {
    BehaviourCorrect(true, lws, acts, c);
    BehaviourCorrect(false, ews, acts, c);
  }
}
