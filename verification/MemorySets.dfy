/**
 The fork and page-fault code over all address spaces, step by step. Each method
 is proved equal to its function in `Cow`. The frame a fault or a copy gets from
 the allocator is a parameter.
 */
module MemorySets {
  import opened Options
  import opened Sv39
  import opened PT = PageTable
  import opened Cow

  /** The pages that a walk over the segments has passed when it stands at page `cur` of segment `i`. */
  predicate Passed(segs: seq<Vma>, i: nat, cur: nat, v: nat) {
    SegOf(segs, v) < |segs| && (SegOf(segs, v) < i || (SegOf(segs, v) == i && v < cur))
  }

  lemma OnlySeg(segs: seq<Vma>, i: nat, v: nat)
    requires Sorted(segs) && i < |segs| && InSeg(segs[i], v)
    ensures SegOf(segs, v) == i
  {
    assert forall j :: 0 <= j < i ==> segs[j].end <= segs[i].start;
  }

  lemma PassedNext(segs: seq<Vma>, i: nat, cur: nat)
    requires Sorted(segs) && i < |segs| && InSeg(segs[i], cur)
    ensures !Passed(segs, i, cur, cur)
    ensures forall v: nat :: Passed(segs, i, cur + 1, v) <==> Passed(segs, i, cur, v) || v == cur
  {
    OnlySeg(segs, i, cur);
  }

  lemma PassedEnter(segs: seq<Vma>, i: nat)
    requires i < |segs|
    ensures SamePassed(segs, i, 0, i, segs[i].start)
  {
  }

  lemma PassedLeave(segs: seq<Vma>, i: nat)
    requires i < |segs|
    ensures SamePassed(segs, i, segs[i].end, i + 1, 0)
  {
  }

  /** The maps that `from_user_lazily` builds, after the passed pages: the parent's table, */
  ghost predicate ParentSoFar(sp: Space, ppt: map<nat, Entry>, i: nat, cur: nat) {
    && ppt.Keys == sp.pt.Keys
    && forall v :: v in sp.pt ==>
         ppt[v] == if Passed(sp.segs, i, cur, v) then sp.pt[v].(flags := CowFlags(sp.pt[v].flags)) else sp.pt[v]
  }

  /** the child's table, */
  ghost predicate ChildSoFar(sp: Space, cpt: map<nat, Entry>, i: nat, cur: nat)
    requires Resident(sp)
  {
    && (forall v :: v in cpt <==> v in sp.pt && Passed(sp.segs, i, cur, v))
    && (forall v :: v in cpt ==> cpt[v] == Entry(PagesAt(sp.segs, v)[v], Accessed(CowFlags(sp.pt[v].flags))))
  }

  /** and the COW map of both. */
  ghost predicate CowSoFar(sp: Space, cow: map<nat, nat>, i: nat, cur: nat)
    requires Resident(sp)
  {
    && (forall v :: v in cow <==> v in sp.cow || (v in sp.pt && Passed(sp.segs, i, cur, v)))
    && (forall v :: v in cow ==> cow[v] == if Passed(sp.segs, i, cur, v) then PagesAt(sp.segs, v)[v] else sp.cow[v])
  }

  ghost predicate SharedSoFar(sp: Space, ppt: map<nat, Entry>, cpt: map<nat, Entry>, cow: map<nat, nat>, i: nat, cur: nat)
    requires Resident(sp)
  {
    ParentSoFar(sp, ppt, i, cur) && ChildSoFar(sp, cpt, i, cur) && CowSoFar(sp, cow, i, cur)
  }

  lemma ParentStep(sp: Space, ppt: map<nat, Entry>, i: nat, v: nat)
    requires Sorted(sp.segs) && i < |sp.segs| && InSeg(sp.segs[i], v) && v in sp.pt && ParentSoFar(sp, ppt, i, v)
    ensures ppt[v] == sp.pt[v]
    ensures ParentSoFar(sp, ppt[v := sp.pt[v].(flags := CowFlags(sp.pt[v].flags))], i, v + 1)
  {
    PassedNext(sp.segs, i, v);
  }

  lemma ChildStep(sp: Space, cpt: map<nat, Entry>, i: nat, v: nat)
    requires Resident(sp) && Sorted(sp.segs) && i < |sp.segs| && InSeg(sp.segs[i], v) && ChildSoFar(sp, cpt, i, v)
    ensures v in sp.pt && v in sp.segs[i].pages && v !in cpt
    ensures ChildSoFar(sp, cpt[v := Entry(sp.segs[i].pages[v], Accessed(CowFlags(sp.pt[v].flags)))], i, v + 1)
  {
    OnlySeg(sp.segs, i, v);
    PassedNext(sp.segs, i, v);
  }

  lemma CowStep(sp: Space, cow: map<nat, nat>, i: nat, v: nat)
    requires Resident(sp) && Sorted(sp.segs) && i < |sp.segs| && InSeg(sp.segs[i], v) && CowSoFar(sp, cow, i, v)
    ensures v in sp.segs[i].pages
    ensures CowSoFar(sp, cow[v := sp.segs[i].pages[v]], i, v + 1)
  {
    OnlySeg(sp.segs, i, v);
    PassedNext(sp.segs, i, v);
  }

  ghost predicate SamePassed(segs: seq<Vma>, i: nat, cur: nat, i': nat, cur': nat) {
    forall v: nat :: Passed(segs, i, cur, v) <==> Passed(segs, i', cur', v)
  }

  lemma ParentMove(sp: Space, ppt: map<nat, Entry>, i: nat, cur: nat, i': nat, cur': nat)
    requires ParentSoFar(sp, ppt, i, cur) && SamePassed(sp.segs, i, cur, i', cur')
    ensures ParentSoFar(sp, ppt, i', cur')
  {
    forall v | v in sp.pt
      ensures ppt[v] == if Passed(sp.segs, i', cur', v) then sp.pt[v].(flags := CowFlags(sp.pt[v].flags)) else sp.pt[v]
    {
      assert Passed(sp.segs, i, cur, v) <==> Passed(sp.segs, i', cur', v);
    }
  }

  lemma ChildMove(sp: Space, cpt: map<nat, Entry>, i: nat, cur: nat, i': nat, cur': nat)
    requires Resident(sp) && ChildSoFar(sp, cpt, i, cur) && SamePassed(sp.segs, i, cur, i', cur')
    ensures ChildSoFar(sp, cpt, i', cur')
  {
  }

  lemma CowMove(sp: Space, cow: map<nat, nat>, i: nat, cur: nat, i': nat, cur': nat)
    requires Resident(sp) && CowSoFar(sp, cow, i, cur) && SamePassed(sp.segs, i, cur, i', cur')
    ensures CowSoFar(sp, cow, i', cur')
  {
  }

  lemma SharedEnter(sp: Space, ppt: map<nat, Entry>, cpt: map<nat, Entry>, cow: map<nat, nat>, i: nat)
    requires Resident(sp) && i < |sp.segs| && SharedSoFar(sp, ppt, cpt, cow, i, 0)
    ensures SharedSoFar(sp, ppt, cpt, cow, i, sp.segs[i].start)
  {
    PassedEnter(sp.segs, i);
    ParentMove(sp, ppt, i, 0, i, sp.segs[i].start);
    ChildMove(sp, cpt, i, 0, i, sp.segs[i].start);
    CowMove(sp, cow, i, 0, i, sp.segs[i].start);
  }

  lemma SharedLeave(sp: Space, ppt: map<nat, Entry>, cpt: map<nat, Entry>, cow: map<nat, nat>, i: nat)
    requires Resident(sp) && i < |sp.segs| && SharedSoFar(sp, ppt, cpt, cow, i, sp.segs[i].end)
    ensures SharedSoFar(sp, ppt, cpt, cow, i + 1, 0)
  {
    var end := sp.segs[i].end;
    assert ParentSoFar(sp, ppt, i + 1, 0) by {
      PassedLeave(sp.segs, i);
      ParentMove(sp, ppt, i, end, i + 1, 0);
    }
    assert ChildSoFar(sp, cpt, i + 1, 0) by {
      PassedLeave(sp.segs, i);
      ChildMove(sp, cpt, i, end, i + 1, 0);
    }
    assert CowSoFar(sp, cow, i + 1, 0) by {
      PassedLeave(sp.segs, i);
      CowMove(sp, cow, i, end, i + 1, 0);
    }
  }

  lemma PassedAll(segs: seq<Vma>)
    ensures forall v: nat :: Passed(segs, |segs|, 0, v) <==> Covered(segs, v)
  {
  }

  lemma SharedAll(sp: Space, ppt: map<nat, Entry>, cpt: map<nat, Entry>, cow: map<nat, nat>)
    requires Resident(sp) && SharedSoFar(sp, ppt, cpt, cow, |sp.segs|, 0)
    ensures LazyParent(sp) == sp.(pt := ppt, cow := cow)
    ensures LazyChild(sp) == Space(Emptied(sp.segs), cow, cpt)
  {
    PassedAll(sp.segs);
    CowAll(sp, cow);
    ParentAll(sp, ppt);
    ChildAll(sp, cpt);
  }

  lemma CowAll(sp: Space, cow: map<nat, nat>)
    requires Resident(sp) && CowSoFar(sp, cow, |sp.segs|, 0)
    ensures ShareAll(sp) == cow
  {
    PassedAll(sp.segs);
  }

  lemma ParentAll(sp: Space, ppt: map<nat, Entry>)
    requires Resident(sp) && ParentSoFar(sp, ppt, |sp.segs|, 0)
    ensures LazyParent(sp).pt == ppt
  {
    PassedAll(sp.segs);
  }

  lemma ChildAll(sp: Space, cpt: map<nat, Entry>)
    requires Resident(sp) && ChildSoFar(sp, cpt, |sp.segs|, 0)
    ensures ChildTable(sp) == cpt
  {
    PassedAll(sp.segs);
  }

  /** Each page of `sp` has a frame of its own in `copies`, none of them in use by `sp`. */
  ghost predicate Copying(mem0: map<nat, Page>, sp: Space, copies: map<nat, nat>) {
    && copies.Keys == sp.pt.Keys
    && (forall u, v :: u in copies && v in copies && copies[u] == copies[v] ==> u == v)
    && (forall v :: v in sp.pt ==> sp.pt[v].ppn in mem0 && sp.pt[v].ppn !in copies.Values)
  }

  lemma FreshIsDisjoint(w: World, parent: nat, copies: map<nat, nat>)
    requires parent in w.spaces && SpaceOk(w.spaces[parent]) && FreshCopies(w, w.spaces[parent], copies)
    ensures forall v :: v in w.spaces[parent].pt ==> w.spaces[parent].pt[v].ppn !in copies.Values
  {
    var sp := w.spaces[parent];
    forall v | v in sp.pt
      ensures sp.pt[v].ppn !in copies.Values
    {
      assert PageOk(sp, v);
      assert HeldBy(sp, sp.pt[v].ppn);
    }
  }

  ghost predicate MemCopied(mem0: map<nat, Page>, sp: Space, copies: map<nat, nat>, m: map<nat, Page>)
    requires copies.Keys == sp.pt.Keys
  {
    && (forall v :: v in copies && sp.pt[v].ppn in mem0 ==> copies[v] in m && m[copies[v]] == mem0[sp.pt[v].ppn])
    && (forall f :: f in mem0 && f !in copies.Values ==> f in m && m[f] == mem0[f])
  }

  /** What `from_user` has mapped after the passed pages, */
  ghost predicate MappedSoFar(sp: Space, copies: map<nat, nat>, cpt: map<nat, Entry>, i: nat, cur: nat)
    requires copies.Keys == sp.pt.Keys
  {
    && (forall v :: v in cpt <==> v in sp.pt && Passed(sp.segs, i, cur, v))
    && (forall v :: v in cpt ==> cpt[v] == Entry(copies[v], Accessed(PermFlags(sp.segs[SegOf(sp.segs, v)].perm))))
  }

  /** and what it has copied. */
  ghost predicate CopiedSoFar(mem0: map<nat, Page>, sp: Space, copies: map<nat, nat>, m: map<nat, Page>, cpt: map<nat, Entry>)
    requires copies.Keys == sp.pt.Keys && cpt.Keys <= sp.pt.Keys
  {
    && (forall v :: v in cpt && sp.pt[v].ppn in mem0 ==> copies[v] in m && m[copies[v]] == mem0[sp.pt[v].ppn])
    && (forall f :: f in mem0 && f !in copies.Values ==> f in m && m[f] == mem0[f])
  }

  lemma MappedStep(sp: Space, copies: map<nat, nat>, cpt: map<nat, Entry>, i: nat, v: nat)
    requires Sorted(sp.segs) && (forall u :: u in sp.pt <==> Covered(sp.segs, u))
    requires i < |sp.segs| && InSeg(sp.segs[i], v)
    requires copies.Keys == sp.pt.Keys && MappedSoFar(sp, copies, cpt, i, v)
    ensures v in sp.pt && cpt.Keys <= sp.pt.Keys
    ensures MappedSoFar(sp, copies, cpt[v := Entry(copies[v], Accessed(PermFlags(sp.segs[i].perm)))], i, v + 1)
  {
    OnlySeg(sp.segs, i, v);
    PassedNext(sp.segs, i, v);
    assert Covered(sp.segs, v);
  }

  lemma MappedMove(sp: Space, copies: map<nat, nat>, cpt: map<nat, Entry>, i: nat, cur: nat, i': nat, cur': nat)
    requires copies.Keys == sp.pt.Keys && MappedSoFar(sp, copies, cpt, i, cur) && SamePassed(sp.segs, i, cur, i', cur')
    ensures MappedSoFar(sp, copies, cpt, i', cur')
  {
  }

  lemma CopiedStep(mem0: map<nat, Page>, sp: Space, copies: map<nat, nat>, m: map<nat, Page>, cpt: map<nat, Entry>, v: nat, flags: Flags)
    requires Copying(mem0, sp, copies) && v in sp.pt && cpt.Keys <= sp.pt.Keys
    requires CopiedSoFar(mem0, sp, copies, m, cpt)
    ensures sp.pt[v].ppn in m
    ensures CopiedSoFar(mem0, sp, copies, m[copies[v] := m[sp.pt[v].ppn]], cpt[v := Entry(copies[v], flags)])
  {
    assert copies[v] in copies.Values;
    assert m[sp.pt[v].ppn] == mem0[sp.pt[v].ppn];
  }

  lemma MappedAll(sp: Space, copies: map<nat, nat>, cpt: map<nat, Entry>)
    requires SpaceOk(sp) && copies.Keys == sp.pt.Keys && MappedSoFar(sp, copies, cpt, |sp.segs|, 0)
    ensures EagerChild(sp, copies).pt == cpt
    ensures cpt.Keys == sp.pt.Keys
  {
    PassedAll(sp.segs);
  }

  /** The state of `from_user` between two pages. */
  ghost predicate CopyInv(mem0: map<nat, Page>, sp: Space, copies: map<nat, nat>, i: nat, cur: nat, m: map<nat, Page>, cpt: map<nat, Entry>) {
    && Sorted(sp.segs) && (forall u {:trigger Covered(sp.segs, u)} :: u in sp.pt <==> Covered(sp.segs, u))
    && Copying(mem0, sp, copies)
    && MappedSoFar(sp, copies, cpt, i, cur) && CopiedSoFar(mem0, sp, copies, m, cpt)
  }

  lemma CopyInvEnter(mem0: map<nat, Page>, sp: Space, copies: map<nat, nat>, m: map<nat, Page>, cpt: map<nat, Entry>, i: nat)
    requires CopyInv(mem0, sp, copies, i, 0, m, cpt) && i < |sp.segs|
    ensures CopyInv(mem0, sp, copies, i, sp.segs[i].start, m, cpt)
  {
    PassedEnter(sp.segs, i);
    MappedMove(sp, copies, cpt, i, 0, i, sp.segs[i].start);
  }

  lemma CopyInvLeave(mem0: map<nat, Page>, sp: Space, copies: map<nat, nat>, m: map<nat, Page>, cpt: map<nat, Entry>, i: nat)
    requires i < |sp.segs| && CopyInv(mem0, sp, copies, i, sp.segs[i].end, m, cpt)
    ensures CopyInv(mem0, sp, copies, i + 1, 0, m, cpt)
  {
    PassedLeave(sp.segs, i);
    MappedMove(sp, copies, cpt, i, sp.segs[i].end, i + 1, 0);
  }

  lemma CopyInvStep(mem0: map<nat, Page>, sp: Space, copies: map<nat, nat>, m: map<nat, Page>, cpt: map<nat, Entry>, i: nat, v: nat)
    requires CopyInv(mem0, sp, copies, i, v, m, cpt) && i < |sp.segs| && InSeg(sp.segs[i], v)
    ensures v in sp.pt && sp.pt[v].ppn in m && v in copies
    ensures CopyInv(mem0, sp, copies, i, v + 1, m[copies[v] := m[sp.pt[v].ppn]],
      cpt[v := Entry(copies[v], Accessed(PermFlags(sp.segs[i].perm)))])
  {
    MappedStep(sp, copies, cpt, i, v);
    CopiedStep(mem0, sp, copies, m, cpt, v, Accessed(PermFlags(sp.segs[i].perm)));
  }

  /** `pages` holds the copies of the pages from `start` up to `v`. */
  ghost predicate CopiesBelow(pages: map<nat, nat>, copies: map<nat, nat>, start: nat, v: nat) {
    && (forall u :: u in pages <==> u in copies && start <= u < v)
    && (forall u :: u in pages ==> pages[u] == copies[u])
  }

  lemma CopiesBelowStep(pages: map<nat, nat>, copies: map<nat, nat>, start: nat, v: nat)
    requires CopiesBelow(pages, copies, start, v) && start <= v && v in copies
    ensures CopiesBelow(pages[v := copies[v]], copies, start, v + 1)
  {
  }

  lemma CopiesBelowAll(pages: map<nat, nat>, seg: Vma, copies: map<nat, nat>)
    requires CopiesBelow(pages, copies, seg.start, seg.end)
    ensures pages == OwnPages(seg, copies)
  {
  }

  class AddressSpaces {
    var mem: map<nat, Page>
    var spaces: map<nat, Space>

    ghost function State(): World
      reads this
    {
      World(mem, spaces)
    }

    /** `from_user_lazily`. */
    method FromUserLazily(parent: nat, child: nat)
      requires parent in spaces && child !in spaces
      requires Sorted(spaces[parent].segs) && Resident(spaces[parent])
      modifies this
      ensures State() == ForkLazy(old(State()), parent, child)
    {
      var sp := spaces[parent];
      var p, q := SharePages(sp);
      spaces := spaces[parent := p][child := q];
    }

    /** The outer loop of `from_user_lazily`, over the segments: the new parent and the child. */
    static method SharePages(sp: Space) returns (p: Space, q: Space)
      requires Sorted(sp.segs) && Resident(sp)
      ensures p == LazyParent(sp) && q == LazyChild(sp)
    {
      var ppt: map<nat, Entry>, cpt: map<nat, Entry> := sp.pt, map[];
      var pcow: map<nat, nat>, ccow: map<nat, nat> := sp.cow, sp.cow;
      var segs: seq<Vma> := [];
      var i := 0;
      while i < |sp.segs|
        invariant 0 <= i <= |sp.segs| && segs == Emptied(sp.segs)[..i] && ccow == pcow
        invariant SharedSoFar(sp, ppt, cpt, pcow, i, 0)
      {
        ppt, cpt, pcow, ccow := ShareSegment(sp, i, ppt, cpt, pcow, ccow);
        segs := segs + [sp.segs[i].(pages := map[])];
        i := i + 1;
      }
      SharedAll(sp, ppt, cpt, pcow);
      assert Emptied(sp.segs)[..i] == Emptied(sp.segs);
      p, q := sp.(pt := ppt, cow := pcow), Space(segs, ccow, cpt);
    }

    /** The inner loop, over the pages of one segment. */
    static method ShareSegment(sp: Space, i: nat, ppt0: map<nat, Entry>, cpt0: map<nat, Entry>, pcow0: map<nat, nat>, ccow0: map<nat, nat>)
      returns (ppt: map<nat, Entry>, cpt: map<nat, Entry>, pcow: map<nat, nat>, ccow: map<nat, nat>)
      requires Sorted(sp.segs) && Resident(sp) && i < |sp.segs|
      requires SharedSoFar(sp, ppt0, cpt0, pcow0, i, 0) && ccow0 == pcow0
      ensures SharedSoFar(sp, ppt, cpt, pcow, i + 1, 0) && ccow == pcow
    {
      ppt, cpt, pcow, ccow := ppt0, cpt0, pcow0, ccow0;
      var seg := sp.segs[i];
      var v := seg.start;
      SharedEnter(sp, ppt, cpt, pcow, i);
      while v < seg.end
        invariant seg.start <= v <= seg.end && ccow == pcow
        invariant SharedSoFar(sp, ppt, cpt, pcow, i, v)
      {
        ChildStep(sp, cpt, i, v);
        ParentStep(sp, ppt, i, v);
        CowStep(sp, pcow, i, v);
        var flags := CowFlags(ppt[v].flags);
        ppt := ppt[v := ppt[v].(flags := flags)];
        cpt := cpt[v := Entry(seg.pages[v], Accessed(flags))];
        ccow := ccow[v := seg.pages[v]];
        pcow := pcow[v := seg.pages[v]];
        v := v + 1;
      }
      SharedLeave(sp, ppt, cpt, pcow, i);
    }

    /** `is_in_cow`: compare the address with each page of the COW map. */
    method IsInCow(s: nat, va: nat) returns (b: bool)
      requires s in spaces
      ensures b <==> va / PAGE_SIZE in spaces[s].cow
    {
      var rest := spaces[s].cow.Keys;
      while rest != {}
        invariant rest <= spaces[s].cow.Keys
        invariant forall v :: v in spaces[s].cow && v !in rest ==> v != va / PAGE_SIZE
      {
        var v :| v in rest;
        if v * PAGE_SIZE <= va < (v + 1) * PAGE_SIZE {
          return true;
        }
        rest := rest - {v};
      }
      return false;
    }

    /** `find_vm_by_vaddr`, over the segments in key order. */
    method FindVmByVaddr(s: nat, va: nat) returns (i: nat)
      requires s in spaces
      ensures i == FindVm(spaces[s].segs, va)
    {
      var segs := spaces[s].segs;
      i := 0;
      while i < |segs| && !(segs[i].start * PAGE_SIZE <= va <= segs[i].end * PAGE_SIZE)
        invariant 0 <= i <= |segs| && FindVm(segs, va, i) == FindVm(segs, va)
      {
        i := i + 1;
      }
    }

    /** `handle_page_fault` on a COW page: `CowPageFaultHandler`. */
    method HandleCowFault(s: nat, va: nat, i: nat, f: nat)
      requires Mapped(State(), s, va / PAGE_SIZE) && i < |spaces[s].segs|
      requires va / PAGE_SIZE in spaces[s].cow && spaces[s].cow[va / PAGE_SIZE] in mem
      modifies this
      ensures State() == CowFault(old(State()), s, va / PAGE_SIZE, i, f)
    {
      var sp := spaces[s];
      var v := va / PAGE_SIZE;
      var flags := sp.pt[v].flags.(w := true, cow := false);
      var page := sp.cow[v];
      mem := mem[f := mem[page]];
      var seg := sp.segs[i];
      spaces := spaces[s := Space(sp.segs[i := seg.(pages := seg.pages[v := f])],
                                  sp.cow - {v},
                                  sp.pt[v := Entry(f, Accessed(flags))])];
    }

    /** A user store: hardware first, then at most one page fault and a retry. */
    method Store(s: nat, va: nat, o: nat, x: nat, f: nat)
      requires StoreLazy(State(), s, va, o, x, f).Some?
      modifies this
      ensures StoreLazy(old(State()), s, va, o, x, f) == Some(State())
    {
      var v := va / PAGE_SIZE;
      if !spaces[s].pt[v].flags.w {
        var i := FindVmByVaddr(s, va);
        var b := IsInCow(s, va);
        if b {
          HandleCowFault(s, va, i, f);
        }
      }
      var g := spaces[s].pt[v].ppn;
      var page: Page := mem[g];
      if o < |page| {
        page := page[o := x];
        mem := mem[g := page];
      }
    }

    /** `from_user`; `copies` are the frames the allocator gives to the new pages. */
    method FromUser(parent: nat, child: nat, copies: map<nat, nat>)
      requires parent in spaces && child !in spaces && SpaceOk(spaces[parent])
      requires forall v :: v in spaces[parent].pt ==> spaces[parent].pt[v].ppn in mem
      requires FreshCopies(State(), spaces[parent], copies)
      modifies this
      ensures ForkEager(old(State()), parent, child, copies, State())
    {
      FreshIsDisjoint(State(), parent, copies);
      var m, q := CopyPages(mem, spaces[parent], copies);
      mem := m;
      spaces := spaces[child := q];
    }

    /** The outer loop of `from_user`: memory with the copies, and the child. */
    static method CopyPages(mem0: map<nat, Page>, sp: Space, copies: map<nat, nat>) returns (m: map<nat, Page>, q: Space)
      requires SpaceOk(sp) && Copying(mem0, sp, copies)
      ensures q == EagerChild(sp, copies) && MemCopied(mem0, sp, copies, m)
    {
      m := mem0;
      var cpt: map<nat, Entry>, segs: seq<Vma> := map[], [];
      var i := 0;
      while i < |sp.segs|
        invariant 0 <= i <= |sp.segs| && segs == WithCopies(sp.segs, copies)[..i]
        invariant CopyInv(mem0, sp, copies, i, 0, m, cpt)
      {
        var seg: Vma;
        m, cpt, seg := CopySegment(mem0, sp, copies, i, m, cpt);
        segs := segs + [seg];
        i := i + 1;
      }
      assert WithCopies(sp.segs, copies)[..i] == WithCopies(sp.segs, copies);
      MappedAll(sp, copies, cpt);
      q := Space(segs, map[], cpt);
    }

    /** The inner loop, over the pages of one segment. */
    static method CopySegment(mem0: map<nat, Page>, sp: Space, copies: map<nat, nat>, i: nat, m0: map<nat, Page>, cpt0: map<nat, Entry>)
      returns (m: map<nat, Page>, cpt: map<nat, Entry>, seg: Vma)
      requires CopyInv(mem0, sp, copies, i, 0, m0, cpt0) && i < |sp.segs|
      ensures seg == sp.segs[i].(pages := OwnPages(sp.segs[i], copies))
      ensures CopyInv(mem0, sp, copies, i + 1, 0, m, cpt)
    {
      m, cpt, seg := m0, cpt0, sp.segs[i];
      var pages: map<nat, nat>, v := map[], seg.start;
      CopyInvEnter(mem0, sp, copies, m, cpt, i);
      while v < seg.end
        invariant seg.start <= v <= seg.end
        invariant CopyInv(mem0, sp, copies, i, v, m, cpt)
        invariant CopiesBelow(pages, copies, seg.start, v)
      {
        m, cpt, pages := CopyPage(mem0, sp, copies, i, v, m, cpt, pages);
        v := v + 1;
      }
      CopyInvLeave(mem0, sp, copies, m, cpt, i);
      CopiesBelowAll(pages, seg, copies);
      seg := seg.(pages := pages);
    }

    /** Its body: a new page in the segment's page map, its table entry, and the bytes. */
    static method CopyPage(mem0: map<nat, Page>, sp: Space, copies: map<nat, nat>, i: nat, v: nat,
                           m0: map<nat, Page>, cpt0: map<nat, Entry>, pages0: map<nat, nat>)
      returns (m: map<nat, Page>, cpt: map<nat, Entry>, pages: map<nat, nat>)
      requires CopyInv(mem0, sp, copies, i, v, m0, cpt0) && i < |sp.segs| && InSeg(sp.segs[i], v)
      requires CopiesBelow(pages0, copies, sp.segs[i].start, v)
      ensures CopyInv(mem0, sp, copies, i, v + 1, m, cpt)
      ensures CopiesBelow(pages, copies, sp.segs[i].start, v + 1)
    {
      CopyInvStep(mem0, sp, copies, m0, cpt0, i, v);
      CopiesBelowStep(pages0, copies, sp.segs[i].start, v);
      var dst := copies[v];
      pages := pages0[v := dst];
      cpt := cpt0[v := Entry(dst, Accessed(PermFlags(sp.segs[i].perm)))];
      m := m0[dst := m0[sp.pt[v].ppn]];
    }
  }
}
