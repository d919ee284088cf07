/**
 That the eager form can always keep step with the lazy one, and the smallest
 address spaces on which the lazy one departs from it.
 */
module Forks {
  import opened Options
  import opened Sv39
  import PT = PageTable
  import opened Cow

  // ----- an eager run for every lazy run ------------------------------------------

  /** The same bounds and permissions, whatever the pages. */
  ghost predicate SameShape(a: seq<Vma>, b: seq<Vma>) {
    && |a| == |b|
    && forall i :: 0 <= i < |a| ==> a[i].start == b[i].start && a[i].end == b[i].end && a[i].perm == b[i].perm
  }

  /** What is owned here is owned there; what is owned and shared there is so here. */
  ghost predicate TracksAt(a: Space, e: Space, v: nat) {
    && (OwnsPage(a, v) ==> OwnsPage(e, v))
    && (v in e.cow && OwnsPage(e, v) ==> v in a.cow && OwnsPage(a, v))
  }

  ghost predicate Tracks(a: Space, e: Space) {
    SameShape(a.segs, e.segs) && forall v: nat {:trigger TracksAt(a, e, v)} :: TracksAt(a, e, v)
  }

  ghost predicate Alike(w: World, e: World) {
    && (forall s :: s in w.spaces <==> s in e.spaces)
    && forall s {:trigger Tracks(w.spaces[s], e.spaces[s])} :: s in w.spaces ==> Tracks(w.spaces[s], e.spaces[s])
  }

  lemma {:induction false} ShapeSegOf(a: seq<Vma>, b: seq<Vma>, v: nat, from: nat)
    requires SameShape(a, b) && from <= |a|
    ensures SegOf(a, v, from) == SegOf(b, v, from)
    decreases |a| - from
  {
    if from < |a| {
      ShapeSegOf(a, b, v, from + 1);
    }
  }

  lemma ShapeMayStore(w: World, e: World, s: nat, va: nat)
    requires Alike(w, e) && MayStore(w, s, va)
    ensures MayStore(e, s, va)
  {
    var a, b := w.spaces[s].segs, e.spaces[s].segs;
    assert Tracks(w.spaces[s], e.spaces[s]);
    ShapeSegOf(a, b, va / PAGE_SIZE, 0);
    assert forall i :: 0 <= i < |b| ==> b[i].end * PAGE_SIZE == a[i].end * PAGE_SIZE;
  }

  lemma {:induction false} UpperBound(fs: set<nat>) returns (b: nat)
    ensures forall f :: f in fs ==> f < b
  {
    if fs == {} {
      b := 0;
    } else {
      var x :| x in fs;
      var c := UpperBound(fs - {x});
      b := if c <= x then x + 1 else c;
      forall f | f in fs ensures f < b {
        assert f == x || f in fs - {x};
      }
    }
  }

  ghost function FramesOf(w: World): set<nat> {
    (set s, v | s in w.spaces && v in w.spaces[s].cow :: w.spaces[s].cow[v]) +
    (set s, i, v | s in w.spaces && 0 <= i < |w.spaces[s].segs| && v in w.spaces[s].segs[i].pages ::
       w.spaces[s].segs[i].pages[v])
  }

  lemma HeldIsCounted(w: World, f: nat)
    requires Held(w, f)
    ensures f in FramesOf(w)
  {
  }

  /** There is always an unused frame, and any number of them. */
  lemma FreshAbove(w: World) returns (b: nat)
    ensures forall f :: f >= b ==> Fresh(w, f)
  {
    b := UpperBound(FramesOf(w));
    forall f | f >= b ensures Fresh(w, f) {
      if Held(w, f) {
        HeldIsCounted(w, f);
        assert false;
      }
    }
  }

  /** Memory with a copy of every page of a table at its own new frame. */
  lemma CopyAll(mem: map<nat, Page>, pt: map<nat, PT.Entry>, copies: map<nat, nat>, b: nat) returns (m: map<nat, Page>)
    requires copies.Keys == pt.Keys && forall v :: v in copies ==> copies[v] == b + v
    ensures forall v :: v in copies && pt[v].ppn in mem ==> copies[v] in m && m[copies[v]] == mem[pt[v].ppn]
    ensures forall f :: f in mem && f !in copies.Values ==> f in m && m[f] == mem[f]
  {
    var pages := map v | v in pt && pt[v].ppn in mem :: mem[pt[v].ppn];
    var moved := map f | f in copies.Values && f - b in pages :: pages[f - b];
    m := mem + moved;
    forall v | v in copies && pt[v].ppn in mem ensures copies[v] in m && m[copies[v]] == mem[pt[v].ppn] {
      assert copies[v] in copies.Values && copies[v] - b in pages;
    }
  }

  lemma EagerForkExists(w: World, parent: nat, child: nat) returns (w': World)
    requires parent in w.spaces && child !in w.spaces
    ensures EagerNext(w, Fork(parent, child), w')
  {
    var sp := w.spaces[parent];
    var b := FreshAbove(w);
    var copies := map v | v in sp.pt :: b + v;
    var mem := CopyAll(w.mem, sp.pt, copies, b);
    w' := World(mem, w.spaces[child := EagerChild(sp, copies)]);
    assert FreshCopies(w, sp, copies);
    assert ForkEager(w, parent, child, copies, w');
  }

  /** After a store its page is owned and not shared; no other page changes hands. */
  ghost predicate Stored(sp: Space, q: Space, v: nat) {
    && SameShape(sp.segs, q.segs) && OwnsPage(q, v) && v !in q.cow
    && forall u: nat {:trigger OwnsPage(q, u)} :: u != v ==> (OwnsPage(q, u) <==> OwnsPage(sp, u)) && (u in q.cow <==> u in sp.cow)
  }

  lemma FaultOwns(sp: Space, v: nat, f: nat, u: nat)
    requires v in sp.pt && Covered(sp.segs, v)
    ensures OwnsPage(CowSpace(sp, v, SegOf(sp.segs, v), f), u) <==> u == v || OwnsPage(sp, u)
  {
    var i := SegOf(sp.segs, v);
    UpdateKeepsSegOf(sp.segs, i, sp.segs[i].pages[v := f], u, 0);
  }

  lemma FaultStores(sp: Space, v: nat, f: nat)
    requires v in sp.pt && Covered(sp.segs, v)
    ensures Stored(sp, CowSpace(sp, v, SegOf(sp.segs, v), f), v)
  {
    var q := CowSpace(sp, v, SegOf(sp.segs, v), f);
    forall u: nat ensures OwnsPage(q, u) <==> u == v || OwnsPage(sp, u) {
      FaultOwns(sp, v, f, u);
    }
  }

  lemma StoreEffect(w: World, s: nat, va: nat, o: nat, x: nat, f: nat)
    requires Inv(w) && MayStore(w, s, va) && StoreLazy(w, s, va, o, x, f).Some?
    ensures var w' := StoreLazy(w, s, va, o, x, f).value;
      && s in w.spaces && s in w'.spaces && w'.spaces == w.spaces[s := w'.spaces[s]]
      && Stored(w.spaces[s], w'.spaces[s], va / PAGE_SIZE)
  {
    if va / PAGE_SIZE in w.spaces[s].cow {
      StoreOwns(w, s, va, o, x, f);
    } else {
      StorePokes(w, s, va, o, x, f);
    }
  }

  lemma StoreOwns(w: World, s: nat, va: nat, o: nat, x: nat, f: nat)
    requires Inv(w) && MayStore(w, s, va) && va / PAGE_SIZE in w.spaces[s].cow
    ensures StoreLazy(w, s, va, o, x, f).Some?
    ensures var w' := StoreLazy(w, s, va, o, x, f).value;
      && s in w'.spaces && w'.spaces == w.spaces[s := w'.spaces[s]]
      && Stored(w.spaces[s], w'.spaces[s], va / PAGE_SIZE)
  {
    var v, sp := va / PAGE_SIZE, w.spaces[s];
    FindVmExact(sp.segs, va);
    StoreFaults(w, s, va, o, x, f);
    FaultStores(sp, v, f);
  }

  lemma StorePokes(w: World, s: nat, va: nat, o: nat, x: nat, f: nat)
    requires Inv(w) && Mapped(w, s, va / PAGE_SIZE) && va / PAGE_SIZE !in w.spaces[s].cow
    requires StoreLazy(w, s, va, o, x, f).Some?
    ensures StoreLazy(w, s, va, o, x, f).value.spaces == w.spaces && Stored(w.spaces[s], w.spaces[s], va / PAGE_SIZE)
  {
    assert PageOk(w.spaces[s], va / PAGE_SIZE);
  }

  lemma StoreTracks(a: Space, a': Space, e: Space, e': Space, v: nat)
    requires Tracks(a, e) && Stored(a, a', v) && Stored(e, e', v)
    ensures Tracks(a', e')
  {
    forall u: nat ensures TracksAt(a', e', u) {
      assert TracksAt(a, e, u);
      assert OwnsPage(a', u) <==> u == v || OwnsPage(a, u);
      assert OwnsPage(e', u) <==> u == v || OwnsPage(e, u);
    }
  }

  lemma EagerStoreExists(w: World, s: nat, va: nat, o: nat, x: nat) returns (f: nat)
    requires Inv(w) && MayStore(w, s, va)
    ensures Fresh(w, f) && StoreLazy(w, s, va, o, x, f).Some?
    ensures EagerNext(w, Store(s, va, o, x), StoreLazy(w, s, va, o, x, f).value)
  {
    f := FreshAbove(w);
    StoreLazyCorrect(w, (s', v') => PageAt(w, s', v'), s, va, o, x, f);
  }

  lemma StoreFollows(w: World, s: nat, va: nat, o: nat, x: nat, f: nat, e: World) returns (e': World)
    requires Inv(w) && Inv(e) && Alike(w, e) && MayStore(w, s, va) && StoreLazy(w, s, va, o, x, f).Some?
    ensures EagerNext(e, Store(s, va, o, x), e') && Alike(StoreLazy(w, s, va, o, x, f).value, e')
  {
    var w' := StoreLazy(w, s, va, o, x, f).value;
    ShapeMayStore(w, e, s, va);
    var g := EagerStoreExists(e, s, va, o, x);
    e' := StoreLazy(e, s, va, o, x, g).value;
    StoreEffect(w, s, va, o, x, f);
    StoreEffect(e, s, va, o, x, g);
    assert Tracks(w.spaces[s], e.spaces[s]);
    StoreTracks(w.spaces[s], w'.spaces[s], e.spaces[s], e'.spaces[s], va / PAGE_SIZE);
    OneChanged(w, w', e, e', s);
  }

  lemma OneChanged(w: World, w': World, e: World, e': World, s: nat)
    requires Alike(w, e) && s in w.spaces && s in w'.spaces && s in e'.spaces
    requires w'.spaces == w.spaces[s := w'.spaces[s]] && e'.spaces == e.spaces[s := e'.spaces[s]]
    requires Tracks(w'.spaces[s], e'.spaces[s])
    ensures Alike(w', e')
  {
    forall t | t in w'.spaces ensures Tracks(w'.spaces[t], e'.spaces[t]) {
      if t != s {
        assert Tracks(w.spaces[t], e.spaces[t]);
      }
    }
  }

  lemma ParentTracks(sp: Space, e: Space)
    requires Resident(sp) && Tracks(sp, e)
    ensures Tracks(LazyParent(sp), e)
  {
    var q := LazyParent(sp);
    forall v: nat ensures TracksAt(q, e, v) {
      assert TracksAt(sp, e, v);
      assert OwnsPage(q, v) <==> OwnsPage(sp, v);
    }
  }

  lemma ChildTracks(sp: Space, e: Space, copies: map<nat, nat>)
    requires Resident(sp) && Tracks(sp, e)
    ensures Tracks(LazyChild(sp), EagerChild(e, copies))
  {
    var q, r := LazyChild(sp), EagerChild(e, copies);
    forall v: nat ensures TracksAt(q, r, v) {
      assert v !in r.cow && !OwnsPage(q, v);
    }
  }

  lemma ForkFollows(w: World, parent: nat, child: nat, e: World, copies: map<nat, nat>, e': World)
    requires parent in w.spaces && child !in w.spaces && Resident(w.spaces[parent]) && Alike(w, e)
    requires ForkEager(e, parent, child, copies, e')
    ensures Alike(ForkLazy(w, parent, child), e')
  {
    var w' := ForkLazy(w, parent, child);
    assert Tracks(w.spaces[parent], e.spaces[parent]);
    ParentTracks(w.spaces[parent], e.spaces[parent]);
    ChildTracks(w.spaces[parent], e.spaces[parent], copies);
    forall s | s in w'.spaces ensures Tracks(w'.spaces[s], e'.spaces[s]) {
      if s != child && s != parent {
        assert Tracks(w.spaces[s], e.spaces[s]);
      }
    }
  }

  ghost function OwnedPages(sp: Space): map<nat, nat> {
    map v | v in sp.pt && OwnsPage(sp, v) :: PagesAt(sp.segs, v)[v]
  }

  /** `e` protected like `sp` became `q`: cut in the same places, with its own pages. */
  ghost function ProtectLike(e: Space, a: nat, b: nat, perm: Perm, q: Space): Space {
    Space(WithCopies(q.segs, OwnedPages(e)), e.cow,
          map v | v in e.pt :: if a <= v < b && OwnsPage(e, v) then PT.Remode(e.pt[v], PermFlags(perm)) else e.pt[v])
  }

  lemma ProtectLikeAt(sp: Space, e: Space, a: nat, b: nat, perm: Perm, q: Space, v: nat)
    requires SpaceOk(e) && Tracks(sp, e) && Protected(sp, a, b, perm, q)
    ensures var r := ProtectLike(e, a, b, perm, q);
      && (Covered(r.segs, v) <==> Covered(e.segs, v)) && (Covered(r.segs, v) <==> Covered(q.segs, v))
      && SameOwned(e, r, v)
      && (Covered(e.segs, v) ==>
            r.segs[SegOf(r.segs, v)].perm == if a <= v < b then perm else e.segs[SegOf(e.segs, v)].perm)
  {
    var r := ProtectLike(e, a, b, perm, q);
    WithCopiesSame(q.segs, OwnedPages(e), v, 0);
    ShapeSegOf(sp.segs, e.segs, v, 0);
    assert Covered(q.segs, v) <==> Covered(sp.segs, v);
    if Covered(e.segs, v) {
      var i := SegOf(q.segs, v);
      assert PermAt(q, v, q.segs[i].perm);
      assert r.segs[i].pages == OwnPages(q.segs[i], OwnedPages(e));
    }
  }

  lemma ProtectLikePerm(sp: Space, e: Space, a: nat, b: nat, perm: Perm, q: Space, v: nat, p: Perm)
    requires SpaceOk(e) && Tracks(sp, e) && Protected(sp, a, b, perm, q)
    ensures PermAt(ProtectLike(e, a, b, perm, q), v, p) <==>
      if Covered(e.segs, v) && a <= v < b then p == perm else PermAt(e, v, p)
  {
    ProtectLikeAt(sp, e, a, b, perm, q, v);
  }

  lemma ProtectLikeOwns(sp: Space, e: Space, a: nat, b: nat, perm: Perm, q: Space)
    requires SpaceOk(e) && Tracks(sp, e) && Protected(sp, a, b, perm, q)
    ensures var r := ProtectLike(e, a, b, perm, q);
      && (forall v: nat {:trigger Covered(r.segs, v)} :: Covered(r.segs, v) <==> Covered(e.segs, v))
      && (forall v: nat {:trigger SameOwned(e, r, v)} :: SameOwned(e, r, v))
  {
    var r := ProtectLike(e, a, b, perm, q);
    forall v: nat ensures Covered(r.segs, v) <==> Covered(e.segs, v) {
      ProtectLikeAt(sp, e, a, b, perm, q, v);
    }
    forall v: nat ensures SameOwned(e, r, v) {
      ProtectLikeAt(sp, e, a, b, perm, q, v);
    }
  }

  lemma ProtectLikeIs(sp: Space, e: Space, a: nat, b: nat, perm: Perm, q: Space)
    requires SpaceOk(e) && Tracks(sp, e) && Protected(sp, a, b, perm, q)
    ensures Protected(e, a, b, perm, ProtectLike(e, a, b, perm, q))
  {
    var r := ProtectLike(e, a, b, perm, q);
    WithCopiesOk(q.segs, OwnedPages(e));
    ProtectLikeOwns(sp, e, a, b, perm, q);
    forall v: nat, p: Perm ensures PermAt(r, v, p) <==>
      if Covered(e.segs, v) && a <= v < b then p == perm else PermAt(e, v, p)
    {
      ProtectLikePerm(sp, e, a, b, perm, q, v, p);
    }
  }

  lemma ProtectLikeTracks(sp: Space, e: Space, a: nat, b: nat, perm: Perm, q: Space)
    requires SpaceOk(e) && Tracks(sp, e) && Protected(sp, a, b, perm, q)
    ensures Tracks(q, ProtectLike(e, a, b, perm, q))
  {
    var r := ProtectLike(e, a, b, perm, q);
    forall v: nat ensures TracksAt(q, r, v) {
      assert TracksAt(sp, e, v) && SameOwned(sp, q, v);
      ProtectLikeAt(sp, e, a, b, perm, q, v);
    }
  }

  lemma ShapeMayProtect(w: World, e: World, s: nat, a: nat, b: nat, perm: Perm)
    requires Alike(w, e) && MayProtect(w, s, a, b, perm)
    ensures MayProtect(e, s, a, b, perm)
  {
    var sp, ep := w.spaces[s], e.spaces[s];
    assert Tracks(sp, ep);
    forall v: nat | Covered(ep.segs, v) && Moves(ep.segs[SegOf(ep.segs, v)], a, b, v) ensures OwnsPage(ep, v) {
      ShapeSegOf(sp.segs, ep.segs, v, 0);
      assert TracksAt(sp, ep, v);
    }
    forall v: nat | perm.w && a <= v < b && v in ep.cow ensures !OwnsPage(ep, v) {
      assert TracksAt(sp, ep, v);
    }
  }

  lemma ProtectFollows(w: World, s: nat, a: nat, b: nat, perm: Perm, q: Space, e: World) returns (e': World)
    requires Alike(w, e) && Inv(e) && MayProtect(w, s, a, b, perm) && Protected(w.spaces[s], a, b, perm, q)
    ensures ProtectNext(e, s, a, b, perm, e') && Alike(w.(spaces := w.spaces[s := q]), e')
  {
    var sp, ep := w.spaces[s], e.spaces[s];
    assert Tracks(sp, ep);
    ShapeMayProtect(w, e, s, a, b, perm);
    ProtectLikeIs(sp, ep, a, b, perm, q);
    ProtectLikeTracks(sp, ep, a, b, perm, q);
    e' := e.(spaces := e.spaces[s := ProtectLike(ep, a, b, perm, q)]);
    OneChanged(w, w.(spaces := w.spaces[s := q]), e, e', s);
  }

  /** Whatever the lazy form does, the eager form can do. */
  lemma EagerFollows(w: World, a: Act, w': World, e: World) returns (e': World)
    requires LazyNext(w, a, w') && Alike(w, e) && Inv(w) && Inv(e)
    ensures EagerNext(e, a, e') && Alike(w', e')
  {
    match a {
      case Fork(parent, child) =>
        e' := EagerForkExists(e, parent, child);
        var copies :| ForkEager(e, parent, child, copies, e');
        ForkFollows(w, parent, child, e, copies, e');
      case Store(s, va, o, x) =>
        var f: nat :| Fresh(w, f) && StoreLazy(w, s, va, o, x, f) == Some(w');
        e' := StoreFollows(w, s, va, o, x, f, e);
      case Exit(s) =>
        e' := e.(spaces := e.spaces - {s});
        ExitFollows(w, e, s);
      case Mprotect(s, lo, hi, perm) =>
        var q :| Protected(w.spaces[s], lo, hi, perm, q) && w' == w.(spaces := w.spaces[s := q]);
        e' := ProtectFollows(w, s, lo, hi, perm, q, e);
    }
  }

  lemma ExitFollows(w: World, e: World, s: nat)
    requires Alike(w, e)
    ensures Alike(w.(spaces := w.spaces - {s}), e.(spaces := e.spaces - {s}))
  {
    forall t | t in w.spaces && t != s ensures Tracks(w.spaces[t], e.spaces[t]) {
    }
  }

  lemma Extend(ews: seq<World>, acts: seq<Act>, last: World, a: Act)
    requires Behaviour(false, ews, acts) && EagerNext(ews[|acts|], a, last)
    ensures Behaviour(false, ews + [last], acts + [a])
  {
    var es, as' := ews + [last], acts + [a];
    forall i | 0 <= i < |as'| ensures EagerNext(es[i], as'[i], es[i + 1]) {
      if i < |acts| {
        assert EagerNext(ews[i], acts[i], ews[i + 1]);
      }
    }
  }

  lemma Shorten(lws: seq<World>, acts: seq<Act>)
    requires Behaviour(true, lws, acts) && acts != []
    ensures var n := |acts| - 1;
      && Behaviour(true, lws[..n + 1], acts[..n]) && LazyNext(lws[n], acts[n], lws[n + 1])
      && lws[..n + 1][0] == lws[0] && lws[..n + 1][n] == lws[n] && acts[..n] + [acts[n]] == acts
  {
  }

  lemma {:induction false} EagerRun(lws: seq<World>, acts: seq<Act>, e: World) returns (ews: seq<World>)
    requires Behaviour(true, lws, acts) && Alike(lws[0], e) && Inv(lws[0]) && Inv(e)
    ensures Behaviour(false, ews, acts) && ews[0] == e && Alike(lws[|acts|], ews[|acts|])
    ensures Inv(lws[|acts|]) && Inv(ews[|acts|])
    decreases |acts|
  {
    if acts == [] {
      ews := [e];
    } else {
      var n := |acts| - 1;
      Shorten(lws, acts);
      var before := EagerRun(lws[..n + 1], acts[..n], e);
      var last := EagerFollows(lws[n], acts[n], lws[n + 1], before[n]);
      KeptByNext(true, lws[n], acts[n], lws[n + 1]);
      KeptByNext(false, before[n], acts[n], last);
      Extend(before, acts[..n], last, acts[n]);
      ews := before + [last];
    }
  }

  lemma KeptByNext(lazy: bool, e: World, a: Act, e': World)
    requires Inv(e) && if lazy then LazyNext(e, a, e') else EagerNext(e, a, e')
    ensures Inv(e')
  {
    NextCorrect(lazy, e, (s, v) => PageAt(e, s, v), a, e');
  }

  /** Every process of `w` sees the same pages in `e`. */
  ghost predicate SameSights(w: World, e: World) {
    forall s, v :: s in w.spaces ==> s in e.spaces && PageAt(w, s, v) == PageAt(e, s, v)
  }

  /** Every run with copy-on-write has a run with copies, of the same actions, that shows every process the same pages. */
  lemma EveryLazyRunHasAnEagerOne(lws: seq<World>, acts: seq<Act>)
    requires Behaviour(true, lws, acts) && Inv(lws[0])
    ensures exists ews :: Behaviour(false, ews, acts) && ews[0] == lws[0] && SameSights(lws[|acts|], ews[|acts|])
  {
    var ews := EagerRun(lws, acts, lws[0]);
    LazyRefinesEager(lws, ews, acts, (s, v) => PageAt(lws[0], s, v));
  }

  // ----- where they part ------------------------------------------------------------

  const RW := Perm(true, true, false, true)
  const RO := Perm(true, false, false, true)

  /** Pages 0 and 1 in two adjacent segments, the second with permission `p`. */
  ghost predicate IsTwo(sp: Space, p: Perm) {
    && |sp.segs| == 2 && sp.cow == map[]
    && sp.segs[0] == Vma(0, 1, RW, map[0 := 10]) && sp.segs[1] == Vma(1, 2, p, map[1 := 11])
    && sp.pt == map[0 := PT.Entry(10, PermFlags(RW)), 1 := PT.Entry(11, PermFlags(p))]
  }

  lemma SegOfTwo(segs: seq<Vma>, v: nat)
    requires |segs| == 2 && segs[0].start == 0 && segs[0].end == 1 && segs[1].start == 1 && segs[1].end == 2
    ensures SegOf(segs, v) == if v < 2 then v else 2
  {
    assert SegOf(segs, v, 1) == if v == 1 then 1 else 2;
  }

  lemma TwoOk(sp: Space, p: Perm)
    requires IsTwo(sp, p)
    ensures SpaceOk(sp) && Resident(sp)
  {
    forall v: nat ensures SegOf(sp.segs, v) == if v < 2 then v else 2 {
      SegOfTwo(sp.segs, v);
    }
    forall v | v in sp.pt ensures PageOk(sp, v) {
    }
  }

  lemma TwoAlone(w: World, p: Perm)
    requires w.spaces.Keys == {0} && IsTwo(w.spaces[0], p) && 10 in w.mem && 11 in w.mem
    ensures Inv(w) && Resident(w.spaces[0])
  {
    TwoOk(w.spaces[0], p);
    forall s: nat, v: nat | Mapped(w, s, v) ensures s == 0 && v < 2 && FrameAt(w, s, v) == v + 10 {
    }
    forall s: nat, v: nat | Mapped(w, s, v) ensures Sole(w, s, v) {
    }
    assert SpacesOk(w);
  }

  lemma TwoShared(w: World, p: Perm)
    requires w.spaces.Keys == {0} && IsTwo(w.spaces[0], p) && 10 in w.mem && 11 in w.mem
    ensures Resident(w.spaces[0])
    ensures var w' := ForkLazy(w, 0, 1); Inv(w') && Fresh(w', 20) && 1 in w'.spaces[0].cow && 1 in w'.spaces[0].pt
  {
    TwoAlone(w, p);
    ForkLazyCorrect(w, (s, v) => PageAt(w, s, v), 0, 1);
    LazyPage(w.spaces[0], 1);
    TwoFresh(w, p);
  }

  /** One process with just these pages; frame 20 is unused. */
  lemma TwoPages(p: Perm) returns (w: World)
    ensures w.spaces.Keys == {0} && IsTwo(w.spaces[0], p) && 10 in w.mem && 11 in w.mem && w.mem[11] == [0]
  {
    w := World(map[10 := [0], 11 := [0]],
               map[0 := Space([Vma(0, 1, RW, map[0 := 10]), Vma(1, 2, p, map[1 := 11])], map[],
                              map[0 := PT.Entry(10, PermFlags(RW)), 1 := PT.Entry(11, PermFlags(p))])]);
  }

  /** Every frame this space refers to is below 20. */
  ghost predicate Small(sp: Space) {
    && (forall v :: v in sp.cow ==> sp.cow[v] < 20)
    && forall i, v :: 0 <= i < |sp.segs| && v in sp.segs[i].pages ==> sp.segs[i].pages[v] < 20
  }

  lemma SmallIsFresh(w: World)
    requires forall s :: s in w.spaces ==> Small(w.spaces[s])
    ensures Fresh(w, 20)
  {
    forall s | s in w.spaces ensures !HeldBy(w.spaces[s], 20) {
      assert Small(w.spaces[s]);
    }
  }

  lemma ForkedSmall(sp: Space)
    requires Small(sp) && Resident(sp)
    ensures Small(LazyParent(sp)) && Small(LazyChild(sp))
  {
  }

  lemma TwoFresh(w: World, p: Perm)
    requires w.spaces.Keys == {0} && IsTwo(w.spaces[0], p) && Resident(w.spaces[0])
    ensures Fresh(ForkLazy(w, 0, 1), 20)
  {
    assert Small(w.spaces[0]);
    ForkedSmall(w.spaces[0]);
    SmallIsFresh(ForkLazy(w, 0, 1));
  }

  /** A store to the first byte of the second segment puts its page into the first one. */
  lemma StoreAtTheSeam() returns (o: World, w: World)
    ensures Inv(o) && 0 in o.spaces && 1 !in o.spaces && Resident(o.spaces[0]) && w == ForkLazy(o, 0, 1)
    ensures Inv(w) && Fresh(w, 20) && WritableSeg(w, 0, 1)
    ensures StoreLazy(w, 0, PAGE_SIZE, 0, 7, 20).Some? && !Inv(StoreLazy(w, 0, PAGE_SIZE, 0, 7, 20).value)
  {
    o := TwoPages(RW);
    TwoAlone(o, RW);
    TwoShared(o, RW);
    w := ForkLazy(o, 0, 1);
    var segs := w.spaces[0].segs;
    assert segs == o.spaces[0].segs;
    SegOfTwo(segs, 1);
    assert segs[0].end * PAGE_SIZE == PAGE_SIZE;
    BoundaryStore(w, (s, v) => PageAt(w, s, v), 0, PAGE_SIZE, 0, 7, 20);
  }

  /** A read-only page refuses a store before the fork and takes it after. */
  lemma StoreToReadOnly() returns (w: World)
    ensures Inv(w) && 0 in w.spaces && Resident(w.spaces[0]) && StoreLazy(w, 0, PAGE_SIZE + 8, 0, 7, 20).None?
    ensures StoreLazy(ForkLazy(w, 0, 1), 0, PAGE_SIZE + 8, 0, 7, 20).Some?
  {
    w := TwoPages(RO);
    TwoAlone(w, RO);
    TwoShared(w, RO);
    SegOfTwo(w.spaces[0].segs, 1);
    ReadOnlyStore(w, 0, PAGE_SIZE + 8, 0, 7, 20);
    ReadOnlyStore(ForkLazy(w, 0, 1), 0, PAGE_SIZE + 8, 0, 7, 20);
  }

  /** Page `v` given the permission it has: its entry gets R, W, X and U from that again. */
  ghost function Reprotected(sp: Space, v: nat, perm: Perm): Space
    requires v in sp.pt
  {
    sp.(pt := sp.pt[v := PT.Remode(sp.pt[v], PermFlags(perm))])
  }

  lemma ReprotectedIs(sp: Space, v: nat, perm: Perm)
    requires SegsOk(sp.segs) && v in sp.pt && OwnsPage(sp, v) && PermAt(sp, v, perm)
    ensures Protected(sp, v, v + 1, perm, Reprotected(sp, v, perm))
  {
  }

  ghost function Reprotect(w: World, s: nat, v: nat, perm: Perm): World
    requires Mapped(w, s, v)
  {
    w.(spaces := w.spaces[s := Reprotected(w.spaces[s], v, perm)])
  }

  /**
   Two processes share a page that one of them owns and may write: when that one gives the page
   the permission it has, its next store there is seen by the other.
   */
  lemma ProtectLeaks(w: World, s: nat, t: nat, va: nat, perm: Perm, o: nat, x: nat, f: nat)
    requires Inv(w) && s != t && Mapped(w, s, va / PAGE_SIZE) && Mapped(w, t, va / PAGE_SIZE)
    requires FrameAt(w, s, va / PAGE_SIZE) == FrameAt(w, t, va / PAGE_SIZE) && perm.w
    requires OwnsPage(w.spaces[s], va / PAGE_SIZE) && PermAt(w.spaces[s], va / PAGE_SIZE, perm)
    requires PageAt(w, t, va / PAGE_SIZE).Some? && o < |PageAt(w, t, va / PAGE_SIZE).value|
    ensures var v := va / PAGE_SIZE; var w' := Reprotect(w, s, v, perm);
      && Protected(w.spaces[s], v, v + 1, perm, w'.spaces[s]) && !Inv(w')
      && PageAt(w', t, v) == PageAt(w, t, v) && StoreLazy(w', s, va, o, x, f).Some?
      && PageAt(StoreLazy(w', s, va, o, x, f).value, t, v) == Some(PageAt(w, t, v).value[o := x])
  {
    var v := va / PAGE_SIZE;
    ReprotectedIs(w.spaces[s], v, perm);
    NotSharedIsSole(w, s, v);
    ProtectCorrect(w, (s', v') => PageAt(w, s', v'), s, v, v + 1, perm, Reprotected(w.spaces[s], v, perm));
    ReprotectedStore(w, s, t, va, perm, o, x, f);
  }

  lemma ReprotectedStore(w: World, s: nat, t: nat, va: nat, perm: Perm, o: nat, x: nat, f: nat)
    requires s != t && Mapped(w, s, va / PAGE_SIZE) && Mapped(w, t, va / PAGE_SIZE)
    requires FrameAt(w, s, va / PAGE_SIZE) == FrameAt(w, t, va / PAGE_SIZE) && perm.w
    requires PageAt(w, t, va / PAGE_SIZE).Some? && o < |PageAt(w, t, va / PAGE_SIZE).value|
    ensures var v := va / PAGE_SIZE; var w' := Reprotect(w, s, v, perm);
      && PageAt(w', t, v) == PageAt(w, t, v) && StoreLazy(w', s, va, o, x, f).Some?
      && PageAt(StoreLazy(w', s, va, o, x, f).value, t, v) == Some(PageAt(w, t, v).value[o := x])
  {
  }

  /** Page 1 of both processes after the fork. */
  lemma TwoForkedPage(o: World)
    requires o.spaces.Keys == {0} && IsTwo(o.spaces[0], RW) && Resident(o.spaces[0]) && 11 in o.mem && o.mem[11] == [0]
    ensures var w := ForkLazy(o, 0, 1);
      && Mapped(w, 0, 1) && Mapped(w, 1, 1) && FrameAt(w, 0, 1) == 11 && FrameAt(w, 1, 1) == 11
      && OwnsPage(w.spaces[0], 1) && PermAt(w.spaces[0], 1, RW) && PageAt(w, 1, 1) == Some([0])
  {
    TwoOk(o.spaces[0], RW);
    LazyPage(o.spaces[0], 1);
    SegOfTwo(o.spaces[0].segs, 1);
  }

  lemma ForkedPair() returns (o: World)
    ensures Inv(o) && 0 in o.spaces && 1 !in o.spaces && Resident(o.spaces[0])
    ensures var w := ForkLazy(o, 0, 1);
      && Inv(w) && Mapped(w, 0, 1) && Mapped(w, 1, 1) && FrameAt(w, 0, 1) == FrameAt(w, 1, 1)
      && OwnsPage(w.spaces[0], 1) && PermAt(w.spaces[0], 1, RW) && PageAt(w, 1, 1) == Some([0])
  {
    o := TwoPages(RW);
    TwoAlone(o, RW);
    TwoShared(o, RW);
    TwoForkedPage(o);
  }

  /** It happens right after a fork. */
  lemma ProtectAfterFork() returns (o: World)
    ensures Inv(o) && 0 in o.spaces && 1 !in o.spaces && Resident(o.spaces[0])
    ensures var w := ForkLazy(o, 0, 1);
      && Inv(w) && Mapped(w, 0, 1) && PageAt(w, 1, 1) == Some([0])
      && StoreLazy(Reprotect(w, 0, 1, RW), 0, PAGE_SIZE, 0, 7, 20).Some?
      && PageAt(StoreLazy(Reprotect(w, 0, 1, RW), 0, PAGE_SIZE, 0, 7, 20).value, 1, 1) == Some([0][0 := 7])
  {
    o := ForkedPair();
    ProtectLeaks(ForkLazy(o, 0, 1), 0, 1, PAGE_SIZE, RW, 0, 7, 20);
  }

  // ----- a heap with nothing in it -----------------------------------------------------

  ghost function WithHeap(segs: seq<Vma>, i: nat, h: nat, perm: Perm): seq<Vma>
    requires i <= |segs|
  {
    segs[..i] + [Vma(h, h, perm, map[])] + segs[i..]
  }

  lemma {:induction false} HeapSegOf(segs: seq<Vma>, i: nat, h: nat, perm: Perm, v: nat, from: nat)
    requires i <= |segs| && from <= |segs|
    ensures var t := WithHeap(segs, i, h, perm);
      && (from <= i ==> SegOf(t, v, from) == if SegOf(segs, v, from) < i then SegOf(segs, v, from) else SegOf(segs, v, from) + 1)
      && (i <= from ==> SegOf(t, v, from + 1) == SegOf(segs, v, from) + 1)
    decreases |segs| - from
  {
    var t := WithHeap(segs, i, h, perm);
    if from < |segs| {
      HeapSegOf(segs, i, h, perm, v, from + 1);
      assert from < i ==> t[from] == segs[from];
      assert i <= from ==> t[from + 1] == segs[from];
    }
  }

  /** The loader's space: the heap it adds has no page, and everything else is as without it. */
  lemma LoadedSpace(sp: Space, i: nat, h: nat, perm: Perm)
    requires SpaceOk(sp) && i <= |sp.segs|
    requires (forall j :: 0 <= j < i ==> sp.segs[j].end <= h) && (forall j :: i <= j < |sp.segs| ==> h <= sp.segs[j].start)
    ensures SpaceOk(sp.(segs := WithHeap(sp.segs, i, h, perm)))
    ensures Resident(sp) ==> Resident(sp.(segs := WithHeap(sp.segs, i, h, perm)))
  {
    var q := sp.(segs := WithHeap(sp.segs, i, h, perm));
    HeapSegsOk(sp.segs, i, h, perm);
    forall v: nat ensures Covered(q.segs, v) <==> Covered(sp.segs, v) {
      HeapSame(sp.segs, i, h, perm, v);
    }
    forall v | v in q.pt ensures PageOk(q, v) == true {
      HeapSame(sp.segs, i, h, perm, v);
      assert PageOk(sp, v);
    }
    if Resident(sp) {
      forall v: nat | Covered(q.segs, v) ensures v in q.pt && v in PagesAt(q.segs, v) {
        HeapSame(sp.segs, i, h, perm, v);
      }
    }
  }

  /** A page is in the same segment as before. */
  lemma HeapSame(segs: seq<Vma>, i: nat, h: nat, perm: Perm, v: nat)
    requires i <= |segs|
    ensures var t := WithHeap(segs, i, h, perm);
      && (Covered(t, v) <==> Covered(segs, v))
      && (Covered(segs, v) ==> t[SegOf(t, v)] == segs[SegOf(segs, v)])
  {
    HeapSegOf(segs, i, h, perm, v, 0);
  }

  lemma HeapSegsOk(segs: seq<Vma>, i: nat, h: nat, perm: Perm)
    requires SegsOk(segs) && i <= |segs|
    requires (forall j :: 0 <= j < i ==> segs[j].end <= h) && (forall j :: i <= j < |segs| ==> h <= segs[j].start)
    ensures SegsOk(WithHeap(segs, i, h, perm))
  {
    var t := WithHeap(segs, i, h, perm);
    assert forall j :: 0 <= j < |t| ==> t[j] == if j < i then segs[j] else if j == i then Vma(h, h, perm, map[]) else segs[j - 1];
  }
}
