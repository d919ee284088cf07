/**
 What processes may do with their pages, under both kinds of fork: reading, executing and user
 mode. `from_user` takes the rights of a page from its segment, `from_user_lazily` from the
 entry it shares, and `mprotect` changes the segment and the entries of owned pages; so the
 two forks agree as long as entries and segments do.
 */
module Rights {
  import opened Options
  import opened Sv39
  import opened Cow
  import F = Forks

  /** The rights besides W, which copy-on-write takes away for a while. */
  function NoWrite(p: Perm): Perm {
    p.(w := false)
  }

  /** The entry of page `v` has the R, X and U of its segment. */
  ghost predicate InStepAt(sp: Space, v: nat) {
    v in sp.pt && Covered(sp.segs, v) ==> NoWrite(Grants(sp.pt[v])) == NoWrite(sp.segs[SegOf(sp.segs, v)].perm)
  }

  ghost predicate InStep(w: World) {
    forall s, v: nat {:trigger InStepAt(w.spaces[s], v)} :: s in w.spaces ==> InStepAt(w.spaces[s], v)
  }

  function PermOf(sp: Space, v: nat): Option<Perm> {
    if Covered(sp.segs, v) then Some(sp.segs[SegOf(sp.segs, v)].perm) else None
  }

  /** What the hardware lets process `s` do with page `v`, besides writing. */
  function Access(w: World, s: nat, v: nat): Option<Perm> {
    if Mapped(w, s, v) then Some(NoWrite(Grants(w.spaces[s].pt[v]))) else None
  }

  // ----- permissions -----------------------------------------------------------------

  /** The permission of each page of each process. */
  type Perms = (nat, nat) -> Option<Perm>

  ghost predicate HasPerms(w: World, p: Perms) {
    forall s, v: nat {:trigger p(s, v)} :: s in w.spaces ==> p(s, v) == PermOf(w.spaces[s], v)
  }

  /** What an action does to permissions. */
  function PermsOn(p: Perms, a: Act): Perms {
    match a
    case Fork(parent, child) => (s: nat, v: nat) => p(if s == child then parent else s, v)
    case Store(_, _, _, _) => p
    case Exit(_) => p
    case Mprotect(s, lo, hi, perm) =>
      (s': nat, v: nat) => if s' == s && lo <= v < hi && p(s, v).Some? then Some(perm) else p(s', v)
  }

  function PermsAll(p: Perms, acts: seq<Act>): Perms {
    if acts == [] then p else PermsOn(PermsAll(p, acts[..|acts| - 1]), acts[|acts| - 1])
  }

  lemma {:induction false} SameSegOf(segs: seq<Vma>, segs': seq<Vma>, v: nat, from: nat)
    requires SameSegs(segs, segs') && from <= |segs|
    ensures SegOf(segs', v, from) == SegOf(segs, v, from)
    decreases |segs| - from
  {
    if from < |segs| {
      SameSegOf(segs, segs', v, from + 1);
    }
  }

  lemma SameSegsPerm(sp: Space, q: Space, v: nat)
    requires SameSegs(sp.segs, q.segs)
    ensures PermOf(q, v) == PermOf(sp, v)
  {
    SameSegOf(sp.segs, q.segs, v, 0);
  }

  /** The space that `s` has after a fork comes from this one. */
  function Origin(parent: nat, child: nat, s: nat): nat {
    if s == child then parent else s
  }

  /** After a fork every process has the segments of its origin. */
  lemma ForkSegs(lazy: bool, w: World, parent: nat, child: nat, w': World, s: nat)
    requires Inv(w) && (if lazy then LazyNext(w, Fork(parent, child), w') else EagerNext(w, Fork(parent, child), w'))
    requires s in w'.spaces
    ensures Origin(parent, child, s) in w.spaces
    ensures SameSegs(w.spaces[Origin(parent, child, s)].segs, w'.spaces[s].segs)
  {
    if lazy {
      ForkLazyRights(w, parent, child);
    } else {
      var copies :| ForkEager(w, parent, child, copies, w');
      ForkEagerSegs(w, parent, child, copies, w', s);
    }
  }

  lemma ForkEagerSegs(w: World, parent: nat, child: nat, copies: map<nat, nat>, w': World, s: nat)
    requires ForkEager(w, parent, child, copies, w') && s in w'.spaces
    ensures Origin(parent, child, s) in w.spaces
    ensures SameSegs(w.spaces[Origin(parent, child, s)].segs, w'.spaces[s].segs)
  {
  }

  /** A store changes no segment but for its page map, and no right but W. */
  ghost predicate SameRights(sp: Space, q: Space) {
    && SameSegs(sp.segs, q.segs) && q.pt.Keys == sp.pt.Keys
    && forall v :: v in sp.pt ==> NoWrite(Grants(q.pt[v])) == NoWrite(Grants(sp.pt[v]))
  }

  lemma FaultRights(w: World, s: nat, v: nat, i: nat, f: nat, s': nat)
    requires Mapped(w, s, v) && v in w.spaces[s].cow && w.spaces[s].cow[v] in w.mem && i < |w.spaces[s].segs|
    requires s' in w.spaces
    ensures s' in CowFault(w, s, v, i, f).spaces && SameRights(w.spaces[s'], CowFault(w, s, v, i, f).spaces[s'])
  {
    CowFaultRights(w, s, v, i, f);
  }

  lemma StoreRights(w: World, s: nat, va: nat, o: nat, x: nat, f: nat, s': nat)
    requires StoreLazy(w, s, va, o, x, f).Some? && s' in w.spaces
    ensures var w' := StoreLazy(w, s, va, o, x, f).value;
      w'.spaces.Keys == w.spaces.Keys && SameRights(w.spaces[s'], w'.spaces[s'])
  {
    var v := va / PAGE_SIZE;
    StoreAlive(w, s, va, o, x, f);
    if !w.spaces[s].pt[v].flags.w {
      FaultRights(w, s, v, FindVm(w.spaces[s].segs, va), f, s');
    }
  }

  lemma ProtectedPerm(sp: Space, a: nat, b: nat, perm: Perm, q: Space, v: nat)
    requires Protected(sp, a, b, perm, q)
    ensures PermOf(q, v) == if a <= v < b && PermOf(sp, v).Some? then Some(perm) else PermOf(sp, v)
  {
    assert Covered(q.segs, v) <==> Covered(sp.segs, v);
    if Covered(q.segs, v) {
      assert PermAt(q, v, q.segs[SegOf(q.segs, v)].perm);
    }
  }

  lemma StorePerms(w: World, p: Perms, s: nat, va: nat, o: nat, x: nat, f: nat, w': World)
    requires HasPerms(w, p) && StoreLazy(w, s, va, o, x, f) == Some(w')
    ensures HasPerms(w', p)
  {
    StoreAlive(w, s, va, o, x, f);
    forall s', v: nat | s' in w'.spaces ensures p(s', v) == PermOf(w'.spaces[s'], v) {
      StoreRights(w, s, va, o, x, f, s');
      SameSegsPerm(w.spaces[s'], w'.spaces[s'], v);
    }
  }

  lemma ForkPerms(lazy: bool, w: World, p: Perms, parent: nat, child: nat, w': World)
    requires Inv(w) && HasPerms(w, p)
    requires if lazy then LazyNext(w, Fork(parent, child), w') else EagerNext(w, Fork(parent, child), w')
    ensures HasPerms(w', PermsOn(p, Fork(parent, child)))
  {
    forall s, v: nat | s in w'.spaces ensures PermsOn(p, Fork(parent, child))(s, v) == PermOf(w'.spaces[s], v) {
      ForkSegs(lazy, w, parent, child, w', s);
      SameSegsPerm(w.spaces[Origin(parent, child, s)], w'.spaces[s], v);
    }
  }

  lemma ProtectPerms(w: World, p: Perms, s: nat, a: nat, b: nat, perm: Perm, q: Space)
    requires HasPerms(w, p) && s in w.spaces && Protected(w.spaces[s], a, b, perm, q)
    ensures HasPerms(w.(spaces := w.spaces[s := q]), PermsOn(p, Mprotect(s, a, b, perm)))
  {
    forall v: nat ensures PermsOn(p, Mprotect(s, a, b, perm))(s, v) == PermOf(q, v) {
      ProtectedPerm(w.spaces[s], a, b, perm, q, v);
    }
  }

  lemma NextPerms(lazy: bool, w: World, p: Perms, a: Act, w': World)
    requires Inv(w) && HasPerms(w, p)
    requires if lazy then LazyNext(w, a, w') else EagerNext(w, a, w')
    ensures HasPerms(w', PermsOn(p, a))
  {
    match a {
      case Fork(parent, child) =>
        ForkPerms(lazy, w, p, parent, child, w');
      case Store(s, va, o, x) =>
        var f: nat :| Fresh(w, f) && StoreLazy(w, s, va, o, x, f) == Some(w');
        StorePerms(w, p, s, va, o, x, f, w');
      case Exit(s) =>
      case Mprotect(s, lo, hi, perm) =>
        var q :| Protected(w.spaces[s], lo, hi, perm, q) && w' == w.(spaces := w.spaces[s := q]);
        ProtectPerms(w, p, s, lo, hi, perm, q);
    }
  }

  // ----- rights ------------------------------------------------------------------------

  /** `mprotect` reaches the entry: the page is in its segment's page map, or has the rights already. */
  ghost predicate ReachedAt(sp: Space, a: nat, b: nat, perm: Perm, v: nat) {
    a <= v < b && v in sp.pt ==> OwnsPage(sp, v) || NoWrite(Grants(sp.pt[v])) == NoWrite(perm)
  }

  ghost predicate Reached(sp: Space, a: nat, b: nat, perm: Perm) {
    forall v: nat {:trigger ReachedAt(sp, a, b, perm, v)} :: ReachedAt(sp, a, b, perm, v)
  }

  lemma ProtectedInStep(sp: Space, a: nat, b: nat, perm: Perm, q: Space, v: nat)
    requires SpaceOk(sp) && Protected(sp, a, b, perm, q) && InStepAt(sp, v)
    ensures InStepAt(q, v) <==> ReachedAt(sp, a, b, perm, v)
  {
    ProtectedPerm(sp, a, b, perm, q, v);
    assert Covered(q.segs, v) <==> Covered(sp.segs, v);
  }

  /**
   After `mprotect` entries and segments agree if and only if each page in range is in its
   segment's page map or had the rights already. A page that is only shared is in no page map.
   */
  lemma ProtectRights(w: World, s: nat, a: nat, b: nat, perm: Perm, q: Space)
    requires Inv(w) && InStep(w) && s in w.spaces && Protected(w.spaces[s], a, b, perm, q)
    ensures InStep(w.(spaces := w.spaces[s := q])) <==> Reached(w.spaces[s], a, b, perm)
  {
    var w' := w.(spaces := w.spaces[s := q]);
    forall s', v: nat | s' in w'.spaces
      ensures InStepAt(w'.spaces[s'], v) <==> s' != s || ReachedAt(w.spaces[s], a, b, perm, v)
    {
      assert InStepAt(w.spaces[s'], v);
      if s' == s {
        ProtectedInStep(w.spaces[s], a, b, perm, q, v);
      }
    }
    if InStep(w') {
      forall v: nat ensures ReachedAt(w.spaces[s], a, b, perm, v) {
        assert s in w'.spaces && InStepAt(w'.spaces[s], v);
      }
    }
    if Reached(w.spaces[s], a, b, perm) {
      forall s', v: nat | s' in w'.spaces ensures InStepAt(w'.spaces[s'], v) == true {
        assert ReachedAt(w.spaces[s], a, b, perm, v);
      }
    }
  }

  /** One whole segment with a new permission, and no entry changed. */
  ghost function Repermitted(sp: Space, i: nat, perm: Perm): Space
    requires i < |sp.segs|
  {
    sp.(segs := sp.segs[i := sp.segs[i].(perm := perm)])
  }

  lemma {:induction false} RepermittedSegOf(segs: seq<Vma>, i: nat, perm: Perm, v: nat, from: nat)
    requires i < |segs| && from <= |segs|
    ensures SegOf(segs[i := segs[i].(perm := perm)], v, from) == SegOf(segs, v, from)
    decreases |segs| - from
  {
    if from < |segs| {
      RepermittedSegOf(segs, i, perm, v, from + 1);
    }
  }

  lemma RepermittedOk(segs: seq<Vma>, i: nat, perm: Perm)
    requires SegsOk(segs) && i < |segs|
    ensures SegsOk(segs[i := segs[i].(perm := perm)])
  {
    var t := segs[i := segs[i].(perm := perm)];
    assert forall j :: 0 <= j < |segs| ==> t[j] == segs[j].(perm := t[j].perm);
  }

  /** In a space that owns no page, `mprotect` of a segment changes the segment alone. */
  lemma ProtectUnowned(sp: Space, i: nat, perm: Perm)
    requires SpaceOk(sp) && i < |sp.segs| && forall v: nat :: !OwnsPage(sp, v)
    ensures Protected(sp, sp.segs[i].start, sp.segs[i].end, perm, Repermitted(sp, i, perm))
  {
    var q := Repermitted(sp, i, perm);
    RepermittedOk(sp.segs, i, perm);
    forall v: nat
      ensures SegOf(q.segs, v) == SegOf(sp.segs, v) && SameOwned(sp, q, v)
      ensures SegOf(sp.segs, v) == i <==> sp.segs[i].start <= v < sp.segs[i].end
    {
      RepermittedSegOf(sp.segs, i, perm, v, 0);
      assert !OwnsPage(sp, v);
    }
  }

  lemma ChildOwnsNothing(sp: Space, v: nat)
    requires Resident(sp)
    ensures !OwnsPage(LazyChild(sp), v)
  {
    EmptiedSame(sp.segs, v, 0);
  }

  /**
   Right after a lazy fork the child owns nothing, so its `mprotect` of a segment changes no
   entry, and leaves them out of step whenever it asks for other rights.
   */
  lemma ChildProtect(w: World, parent: nat, child: nat, i: nat, perm: Perm, v: nat)
    requires Inv(w) && InStep(w) && parent in w.spaces && child !in w.spaces && Resident(w.spaces[parent])
    requires i < |w.spaces[parent].segs| && InSeg(w.spaces[parent].segs[i], v)
    requires NoWrite(perm) != NoWrite(w.spaces[parent].segs[i].perm)
    ensures var w' := ForkLazy(w, parent, child); var sp := w'.spaces[child];
      && i < |sp.segs| && Protected(sp, sp.segs[i].start, sp.segs[i].end, perm, Repermitted(sp, i, perm))
      && !InStep(w'.(spaces := w'.spaces[child := Repermitted(sp, i, perm)]))
  {
    ChildIs(w, parent, child, i);
    ForkLazyInStep(w, parent, child, child, v);
    var w' := ForkLazy(w, parent, child);
    ProtectUnowned(w'.spaces[child], i, perm);
    OutOfStep(w'.spaces[child], i, perm, v);
    OneOutOfStep(w', child, Repermitted(w'.spaces[child], i, perm), v);
  }

  lemma ChildIs(w: World, parent: nat, child: nat, i: nat)
    requires Inv(w) && parent in w.spaces && child !in w.spaces && Resident(w.spaces[parent]) && i < |w.spaces[parent].segs|
    ensures var w' := ForkLazy(w, parent, child);
      && child in w'.spaces
      && var sp, q := w.spaces[parent], w'.spaces[child];
        && SpaceOk(q) && (forall v: nat :: !OwnsPage(q, v)) && i < |q.segs| && q.segs[i] == sp.segs[i].(pages := map[])
  {
    ForkLazySpaces(w, parent, child);
    LazyChildOk(w.spaces[parent]);
    forall u: nat ensures !OwnsPage(LazyChild(w.spaces[parent]), u) {
      ChildOwnsNothing(w.spaces[parent], u);
    }
  }

  lemma OutOfStep(sp: Space, i: nat, perm: Perm, v: nat)
    requires SpaceOk(sp) && i < |sp.segs| && InSeg(sp.segs[i], v) && InStepAt(sp, v)
    requires NoWrite(perm) != NoWrite(sp.segs[i].perm)
    ensures !InStepAt(Repermitted(sp, i, perm), v)
  {
    RepermittedSegOf(sp.segs, i, perm, v, 0);
    assert SegOf(sp.segs, v) == i;
  }

  lemma OneOutOfStep(w: World, s: nat, q: Space, v: nat)
    requires !InStepAt(q, v)
    ensures !InStep(w.(spaces := w.spaces[s := q]))
  {
    var w' := w.(spaces := w.spaces[s := q]);
    assert s in w'.spaces && !InStepAt(w'.spaces[s], v);
  }

  /** A child that asks for X on a page of data does not get it. */
  lemma ChildProtectHappens() returns (w: World)
    ensures Inv(w) && InStep(w) && 0 in w.spaces && 1 !in w.spaces && Resident(w.spaces[0]) && |w.spaces[0].segs| > 1
    ensures var w' := ForkLazy(w, 0, 1); var sp := w'.spaces[1];
      |sp.segs| > 1 && !InStep(w'.(spaces := w'.spaces[1 := Repermitted(sp, 1, Perm(true, false, true, true))]))
  {
    w := F.TwoPages(F.RW);
    F.TwoAlone(w, F.RW);
    TwoInStep(w);
    ChildProtect(w, 0, 1, 1, Perm(true, false, true, true), 1);
  }

  lemma TwoInStep(w: World)
    requires w.spaces.Keys == {0} && F.IsTwo(w.spaces[0], F.RW)
    ensures InStep(w)
  {
    forall s, v: nat | s in w.spaces ensures InStepAt(w.spaces[s], v) {
      F.SegOfTwo(w.spaces[0].segs, v);
    }
  }

  lemma SharedInStep(sp: Space, q: Space, v: nat)
    requires SharesWith(sp, q) && InStepAt(sp, v)
    ensures InStepAt(q, v)
  {
    SameSegOf(sp.segs, q.segs, v, 0);
    assert v in sp.pt ==> SharedAt(sp, q, v);
  }

  lemma SameInStep(sp: Space, q: Space, v: nat)
    requires SameRights(sp, q) && InStepAt(sp, v)
    ensures InStepAt(q, v)
  {
    SameSegOf(sp.segs, q.segs, v, 0);
  }

  lemma ForkLazyInStep(w: World, parent: nat, child: nat, s: nat, v: nat)
    requires Inv(w) && InStep(w) && parent in w.spaces && child !in w.spaces && Resident(w.spaces[parent])
    requires s in ForkLazy(w, parent, child).spaces
    ensures InStepAt(ForkLazy(w, parent, child).spaces[s], v)
  {
    ForkLazyRights(w, parent, child);
    var o := Origin(parent, child, s);
    assert InStepAt(w.spaces[o], v);
    if o == parent {
      SharedInStep(w.spaces[parent], ForkLazy(w, parent, child).spaces[s], v);
    }
  }

  lemma ForkEagerInStep(w: World, parent: nat, child: nat, copies: map<nat, nat>, w': World, s: nat, v: nat)
    requires Inv(w) && InStep(w) && ForkEager(w, parent, child, copies, w') && s in w'.spaces
    ensures InStepAt(w'.spaces[s], v)
  {
    ForkEagerRights(w, parent, child, copies, w');
    if s == child {
      SameSegOf(w.spaces[parent].segs, w'.spaces[s].segs, v, 0);
    } else {
      assert InStepAt(w.spaces[s], v);
    }
  }

  /** The `mprotect`s that reach every page in range. */
  ghost predicate ReachesAll(w: World, a: Act) {
    a.Mprotect? && a.s in w.spaces ==> Reached(w.spaces[a.s], a.a, a.b, a.perm)
  }

  lemma NextInStep(lazy: bool, w: World, a: Act, w': World)
    requires Inv(w) && InStep(w) && ReachesAll(w, a)
    requires if lazy then LazyNext(w, a, w') else EagerNext(w, a, w')
    ensures InStep(w')
  {
    if a.Mprotect? {
      var q :| Protected(w.spaces[a.s], a.a, a.b, a.perm, q) && w' == w.(spaces := w.spaces[a.s := q]);
      ProtectRights(w, a.s, a.a, a.b, a.perm, q);
    } else {
      forall s, v: nat | s in w'.spaces ensures InStepAt(w'.spaces[s], v) {
        match a {
          case Fork(parent, child) =>
            if lazy {
              ForkLazyInStep(w, parent, child, s, v);
            } else {
              var copies :| ForkEager(w, parent, child, copies, w');
              ForkEagerInStep(w, parent, child, copies, w', s, v);
            }
          case Store(t, va, o, x) =>
            var f: nat :| Fresh(w, f) && StoreLazy(w, t, va, o, x, f) == Some(w');
            StoreAlive(w, t, va, o, x, f);
            StoreRights(w, t, va, o, x, f, s);
            assert InStepAt(w.spaces[s], v);
            SameInStep(w.spaces[s], w'.spaces[s], v);
          case Exit(t) =>
            assert InStepAt(w.spaces[s], v);
        }
      }
    }
  }

  // ----- behaviours ---------------------------------------------------------------------

  /** Every `mprotect` of the run reaches every page in its range. */
  ghost predicate AllReached(ws: seq<World>, acts: seq<Act>)
    requires |ws| == |acts| + 1
  {
    forall i :: 0 <= i < |acts| ==> ReachesAll(ws[i], acts[i])
  }

  /** In every such behaviour, of either kind, each page has the rights that the actions prescribe. */
  lemma {:induction false} BehaviourRights(lazy: bool, ws: seq<World>, acts: seq<Act>, c: Contents, p: Perms)
    requires Behaviour(lazy, ws, acts) && Inv(ws[0]) && Shows(ws[0], c) && InStep(ws[0]) && HasPerms(ws[0], p)
    requires AllReached(ws, acts)
    ensures InStep(ws[|acts|]) && HasPerms(ws[|acts|], PermsAll(p, acts))
    decreases |acts|
  {
    if acts != [] {
      var n := |acts| - 1;
      assert Behaviour(lazy, ws[..n + 1], acts[..n]) && AllReached(ws[..n + 1], acts[..n]);
      BehaviourRights(lazy, ws[..n + 1], acts[..n], c, p);
      BehaviourCorrect(lazy, ws[..n + 1], acts[..n], c);
      assert ws[..n + 1][n] == ws[n];
      NextPerms(lazy, ws[n], PermsAll(p, acts[..n]), acts[n], ws[n + 1]);
      NextInStep(lazy, ws[n], acts[n], ws[n + 1]);
    }
  }

  /** No page is shared. */
  ghost predicate NoCow(w: World) {
    forall s :: s in w.spaces ==> w.spaces[s].cow == map[]
  }

  lemma EagerKeepsNoCow(w: World, a: Act, w': World)
    requires Inv(w) && NoCow(w) && EagerNext(w, a, w')
    ensures NoCow(w')
  {
    match a {
      case Fork(parent, child) =>
        var copies :| ForkEager(w, parent, child, copies, w');
        ForkNoCow(w, parent, child, copies, w');
      case Store(s, va, o, x) =>
        var f: nat :| Fresh(w, f) && StoreLazy(w, s, va, o, x, f) == Some(w');
        StoreNoCow(w, s, va, o, x, f);
      case Exit(s) =>
      case Mprotect(s, lo, hi, perm) =>
    }
  }

  lemma ForkNoCow(w: World, parent: nat, child: nat, copies: map<nat, nat>, w': World)
    requires NoCow(w) && ForkEager(w, parent, child, copies, w')
    ensures NoCow(w')
  {
  }

  lemma StoreNoCow(w: World, s: nat, va: nat, o: nat, x: nat, f: nat)
    requires NoCow(w) && StoreLazy(w, s, va, o, x, f).Some?
    ensures StoreLazy(w, s, va, o, x, f).value.spaces == w.spaces
  {
  }

  lemma NoCowReaches(w: World, a: Act)
    requires Inv(w) && NoCow(w)
    ensures ReachesAll(w, a)
  {
    if a.Mprotect? && a.s in w.spaces {
      forall v: nat ensures ReachedAt(w.spaces[a.s], a.a, a.b, a.perm, v) {
        assert v in w.spaces[a.s].pt ==> PageOk(w.spaces[a.s], v);
      }
    }
  }

  /** With copies nothing is ever shared, so every `mprotect` reaches its pages. */
  lemma {:induction false} EagerReaches(ws: seq<World>, acts: seq<Act>, c: Contents)
    requires Behaviour(false, ws, acts) && Inv(ws[0]) && Shows(ws[0], c) && NoCow(ws[0])
    ensures AllReached(ws, acts) && NoCow(ws[|acts|])
    decreases |acts|
  {
    if acts != [] {
      var n := |acts| - 1;
      assert Behaviour(false, ws[..n + 1], acts[..n]);
      EagerReaches(ws[..n + 1], acts[..n], c);
      BehaviourCorrect(false, ws[..n + 1], acts[..n], c);
      assert ws[..n + 1][n] == ws[n];
      NoCowReaches(ws[n], acts[n]);
      EagerKeepsNoCow(ws[n], acts[n], ws[n + 1]);
      forall i | 0 <= i < |acts| ensures ReachesAll(ws[i], acts[i]) {
        if i < n {
          assert ReachesAll(ws[..n + 1][i], acts[..n][i]);
        }
      }
    }
  }

  lemma AccessIs(w: World, p: Perms, s: nat, v: nat)
    requires Inv(w) && InStep(w) && HasPerms(w, p) && s in w.spaces
    ensures Access(w, s, v) == if p(s, v).Some? then Some(NoWrite(p(s, v).value)) else None
  {
    assert InStepAt(w.spaces[s], v);
    assert SpaceOk(w.spaces[s]);
  }

  /**
   Copy-on-write refines copying in rights too: after the same actions every process may read
   and execute the same pages, if the `mprotect`s of the lazy run reach the pages they name.
   */
  lemma RightsRefine(lws: seq<World>, ews: seq<World>, acts: seq<Act>, c: Contents, p: Perms)
    requires Behaviour(true, lws, acts) && Inv(lws[0]) && Shows(lws[0], c) && InStep(lws[0]) && HasPerms(lws[0], p)
    requires Behaviour(false, ews, acts) && Inv(ews[0]) && Shows(ews[0], c) && InStep(ews[0]) && HasPerms(ews[0], p)
    requires lws[0].spaces.Keys == ews[0].spaces.Keys && NoCow(ews[0]) && AllReached(lws, acts)
    ensures forall s, v: nat :: s in lws[|acts|].spaces ==>
      Access(lws[|acts|], s, v) == Access(ews[|acts|], s, v) && PermOf(lws[|acts|].spaces[s], v) == PermsAll(p, acts)(s, v)
  {
    BehaviourRights(true, lws, acts, c, p);
    EagerReaches(ews, acts, c);
    BehaviourRights(false, ews, acts, c, p);
    BehaviourCorrect(true, lws, acts, c);
    BehaviourCorrect(false, ews, acts, c);
    forall s, v: nat | s in lws[|acts|].spaces ensures Access(lws[|acts|], s, v) == Access(ews[|acts|], s, v) {
      AccessIs(lws[|acts|], PermsAll(p, acts), s, v);
      AccessIs(ews[|acts|], PermsAll(p, acts), s, v);
    }
  }
}
