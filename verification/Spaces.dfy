/**
 Address spaces from the outside: what making, using and deleting any number of them, in
 any order, leaves behind.
 */
module Spaces {
  import opened PageCopy
  import opened PageTables
  import opened Vmm

  // ---------- one address space ----------

  /** delete_user_mem and delete_pd: exactly the frames of that space come back. */
  method DeleteSpace(m: Machine, d: int)
    requires m.Valid() && IsDirectory(m.owner, d)
    modifies m
    ensures m.Valid() && m.owner == Rest(old(m.owner), d)
    ensures OnlySpace(old(m.mem), old(m.owner), m.mem, m.owner, d)
  {
    ghost var m0, o0 := m.mem, m.owner;
    hide Consistent, PhysOk, LeafOf, Lookup, OnlySpace, Emptied, PagesGone, Rest;
    m.DeleteUserMem(d);
    PagesGoneSpace(m0, o0, m.mem, m.owner, m.cfg, d);
    ghost var m1, o1 := m.mem, m.owner;
    m.DeletePd(d);
    DroppedIsRest(o1, d);
    RestKept(m0, o0, m1, o1, d);
    RestOfRest(m0, o0, m1, o1, m.mem, d);
  }

  /** An address space is made, faults any pages in (`full` is memory then), is emptied and deleted: every frame
      it took is free again, and no frame in use before has a word changed. */
  method Lifetime(m: Machine, faults: seq<int>) returns (ok: bool, d: int, ghost full: Mem)
    requires m.Valid() && forall k :: 0 <= k < |faults| ==> 0x8000_0000 <= faults[k] < 0x1_0000_0000
    modifies m
    ensures ok ==> forall k :: 0 <= k < |faults| ==> Lookup(full, d, Pdi(faults[k]), Pti(faults[k])) != Unmapped
    ensures ok ==> m.Valid() && m.owner == old(m.owner) && m.FramesLeft() == old(m.FramesLeft())
    ensures ok ==> forall f, k :: f in m.owner ==> Word(m.mem, f, k) == Word(old(m.mem), f, k)
    ensures !ok ==> m.Exhausted()
  {
    ghost var m0, o0 := m.mem, m.owner;
    full := m.mem;
    m.FramesConserved();
    ok, d := m.MakePd();
    if !ok {
      return;
    }
    hide Consistent, PhysOk, LeafOf, Lookup, Rest, OnlySpace, Pdi, Pti;
    ghost var m1, o1 := m.mem, m.owner;
    ok := m.PageFaults(d, faults);
    if !ok {
      return;
    }
    full := m.mem;
    OnlySpaceTrans(m0, o0, m1, o1, m.mem, m.owner, d);
    ghost var m2, o2 := m.mem, m.owner;
    DeleteSpace(m, d);
    OnlySpaceTrans(m0, o0, m2, o2, m.mem, m.owner, d);
    NothingBelongs(m0, o0, m.cfg, d);
    RestKept(m0, o0, m2, o2, d);
    RestKept(m0, o0, m.mem, m.owner, d);
    m.FramesConserved();
  }

  /** Page `p` of `d` is mapped, to a frame of zeros. */
  ghost predicate ZeroPage(mem: Mem, d: int, p: int) {
    match Lookup(mem, d, p / 1024, p % 1024)
    case Unmapped => false
    case To(x) => forall k :: 0 <= k < 1024 ==> Word(mem, x, k) == 0
  }

  predicate Free(mem: Mem, cfg: Config, d: int, p: int) {
    !cfg.Apic(p / 1024, p % 1024) && Lookup(mem, d, p / 1024, p % 1024) == Unmapped
  }

  lemma FreeIs(mem: Mem, cfg: Config, d: int, p: int)
    requires Free(mem, cfg, d, p)
    ensures !cfg.Apic(p / 1024, p % 1024) && Lookup(mem, d, p / 1024, p % 1024) == Unmapped
  {
  }

  /** Adding one page leaves the others as they are. */
  lemma PageBeside(mem: Mem, owner: Owners, mem': Mem, owner': Owners, cfg: Config, d: int, q: int, p: int)
    requires Consistent(mem, owner, cfg) && PageAdded(mem, owner, mem', owner', d, q / 1024, q % 1024)
    requires 512 * 1024 <= p < 1024 * 1024 && 512 * 1024 <= q < 1024 * 1024 && p != q
    requires !cfg.Apic(p / 1024, p % 1024)
    ensures ZeroPage(mem, d, p) ==> ZeroPage(mem', d, p)
    ensures Free(mem, cfg, d, p) ==> Free(mem', cfg, d, p)
  {
    var i, j := p / 1024, p % 1024;
    assert i != q / 1024 || j != q % 1024;
    assert Lookup(mem', d, i, j) == Lookup(mem, d, i, j);
    if Lookup(mem, d, i, j).To? {
      LookupLeaf(mem, owner, cfg, d, i, j);
    }
  }

  lemma PageIsZero(mem: Mem, owner: Owners, mem': Mem, owner': Owners, d: int, q: int)
    requires PageAdded(mem, owner, mem', owner', d, q / 1024, q % 1024)
    ensures ZeroPage(mem', d, q) && OnlySpace(mem, owner, mem', owner', d) && IsDirectory(owner', d)
  {
    hide OnlySpace, Lookup, LeafOf;
  }

  /** The pages of a new program's stack, which starts with page `first`. */
  method MapStack(m: Machine, d: int, first: int, bytesNeeded: nat) returns (ok: bool, pages: nat)
    requires m.Valid() && IsDirectory(m.owner, d) && 512 * 1024 <= first
    requires 4096 * first + bytesNeeded + 4100 <= 0x1_0000_0000
    requires forall p :: first <= p < 1024 * 1024 && 4096 * p < 4096 * first + bytesNeeded + 4 ==> Free(m.mem, m.cfg, d, p)
    modifies m
    ensures ok ==> m.Valid() && OnlySpace(old(m.mem), old(m.owner), m.mem, m.owner, d)
    ensures ok ==> 4096 * (pages - 1) < bytesNeeded + 4 <= 4096 * pages
    ensures ok ==> forall p :: first <= p < first + pages ==> ZeroPage(m.mem, d, p)
    ensures !ok ==> m.Exhausted()
  {
    ghost var m0, o0 := m.mem, m.owner;
    OnlySpaceRefl(m0, o0, d);
    hide Consistent, PhysOk, OnlySpace, PageAdded, ZeroPage, Free, Pdi, Pti;
    ok, pages := true, 0;
    while 4096 * pages < bytesNeeded + 4
      invariant m.Valid() && IsDirectory(m.owner, d) && OnlySpace(m0, o0, m.mem, m.owner, d)
      invariant 4096 * (pages - 1) < bytesNeeded + 4
      invariant forall p :: first <= p < first + pages ==> !m.cfg.Apic(p / 1024, p % 1024) && ZeroPage(m.mem, d, p)
      invariant forall p :: first + pages <= p < 1024 * 1024 && 4096 * p < 4096 * first + bytesNeeded + 4 ==>
        Free(m.mem, m.cfg, d, p)
      decreases bytesNeeded + 4 - 4096 * pages
    {
      var q := first + pages;
      ghost var m1, o1 := m.mem, m.owner;
      FreeIs(m.mem, m.cfg, d, q);
      PageIndices(q, 4096 * q);
      ok := m.NewPage(d, 4096 * q);
      if !ok {
        return;
      }
      PageIsZero(m1, o1, m.mem, m.owner, d, q);
      OnlySpaceTrans(m0, o0, m1, o1, m.mem, m.owner, d);
      forall p | first <= p < q
        ensures ZeroPage(m.mem, d, p)
      {
        PageBeside(m1, o1, m.mem, m.owner, m.cfg, d, q, p);
      }
      forall p | q < p < 1024 * 1024 && 4096 * p < 4096 * first + bytesNeeded + 4
        ensures Free(m.mem, m.cfg, d, p)
      {
        FreeIs(m1, m.cfg, d, p);
        PageBeside(m1, o1, m.mem, m.owner, m.cfg, d, q, p);
      }
      pages := pages + 1;
    }
  }

  lemma RestOfRest(mem: Mem, owner: Owners, mem1: Mem, owner1: Owners, mem2: Mem, d: int)
    requires OnlySpace(mem, owner, mem1, owner1, d)
    requires forall f, k :: f in Rest(owner1, d) ==> Word(mem2, f, k) == Word(mem1, f, k)
    ensures OnlySpace(mem, owner, mem2, Rest(owner1, d), d)
  {
    assert Rest(Rest(owner1, d), d) == Rest(owner1, d);
  }

  /** delete_pd alone is not enough: a page that was faulted in stays allocated, with nothing referring to it.
      Five frames are enough for this to happen: a directory, its tables for the two APIC pages, the new page
      and a table for it. */
  method PageLeftBehind(m: Machine, va: int) returns (x: int)
    requires m.Valid() && 0x8000_0000 <= va < 0x1_0000_0000 && !m.cfg.Apic(Pdi(va), Pti(va))
    requires m.FramesLeft() >= 5
    modifies m
    ensures m.Valid() && x !in old(m.owner) && m.owner == old(m.owner)[x := Loose]
  {
    ghost var m0, o0 := m.mem, m.owner;
    var ok, d := m.MakePd();
    assert ok;
    ghost var m1, o1 := m.mem, m.owner;
    hide Consistent, PhysOk, Lookup, OnlySpace, Pdi, Pti, SameTranslations, ApicsAt;
    ok := m.PageFault(d, va);
    assert ok;
    ghost var m2, o2 := m.mem, m.owner;
    x := FrameOf(Word(m.mem, FrameOf(Word(m.mem, d, Pdi(va))), Pti(va)));
    OnlyLeaf(m1, o1, m2, o2, d, Pdi(va), Pti(va), x);
    hide LeafOf, Rest;
    m.DeletePd(d);
    DroppedIsRestAndLeaf(o2, d, x);
  }

  lemma OnlyLeaf(mem: Mem, owner: Owners, mem': Mem, owner': Owners, d: int, i: int, j: int, x: int)
    requires PageAdded(mem, owner, mem', owner', d, i, j) && forall f :: !LeafOf(owner, f, d)
    requires x == FrameOf(Word(mem', FrameOf(Word(mem', d, i)), j))
    ensures x !in owner && LeafOf(owner', x, d) && forall f :: LeafOf(owner', f, d) ==> f == x
    ensures Rest(owner', d) == Rest(owner, d)
  {
    hide SameTranslations, LeafOf;
  }

  // ---------- any number of them ----------

  /** The frames in use that belong to none of the spaces `ds`. */
  function Outside(owner: Owners, ds: seq<int>): Owners {
    map f | f in owner && forall d :: d in ds ==> !Belongs(owner, f, d) :: owner[f]
  }

  /** The spaces `ds` are in use, each once, with their APIC pages mapped. */
  ghost predicate Live(mem: Mem, owner: Owners, cfg: Config, ds: seq<int>) {
    && (forall i, k :: 0 <= i < k < |ds| ==> ds[i] != ds[k])
    && forall d :: d in ds ==> IsDirectory(owner, d) && ApicsAt(mem, cfg, d)
  }

  /** From one state and list of spaces to the next, what is outside them is the same, word for word. */
  ghost predicate Undisturbed(mem: Mem, owner: Owners, ds: seq<int>, mem': Mem, owner': Owners, ds': seq<int>) {
    && Outside(owner', ds') == Outside(owner, ds)
    && forall f, k :: f in Outside(owner, ds) ==> Word(mem', f, k) == Word(mem, f, k)
  }

  lemma UndisturbedRefl(mem: Mem, owner: Owners, ds: seq<int>)
    ensures Undisturbed(mem, owner, ds, mem, owner, ds)
  {
  }

  lemma UndisturbedTrans(mem: Mem, owner: Owners, ds: seq<int>, mem1: Mem, owner1: Owners, ds1: seq<int>,
        mem2: Mem, owner2: Owners, ds2: seq<int>)
    requires Undisturbed(mem, owner, ds, mem1, owner1, ds1) && Undisturbed(mem1, owner1, ds1, mem2, owner2, ds2)
    ensures Undisturbed(mem, owner, ds, mem2, owner2, ds2)
  {
    hide Outside;
  }

  /** What happens in space `d` takes no frame of another space, and gives it none. */
  lemma BelongsKept(owner: Owners, owner': Owners, d: int, f: int, e: int)
    requires Rest(owner', d) == Rest(owner, d) && f in Rest(owner, d) && e != d
    ensures Belongs(owner', f, e) == Belongs(owner, f, e)
  {
    assert f in Rest(owner', d);
    if owner[f].Leaf? {
      var t := owner[f].table;
      assert TableOf(owner, t, e) ==> t in Rest(owner, d);
      assert TableOf(owner', t, e) ==> t in Rest(owner', d);
    }
  }

  /** An operation on one of the spaces. */
  lemma InsideOne(mem: Mem, owner: Owners, mem': Mem, owner': Owners, cfg: Config, ds: seq<int>, d: int)
    requires Consistent(mem, owner, cfg) && Live(mem, owner, cfg, ds) && d in ds
    requires OnlySpace(mem, owner, mem', owner', d) && IsDirectory(owner', d) && ApicsAt(mem', cfg, d)
    ensures Undisturbed(mem, owner, ds, mem', owner', ds) && Live(mem', owner', cfg, ds)
  {
    SameOutside(mem, owner, mem', owner', ds, d);
    OthersLive(mem, owner, mem', owner', cfg, ds, d);
  }

  lemma SameOutside(mem: Mem, owner: Owners, mem': Mem, owner': Owners, ds: seq<int>, d: int)
    requires OnlySpace(mem, owner, mem', owner', d) && d in ds
    ensures Undisturbed(mem, owner, ds, mem', owner', ds)
  {
    forall f
      ensures f in Outside(owner, ds) <==> f in Outside(owner', ds)
      ensures f in Outside(owner, ds) ==> f in Rest(owner, d) && owner'[f] == owner[f]
    {
      if f in Rest(owner, d) {
        assert f in Rest(owner', d);
        forall e | e in ds && e != d
          ensures Belongs(owner', f, e) == Belongs(owner, f, e)
        {
          BelongsKept(owner, owner', d, f, e);
        }
      } else {
        assert f !in Rest(owner', d);
      }
    }
  }

  /** The other spaces stay as they are. */
  lemma OthersLive(mem: Mem, owner: Owners, mem': Mem, owner': Owners, cfg: Config, ds: seq<int>, d: int)
    requires Consistent(mem, owner, cfg) && Live(mem, owner, cfg, ds) && OnlySpace(mem, owner, mem', owner', d)
    ensures forall e :: e in ds && e != d ==> IsDirectory(owner', e) && ApicsAt(mem', cfg, e)
  {
    assert cfg.Valid();
    forall e | e in ds && e != d
      ensures IsDirectory(owner', e) && ApicsAt(mem', cfg, e)
    {
      OtherSpacesKept(mem, owner, mem', owner', cfg, d, e, cfg.io / 1024, cfg.io % 1024);
      OtherSpacesKept(mem, owner, mem', owner', cfg, d, e, cfg.local / 1024, cfg.local % 1024);
    }
  }

  /** A new space. */
  lemma OneMore(mem: Mem, owner: Owners, mem': Mem, owner': Owners, cfg: Config, ds: seq<int>, d: int)
    requires Consistent(mem, owner, cfg) && Live(mem, owner, cfg, ds) && d !in owner
    requires OnlySpace(mem, owner, mem', owner', d) && IsDirectory(owner', d) && ApicsAt(mem', cfg, d)
    ensures Undisturbed(mem, owner, ds, mem', owner', ds + [d]) && Live(mem', owner', cfg, ds + [d])
  {
    NothingBelongs(mem, owner, cfg, d);
    OthersLive(mem, owner, mem', owner', cfg, ds, d);
    forall e | e in ds
      ensures e != d && IsDirectory(owner', e) && ApicsAt(mem', cfg, e)
    {
    }
    hide Consistent, ApicsAt;
    AllButNew(owner, owner', ds, d);
  }

  lemma AllButNew(owner: Owners, owner': Owners, ds: seq<int>, d: int)
    requires Rest(owner, d) == owner && Rest(owner', d) == owner && d !in ds
    ensures Outside(owner', ds + [d]) == Outside(owner, ds)
  {
    forall f
      ensures f in Outside(owner', ds + [d]) <==> f in Outside(owner, ds)
      ensures f in Outside(owner, ds) ==> owner'[f] == owner[f]
    {
      assert d in ds + [d];
      if f in owner {
        assert f in Rest(owner', d) && f in Rest(owner, d);
        forall e | e in ds
          ensures Belongs(owner', f, e) == Belongs(owner, f, e)
        {
          BelongsKept(owner, owner', d, f, e);
        }
      } else {
        assert f !in Rest(owner', d);
      }
    }
  }

  /** Without its space number `i`. */
  function Dropping(ds: seq<int>, i: nat): seq<int>
    requires i < |ds|
  {
    ds[..i] + ds[i + 1..]
  }

  /** A space deleted. */
  lemma OneLess(mem: Mem, owner: Owners, mem': Mem, owner': Owners, cfg: Config, ds: seq<int>, i: nat)
    requires Consistent(mem, owner, cfg) && Live(mem, owner, cfg, ds) && i < |ds|
    requires OnlySpace(mem, owner, mem', owner', ds[i]) && owner' == Rest(owner, ds[i])
    ensures Undisturbed(mem, owner, ds, mem', owner', Dropping(ds, i)) && Live(mem', owner', cfg, Dropping(ds, i))
  {
    var d, rest := ds[i], Dropping(ds, i);
    OthersLive(mem, owner, mem', owner', cfg, ds, d);
    assert forall e :: e in ds <==> e == d || e in rest;
    assert d !in rest;
    hide Consistent, ApicsAt;
    forall f
      ensures f in Outside(owner', rest) <==> f in Outside(owner, ds)
      ensures f in Outside(owner, ds) ==> f in Rest(owner, d)
    {
      if f in owner' {
        forall e | e in rest
          ensures Belongs(owner', f, e) == Belongs(owner, f, e)
        {
          assert f in Rest(owner, d);
          BelongsKept(owner, owner', d, f, e);
        }
      }
    }
  }

  // ---------- any interleaving ----------

  /** What may happen next: a space is made; the one with some index faults a page in, has one taken out, is
      copied into a new one, or is deleted. */
  datatype Op = Make | Fault(i: nat, va: int) | Unmap(i: nat, va: int) | Copy(i: nat) | Delete(i: nat)

  predicate UserAddress(cfg: Config, va: int) {
    0x8000_0000 <= va < 0x1_0000_0000 && !cfg.Apic(Pdi(va), Pti(va))
  }

  predicate Allowed(cfg: Config, op: Op) {
    match op
    case Fault(_, va) => UserAddress(cfg, va)
    case Unmap(_, va) => UserAddress(cfg, va)
    case _ => true
  }

  /** A moment between two operations: physical memory, who uses what, and the spaces in use. */
  datatype Snapshot = Snapshot(mem: Mem, owner: Owners, spaces: seq<int>)

  /** Nothing of the user half of `d` is mapped but the APIC pages. */
  ghost predicate NothingMapped(mem: Mem, cfg: Config, d: int) {
    forall i, j :: 512 <= i < 1024 && 0 <= j < 1024 && !cfg.Apic(i, j) ==> Lookup(mem, d, i, j) == Unmapped
  }

  ghost predicate OneNew(s: Snapshot, t: Snapshot) {
    && |t.spaces| == |s.spaces| + 1 && t.spaces[..|s.spaces|] == s.spaces
    && var d := t.spaces[|s.spaces|];
    && d !in s.owner && OnlySpace(s.mem, s.owner, t.mem, t.owner, d)
  }

  /** Exactly that page goes, and its frame. */
  ghost predicate PageTaken(s: Snapshot, t: Snapshot, d: int, i: int, j: int) {
    && OnlySpace(s.mem, s.owner, t.mem, t.owner, d)
    && Lookup(t.mem, d, i, j) == Unmapped && SameTranslations(s.mem, t.mem, s.owner, d, i, j)
    && t.owner == match Lookup(s.mem, d, i, j) case Unmapped => s.owner case To(f) => s.owner - {f}
  }

  /** What each operation does, to its own space and to no other. */
  ghost predicate Effect(cfg: Config, s: Snapshot, op: Op, t: Snapshot) {
    match op
    case Make => OneNew(s, t) && NothingMapped(t.mem, cfg, t.spaces[|s.spaces|])
    case Copy(i) =>
      if i >= |s.spaces| then t == s
      else OneNew(s, t) && CopyOf(s.mem, s.owner, t.mem, cfg, t.spaces[|s.spaces|], s.spaces[i])
    case Fault(i, va) =>
      if i >= |s.spaces| || !UserAddress(cfg, va) || Lookup(s.mem, s.spaces[i], Pdi(va), Pti(va)) != Unmapped then t == s
      else t.spaces == s.spaces && PageAdded(s.mem, s.owner, t.mem, t.owner, s.spaces[i], Pdi(va), Pti(va))
    case Unmap(i, va) =>
      if i >= |s.spaces| || !UserAddress(cfg, va) then t == s
      else t.spaces == s.spaces && PageTaken(s, t, s.spaces[i], Pdi(va), Pti(va))
    case Delete(i) =>
      if i >= |s.spaces| then t == s
      else
        && t.spaces == Dropping(s.spaces, i) && t.owner == Rest(s.owner, s.spaces[i])
        && OnlySpace(s.mem, s.owner, t.mem, t.owner, s.spaces[i])
  }

  /** Unmapping a user page leaves the APIC pages. */
  lemma ApicsStay(mem: Mem, owner: Owners, mem': Mem, owner': Owners, cfg: Config, d: int)
    requires PagesGone(mem, owner, mem', owner', cfg, d) && ApicsAt(mem, cfg, d) && cfg.Valid()
    ensures ApicsAt(mem', cfg, d) && IsDirectory(owner', d) && OnlySpace(mem, owner, mem', owner', d)
  {
    hide OnlySpace, Lookup;
    assert cfg.Apic(cfg.io / 1024, cfg.io % 1024) && cfg.Apic(cfg.local / 1024, cfg.local % 1024);
  }

  lemma AddedSpace(mem: Mem, owner: Owners, mem': Mem, owner': Owners, d: int, i: int, j: int)
    requires PageAdded(mem, owner, mem', owner', d, i, j)
    ensures OnlySpace(mem, owner, mem', owner', d)
  {
  }

  method Fault(m: Machine, ds: seq<int>, d: int, va: int) returns (ok: bool)
    requires m.Valid() && Live(m.mem, m.owner, m.cfg, ds) && d in ds && UserAddress(m.cfg, va)
    modifies m
    ensures ok ==> m.Valid() && Live(m.mem, m.owner, m.cfg, ds)
    ensures ok ==> Undisturbed(old(m.mem), old(m.owner), ds, m.mem, m.owner, ds)
    ensures ok ==>
      if old(Lookup(m.mem, d, Pdi(va), Pti(va))) != Unmapped then m.mem == old(m.mem) && m.owner == old(m.owner)
      else PageAdded(old(m.mem), old(m.owner), m.mem, m.owner, d, Pdi(va), Pti(va))
    ensures !ok ==> m.Exhausted()
  {
    ghost var m0, o0 := m.mem, m.owner;
    ok := true;
    if Lookup(m.mem, d, Pdi(va), Pti(va)) != Unmapped {
      UndisturbedRefl(m0, o0, ds);
    } else {
      hide Consistent, PhysOk, PageAdded, OnlySpace, Lookup, Undisturbed, Pdi, Pti;
      ok := m.PageFault(d, va);
      if ok {
        AddedSpace(m0, o0, m.mem, m.owner, d, Pdi(va), Pti(va));
        InsideOne(m0, o0, m.mem, m.owner, m.cfg, ds, d);
      }
    }
  }

  method TakeOut(m: Machine, ds: seq<int>, d: int, va: int)
    requires m.Valid() && Live(m.mem, m.owner, m.cfg, ds) && d in ds && UserAddress(m.cfg, va)
    modifies m
    ensures m.Valid() && Live(m.mem, m.owner, m.cfg, ds)
    ensures Undisturbed(old(m.mem), old(m.owner), ds, m.mem, m.owner, ds)
    ensures PageTaken(Snapshot(old(m.mem), old(m.owner), ds), Snapshot(m.mem, m.owner, ds), d, Pdi(va), Pti(va))
  {
    ghost var m0, o0 := m.mem, m.owner;
    assert m.cfg.Valid();
    hide Consistent, PhysOk, PagesGone, OnlySpace, Lookup, Undisturbed, SameTranslations, ApicsAt, Pdi, Pti;
    m.Unmap(d, va);
    ApicsStay(m0, o0, m.mem, m.owner, m.cfg, d);
    InsideOne(m0, o0, m.mem, m.owner, m.cfg, ds, d);
  }

  method Make(m: Machine, ds: seq<int>) returns (ok: bool, d: int)
    requires m.Valid() && Live(m.mem, m.owner, m.cfg, ds)
    modifies m
    ensures ok ==> m.Valid() && Live(m.mem, m.owner, m.cfg, ds + [d])
    ensures ok ==> Undisturbed(old(m.mem), old(m.owner), ds, m.mem, m.owner, ds + [d])
    ensures ok ==> d !in old(m.owner) && OnlySpace(old(m.mem), old(m.owner), m.mem, m.owner, d) && NothingMapped(m.mem, m.cfg, d)
    ensures !ok ==> m.Exhausted()
  {
    ghost var m0, o0 := m.mem, m.owner;
    hide Consistent, PhysOk, OnlySpace, Lookup, Undisturbed, ApicsAt, LeafOf, Rest, Live;
    ok, d := m.MakePd();
    if ok {
      OneMore(m0, o0, m.mem, m.owner, m.cfg, ds, d);
    }
  }

  method Copy(m: Machine, ds: seq<int>, from: int) returns (ok: bool, d: int)
    requires m.Valid() && Live(m.mem, m.owner, m.cfg, ds) && from in ds
    modifies m
    ensures ok ==> m.Valid() && Live(m.mem, m.owner, m.cfg, ds + [d])
    ensures ok ==> Undisturbed(old(m.mem), old(m.owner), ds, m.mem, m.owner, ds + [d])
    ensures ok ==> d !in old(m.owner) && OnlySpace(old(m.mem), old(m.owner), m.mem, m.owner, d)
    ensures ok ==> CopyOf(old(m.mem), old(m.owner), m.mem, m.cfg, d, from)
    ensures !ok ==> m.Exhausted()
  {
    ghost var m0, o0 := m.mem, m.owner;
    assert IsDirectory(m.owner, from);
    hide Consistent, PhysOk, OnlySpace, Lookup, Undisturbed, ApicsAt, CopyOf, Live;
    ok, d := m.Fork(from);
    if ok {
      OneMore(m0, o0, m.mem, m.owner, m.cfg, ds, d);
    }
  }

  method Delete(m: Machine, ds: seq<int>, i: nat)
    requires m.Valid() && Live(m.mem, m.owner, m.cfg, ds) && i < |ds|
    modifies m
    ensures m.Valid() && Live(m.mem, m.owner, m.cfg, Dropping(ds, i))
    ensures m.owner == Rest(old(m.owner), ds[i]) && OnlySpace(old(m.mem), old(m.owner), m.mem, m.owner, ds[i])
    ensures Undisturbed(old(m.mem), old(m.owner), ds, m.mem, m.owner, Dropping(ds, i))
  {
    ghost var m0, o0 := m.mem, m.owner;
    assert IsDirectory(m.owner, ds[i]);
    hide Consistent, PhysOk, OnlySpace, Lookup, Undisturbed, ApicsAt, Live, Rest;
    DeleteSpace(m, ds[i]);
    OneLess(m0, o0, m.mem, m.owner, m.cfg, ds, i);
  }

  /** One operation; one whose index names no space does nothing. */
  method Perform(m: Machine, ds: seq<int>, op: Op) returns (ok: bool, ds': seq<int>)
    requires m.Valid() && Live(m.mem, m.owner, m.cfg, ds) && Allowed(m.cfg, op)
    modifies m
    ensures ok ==> m.Valid() && Live(m.mem, m.owner, m.cfg, ds')
    ensures ok ==> Undisturbed(old(m.mem), old(m.owner), ds, m.mem, m.owner, ds')
    ensures ok ==> Effect(m.cfg, Snapshot(old(m.mem), old(m.owner), ds), op, Snapshot(m.mem, m.owner, ds'))
    ensures !ok ==> m.Exhausted()
  {
    UndisturbedRefl(m.mem, m.owner, ds);
    hide Consistent, PhysOk, Undisturbed, Live, UserAddress, OnlySpace, PageAdded, PageTaken, CopyOf, NothingMapped, Lookup, Rest;
    ok, ds' := true, ds;
    match op
    case Make =>
      var d;
      ok, d := Make(m, ds);
      ds' := ds + [d];
    case Fault(i, va) => if i < |ds| { ok := Fault(m, ds, ds[i], va); }
    case Unmap(i, va) => if i < |ds| { TakeOut(m, ds, ds[i], va); }
    case Copy(i) =>
      if i < |ds| {
        var d;
        ok, d := Copy(m, ds, ds[i]);
        ds' := ds + [d];
      }
    case Delete(i) =>
      if i < |ds| {
        Delete(m, ds, i);
        ds' := Dropping(ds, i);
      }
  }

  method DeleteAll(m: Machine, ds: seq<int>)
    requires m.Valid() && Live(m.mem, m.owner, m.cfg, ds)
    modifies m
    ensures m.Valid() && Live(m.mem, m.owner, m.cfg, [])
    ensures Undisturbed(old(m.mem), old(m.owner), ds, m.mem, m.owner, [])
  {
    ghost var m0, o0 := m.mem, m.owner;
    UndisturbedRefl(m0, o0, ds);
    hide Consistent, PhysOk, Undisturbed, Live;
    var left := ds;
    while left != []
      invariant m.Valid() && Live(m.mem, m.owner, m.cfg, left)
      invariant Undisturbed(m0, o0, ds, m.mem, m.owner, left)
      decreases |left|
    {
      ghost var m1, o1 := m.mem, m.owner;
      Delete(m, left, 0);
      UndisturbedTrans(m0, o0, ds, m1, o1, left, m.mem, m.owner, Dropping(left, 0));
      left := Dropping(left, 0);
    }
  }

  lemma NoSpaces(mem: Mem, owner: Owners, cfg: Config)
    ensures Outside(owner, []) == owner && Live(mem, owner, cfg, [])
  {
  }

  lemma NothingDisturbed(mem: Mem, owner: Owners, mem': Mem, owner': Owners)
    requires Undisturbed(mem, owner, [], mem', owner', [])
    ensures owner' == owner && forall f, k :: f in owner ==> Word(mem', f, k) == Word(mem, f, k)
  {
    assert Outside(owner, []) == owner && Outside(owner', []) == owner';
  }

  /** From `trace[0]` on, each of the first `n` operations has had its effect. */
  ghost predicate Traced(cfg: Config, first: Snapshot, ops: seq<Op>, n: nat, trace: seq<Snapshot>) {
    && n <= |ops| && |trace| == n + 1 && trace[0] == first
    && forall k :: 0 <= k < n ==> Effect(cfg, trace[k], ops[k], trace[k + 1])
  }

  lemma TracedOn(cfg: Config, first: Snapshot, ops: seq<Op>, n: nat, trace: seq<Snapshot>, t: Snapshot)
    requires Traced(cfg, first, ops, n, trace) && n < |ops| && Effect(cfg, trace[n], ops[n], t)
    ensures Traced(cfg, first, ops, n + 1, trace + [t]) && |trace + [t]| == n + 2 && (trace + [t])[n + 1] == t
  {
    hide Effect;
  }

  lemma TraceStarts(cfg: Config, first: Snapshot, ops: seq<Op>)
    ensures Traced(cfg, first, ops, 0, [first])
  {
    hide Effect;
  }

  /** Any operations on any number of address spaces, in any order, and then the deletion of those that are
      left: each operation has its effect, and in the end every frame they took is free again, and no frame in
      use before has a word changed. */
  method Interleaved(m: Machine, ops: seq<Op>) returns (ok: bool, ghost trace: seq<Snapshot>)
    requires m.Valid() && forall op :: op in ops ==> Allowed(m.cfg, op)
    modifies m
    ensures ok ==> Traced(m.cfg, Snapshot(old(m.mem), old(m.owner), []), ops, |ops|, trace)
    ensures ok ==> m.Valid() && m.owner == old(m.owner) && m.FramesLeft() == old(m.FramesLeft())
    ensures ok ==> forall f, k :: f in m.owner ==> Word(m.mem, f, k) == Word(old(m.mem), f, k)
    ensures !ok ==> m.Exhausted()
  {
    ghost var m0, o0 := m.mem, m.owner;
    m.FramesConserved();
    hide Consistent, PhysOk, Undisturbed, Live, Outside, Allowed, Effect, Traced;
    NoSpaces(m0, o0, m.cfg);
    UndisturbedRefl(m0, o0, []);
    TraceStarts(m.cfg, Snapshot(m0, o0, []), ops);
    ok := true;
    var ds: seq<int> := [];
    trace := [Snapshot(m0, o0, [])];
    for n := 0 to |ops|
      invariant m.Valid() && Live(m.mem, m.owner, m.cfg, ds)
      invariant Undisturbed(m0, o0, [], m.mem, m.owner, ds)
      invariant Traced(m.cfg, Snapshot(m0, o0, []), ops, n, trace)
      invariant n < |trace| && trace[n] == Snapshot(m.mem, m.owner, ds)
    {
      ghost var m1, o1, was := m.mem, m.owner, ds;
      assert ops[n] in ops;
      ok, ds := Perform(m, ds, ops[n]);
      if !ok {
        return;
      }
      TracedOn(m.cfg, Snapshot(m0, o0, []), ops, n, trace, Snapshot(m.mem, m.owner, ds));
      trace := trace + [Snapshot(m.mem, m.owner, ds)];
      UndisturbedTrans(m0, o0, [], m1, o1, was, m.mem, m.owner, ds);
    }
    ghost var m2, o2 := m.mem, m.owner;
    DeleteAll(m, ds);
    UndisturbedTrans(m0, o0, [], m2, o2, ds, m.mem, m.owner, []);
    NothingDisturbed(m0, o0, m.mem, m.owner);
    m.FramesConserved();
  }
}
