/**
 The frame allocator and the page-table code, as methods that update one physical
 memory.  Pointers to frames are frame numbers: the address of frame `f` is
 `4096 * f`.  `Debug::panic` stops the machine; a method that can reach it returns
 `ok == false` then.
 */
module Vmm {
  import opened PageCopy
  import opened PageTables

  class Machine {
    const cfg: Config
    const start: int
    const limit: int
    var mem: Mem
    var firstFree: int
    var avail: int
    ghost var free: seq<int>
    ghost var owner: Owners

    ghost predicate PhysValid()
      reads this
    {
      PhysOk(mem, firstFree, avail, start, limit, free, owner)
    }

    ghost predicate Valid()
      reads this
    {
      PhysValid() && Consistent(mem, owner, cfg)
    }

    /** PhysMem::init, whatever memory holds.  Frame `start` will be the first one handed out: the
        kernel's directory. */
    constructor (start: int, limit: int, memPages: int, io: int, local: int, mem: Mem)
      requires 0 < start <= limit == |mem| && Shaped(mem)
      ensures PhysValid() && owner == map[] && free == [] && avail == start && this.limit == limit && this.mem == mem
      ensures cfg == Config(start, memPages, io, local)
    {
      cfg := Config(start, memPages, io, local);
      this.start := start;
      this.limit := limit;
      this.mem := mem;
      firstFree := 0;
      avail := start;
      free := [];
      owner := map[];
    }

    /** No frame is left to hand out. */
    ghost predicate Exhausted()
      reads this
    {
      free == [] && avail == limit
    }

    /** How many frames are left to hand out. */
    ghost function FramesLeft(): int
      reads this
    {
      |free| + limit - avail
    }

    lemma FramesConserved()
      requires PhysValid()
      ensures |owner| + FramesLeft() == limit - start
    {
      FramesAreConserved(mem, firstFree, avail, start, limit, free, owner);
    }

    // ---------- kernel/physmem.cc ----------

    method AllocFrame() returns (ok: bool, p: int)
      requires PhysValid()
      modifies this
      ensures PhysValid()
      ensures ok <==> !old(Exhausted())
      ensures FramesLeft() == old(FramesLeft()) - (if ok then 1 else 0)
      ensures ok ==> p == if old(free) != [] then old(free)[0] else old(avail)
      ensures !ok ==> mem == old(mem) && owner == old(owner)
      ensures !ok ==> firstFree == old(firstFree) && avail == old(avail) && free == old(free)
      ensures ok ==>
        && p !in old(owner) && 0 < p < |old(mem)|
        && owner == old(owner)[p := Loose] && mem == Clear(old(mem), p)
    {
      ok, p := true, 0;
      ghost var was := free;
      assert was != [] ==> was[0] in was;
      if firstFree != 0 {
        p := firstFree / 4096;
        firstFree := Word(mem, p, 0);
        free := free[1..];
      } else {
        if avail == limit {
          ok := false;
          return;
        }
        p := avail;
        avail := avail + 1;
      }
      assert forall f :: f in free ==> f in was && f != p;
      assert forall f :: f in was ==> f in free || f == p;
      ChainFrame(mem, Clear(mem, p), firstFree, free);
      mem := Clear(mem, p);
      owner := owner[p := Loose];
    }

    method DeallocFrame(p: int)
      requires PhysValid() && p in owner
      modifies this
      ensures PhysValid()
      ensures owner == old(owner) - {p} && mem == Write(old(mem), p, 0, old(firstFree))
    {
      ChainFrame(mem, Write(mem, p, 0, firstFree), firstFree, free);
      mem := Write(mem, p, 0, firstFree);
      firstFree := 4096 * p;
      free := [p] + free;
      owner := owner - {p};
    }

    // ---------- kernel/vmm.cc ----------

    method Map(pd: int, va: int, pa: int) returns (ok: bool)
      requires PhysValid() && pd in owner && 0 <= va < 0x1_0000_0000 && pa % 4096 == 0
      requires var e := Word(mem, pd, Pdi(va)); Present(e) ==> FrameOf(e) in owner
      modifies this
      ensures PhysValid()
      ensures ok ==> MapResult(old(mem), old(owner), mem, owner, pd, Pdi(va), Pti(va), pa + 7)
      ensures !ok ==> mem == old(mem) && owner == old(owner) && Exhausted()
      ensures FramesLeft() >= old(FramesLeft()) - (if ok then 1 else 0)
    {
      ok := true;
      var pdi := Pdi(va);
      var pti := Pti(va);
      var pde := Word(mem, pd, pdi);
      if !Present(pde) {
        var t;
        ok, t := AllocFrame();
        if !ok {
          return;
        }
        pde := Entry(t);
        Put(pd, pdi, pde, if owner[pd] == Shared then owner[t := KernelTable(pdi)] else owner[t := Table(pd, pdi)]);
      }
      Put(FrameOf(pde), pti, pa + 7, owner);
    }

    /** VMM::global_init: the kernel's directory, mapping every page of memory but the first to itself. */
    method GlobalInit() returns (ok: bool)
      requires PhysValid() && owner == map[] && free == [] && avail == cfg.shared && cfg.Valid()
      modifies this
      ensures ok ==> Valid() && owner[cfg.shared] == Shared
      ensures ok ==> KernelUpTo(mem, owner, cfg, cfg.memPages)
      ensures !ok ==> Exhausted()
    {
      var shared;
      ok, shared := AllocFrame();
      if !ok {
        return;
      }
      ghost var o := map[cfg.shared := Shared];
      assert owner == map[cfg.shared := Loose];
      KernelEmpty(mem, cfg);
      hide Consistent, PhysOk, KernelUpTo;
      Relabel(o);
      for p := 1 to cfg.memPages
        invariant PhysValid() && KernelUpTo(mem, owner, cfg, p)
      {
        ok := MapKernelPage(shared, p);
        if !ok {
          return;
        }
      }
      KernelMapped(mem, owner, cfg);
    }

    method MapKernelPage(shared: int, p: int) returns (ok: bool)
      requires PhysValid() && cfg.Valid() && shared == cfg.shared && 1 <= p < cfg.memPages
      requires KernelUpTo(mem, owner, cfg, p)
      modifies this
      ensures ok ==> PhysValid() && KernelUpTo(mem, owner, cfg, p + 1)
      ensures !ok ==> Exhausted()
    {
      ghost var m0, o0 := mem, owner;
      KernelEntry(mem, owner, cfg, p);
      PageIndices(p, 4096 * p);
      hide PhysOk, MapResult, KernelUpTo, Pdi, Pti;
      ok := Map(shared, 4096 * p, 4096 * p);
      if ok {
        KernelMapsNext(m0, o0, mem, owner, cfg, p);
      }
    }

    /** The frames in use change roles. */
    ghost method Relabel(roles: Owners)
      requires PhysValid() && roles.Keys == owner.Keys
      modifies this`owner
      ensures PhysValid() && owner == roles
    {
      OwnedChange(mem, mem, firstFree, avail, start, limit, free, owner, roles);
      owner := roles;
    }

    /** Store one word of a frame in use, and record the roles it brings about. */
    method Put(f: int, i: int, v: int, ghost roles: Owners)
      requires PhysValid() && f in owner && 0 <= i < 1024 && roles.Keys == owner.Keys
      modifies this`mem, this`owner
      ensures PhysValid() && mem == Write(old(mem), f, i, v) && owner == roles
    {
      OwnedChange(mem, Write(mem, f, i, v), firstFree, avail, start, limit, free, owner, roles);
      mem := Write(mem, f, i, v);
      owner := roles;
    }

    /** Both APIC pages of `d` map to themselves. */
    ghost predicate ApicsMapped(d: int)
      reads this
    {
      ApicsAt(mem, cfg, d)
    }

    /** alloc_frame and map, as the page-fault handler and the exec stack builder use them. */
    method NewPage(d: int, va: int) returns (ok: bool)
      requires Valid() && IsDirectory(owner, d) && 0x8000_0000 <= va < 0x1_0000_0000
      requires !cfg.Apic(Pdi(va), Pti(va))
      requires Lookup(mem, d, Pdi(va), Pti(va)) == Unmapped
      modifies this
      ensures ok ==> Valid() && PageAdded(old(mem), old(owner), mem, owner, d, Pdi(va), Pti(va))
      ensures !ok ==> Exhausted()
      ensures FramesLeft() >= old(FramesLeft()) - (if ok then 2 else 1)
    {
      hide Consistent, PageAdded, PhysOk, MapResult, Lookup;
      ghost var i, j := Pdi(va), Pti(va);
      if Present(Word(mem, d, i)) {
        EntryRole(mem, owner, cfg, d, i);
      }
      hide Pdi, Pti;
      var x;
      ok, x := AllocFrame();
      if ok {
        ok := Map(d, va, 4096 * x);
        if ok {
          ghost var t := AllocThenMap(old(mem), old(owner), mem, owner, cfg, d, i, j, x);
          Relabel(owner[x := Leaf(t, j)]);
        }
      }
    }

    /** vmm_pageFault for the address space `d`; a page fault comes from an unmapped page. */
    method PageFault(d: int, va_: int) returns (ok: bool)
      requires Valid() && IsDirectory(owner, d) && 0 <= va_ < 0x1_0000_0000 && ApicsMapped(d)
      requires Lookup(mem, d, Pdi(va_), Pti(va_)) == Unmapped
      modifies this
      ensures ok ==> va_ >= 0x8000_0000 && Valid() && IsDirectory(owner, d) && ApicsMapped(d)
      ensures ok ==> PageAdded(old(mem), old(owner), mem, owner, d, Pdi(va_), Pti(va_))
      ensures !ok ==> va_ < 0x8000_0000 || Exhausted()
      ensures FramesLeft() >= old(FramesLeft()) - (if ok then 2 else 1)
    {
      var va := va_ / 4096 * 4096;
      assert cfg.Valid();
      PageIndices(va_ / 4096, va_);
      PageIndices(va_ / 4096, va);
      if va >= 0x8000_0000 {
        hide Consistent, PhysOk, OnlySpace, LeafOf, Lookup, Pdi, Pti;
        ok := NewPage(d, va);
      } else {
        ok := false;
      }
    }

    /** The directory's frame, with the shared kernel entries copied in. */
    method BlankPd() returns (ok: bool, d: int)
      requires Valid()
      modifies this
      ensures ok ==> Valid() && IsDirectory(owner, d) && d !in old(owner)
      ensures !ok ==> Exhausted()
      ensures FramesLeft() >= old(FramesLeft()) - (if ok then 1 else 0)
      ensures ok ==>
        && OnlySpace(old(mem), old(owner), mem, owner, d)
        && (forall f :: !LeafOf(owner, f, d))
        && (forall i, j :: 512 <= i < 1024 && 0 <= j < 1024 ==> Lookup(mem, d, i, j) == Unmapped)
    {
      assert 0 <= cfg.shared < |mem|;
      ok, d := AllocFrame();
      if ok {
        NewDirectory(old(mem), old(owner), cfg, d);
        hide Consistent, PhysOk, OnlySpace, LeafOf, Lookup;
        ghost var o := owner[d := Directory];
        OwnedChange(mem, CopyFrame(mem, d, cfg.shared, cfg.KernelEntries()), firstFree, avail, start, limit, free, owner, o);
        mem := CopyFrame(mem, d, cfg.shared, cfg.KernelEntries());
        owner := o;
        assert owner == old(owner)[d := Directory];
      }
    }

    method MakePd() returns (ok: bool, d: int)
      requires Valid()
      modifies this
      ensures ok ==> Valid() && IsDirectory(owner, d) && d !in old(owner) && ApicsMapped(d)
      ensures !ok ==> Exhausted()
      ensures FramesLeft() >= old(FramesLeft()) - (if ok then 3 else 2)
      ensures ok ==>
        && OnlySpace(old(mem), old(owner), mem, owner, d) && Rest(owner, d) == old(owner)
        && (forall f :: !LeafOf(owner, f, d))
        && (forall i, j :: 512 <= i < 1024 && 0 <= j < 1024 && !cfg.Apic(i, j) ==> Lookup(mem, d, i, j) == Unmapped)
    {
      ghost var m0, o0 := mem, owner;
      ok, d := BlankPd();
      if !ok {
        return;
      }
      ghost var m1, o1 := mem, owner;
      NothingBelongs(m0, o0, cfg, d);
      assert cfg.Valid();
      hide Consistent, PhysOk, LeafOf, Lookup, Rest;
      ok := MapApicPage(d, cfg.io);
      if !ok {
        return;
      }
      ghost var m2, o2 := mem, owner;
      ok := MapApicPage(d, cfg.local);
      if ok {
        OnlySpaceTrans(m0, o0, m1, o1, m2, o2, d);
        OnlySpaceTrans(m0, o0, m2, o2, mem, owner, d);
      }
    }

    /** map of an APIC page to itself. */
    method MapApicPage(d: int, page: int) returns (ok: bool)
      requires Valid() && IsDirectory(owner, d) && (page == cfg.io || page == cfg.local)
      modifies this
      ensures ok ==>
        && Valid() && IsDirectory(owner, d)
        && OnlySpace(old(mem), old(owner), mem, owner, d)
        && SameTranslations(old(mem), mem, old(owner), d, page / 1024, page % 1024)
        && Lookup(mem, d, page / 1024, page % 1024) == To(page)
        && (forall f :: LeafOf(owner, f, d) ==> LeafOf(old(owner), f, d))
      ensures !ok ==> Exhausted()
      ensures FramesLeft() >= old(FramesLeft()) - (if ok then 1 else 0)
    {
      ghost var i, j := page / 1024, page % 1024;
      if Present(Word(mem, d, i)) {
        EntryRole(mem, owner, cfg, d, i);
      }
      assert cfg.Valid();
      PageIndices(page, 4096 * page);
      hide Consistent, PhysOk, OnlySpace, SameTranslations, MapResult, LeafOf, Lookup, Pdi, Pti;
      ok := Map(d, 4096 * page, 4096 * page);
      if ok {
        MapApic(old(mem), old(owner), mem, owner, cfg, d, i, j);
      }
    }

    method Unmap(d: int, va: int)
      requires Valid() && IsDirectory(owner, d) && 0x8000_0000 <= va < 0x1_0000_0000
      requires !cfg.Apic(Pdi(va), Pti(va))
      modifies this
      ensures Valid() && PagesGone(old(mem), old(owner), mem, owner, cfg, d)
      ensures Lookup(mem, d, Pdi(va), Pti(va)) == Unmapped
      ensures SameTranslations(old(mem), mem, old(owner), d, Pdi(va), Pti(va))
      ensures owner ==
        match old(Lookup(mem, d, Pdi(va), Pti(va)))
        case Unmapped => old(owner)
        case To(f) => old(owner) - {f}
    {
      var pdi := Pdi(va);
      var pti := Pti(va);
      var pde := Word(mem, d, pdi);
      if Present(pde) {
        var pt := FrameOf(pde);
        EntryRole(mem, owner, cfg, d, pdi);
        var pte := Word(mem, pt, pti);
        if Present(pte) {
          var x := FrameOf(pte);
          LeafGone(mem, owner, cfg, d, pdi, pt, pti, x, firstFree);
          WriteCommute(mem, x, 0, firstFree, pt, pti, 0);
          hide Consistent, PhysOk, PagesGone, SameTranslations, LeafOf, Lookup, Pdi, Pti;
          Put(pt, pti, 0, owner);
          DeallocFrame(x);
        }
      }
    }

    /** One round of the inner loop of delete_user_mem: a page that is not an APIC's is given back. */
    method ClearEntry(d: int, i: int, t: int, j: int)
      requires Valid() && IsDirectory(owner, d) && t in owner && owner[t] == Table(d, i) && 0 <= j < 1024
      modifies this
      ensures Valid() && PagesGone(old(mem), old(owner), mem, owner, cfg, d) && t in owner && owner[t] == Table(d, i)
      ensures Present(Word(mem, t, j)) ==> cfg.Apic(i, j)
      ensures forall l :: l != j ==> Word(mem, t, l) == Word(old(mem), t, l)
    {
      var pte := Word(mem, t, j);
      if Present(pte) && !cfg.Apic(i, j) {
        var x := FrameOf(pte);
        LeafGone(mem, owner, cfg, d, i, t, j, x, firstFree);
        hide Consistent, PhysOk, PagesGone, SameTranslations, LeafOf, Lookup;
        DeallocFrame(x);
        Put(t, j, 0, owner);
      }
    }

    /** The inner loop of delete_user_mem. */
    method ClearTable(d: int, i: int, t: int) returns (remove: bool)
      requires Valid() && IsDirectory(owner, d) && t in owner && owner[t] == Table(d, i)
      modifies this
      ensures Valid() && PagesGone(old(mem), old(owner), mem, owner, cfg, d) && t in owner && owner[t] == Table(d, i)
      ensures forall j :: 0 <= j < 1024 && Present(Word(mem, t, j)) ==> cfg.Apic(i, j)
      ensures remove <==> forall j :: 0 <= j < 1024 ==> !cfg.Apic(i, j)
    {
      remove := true;
      PagesGoneRefl(mem, owner, cfg, d);
      ghost var m0, o0 := mem, owner;
      hide Consistent, PhysOk, PagesGone;
      for j := 0 to 1024
        invariant Valid() && IsDirectory(owner, d) && t in owner && owner[t] == Table(d, i)
        invariant PagesGone(m0, o0, mem, owner, cfg, d)
        invariant forall l :: 0 <= l < j && Present(Word(mem, t, l)) ==> cfg.Apic(i, l)
        invariant remove <==> forall l :: 0 <= l < j ==> !cfg.Apic(i, l)
      {
        ghost var m1, o1 := mem, owner;
        ClearEntry(d, i, t, j);
        PagesGoneTrans(m0, o0, m1, o1, mem, owner, cfg, d);
        if cfg.Apic(i, j) {
          remove := false;
        }
      }
    }

    /** One round of the outer loop. */
    method ClearSlot(d: int, i: int)
      requires Valid() && IsDirectory(owner, d) && 512 <= i < 1024
      modifies this
      ensures Valid() && IsDirectory(owner, d) && PagesGone(old(mem), old(owner), mem, owner, cfg, d)
      ensures Emptied(mem, cfg, d, i)
    {
      PagesGoneRefl(mem, owner, cfg, d);
      var pde := Word(mem, d, i);
      if Present(pde) {
        var t := FrameOf(pde);
        EntryRole(mem, owner, cfg, d, i);
        ghost var m0, o0 := mem, owner;
        var remove := ClearTable(d, i, t);
        TablesHaveDirectories(mem, owner, cfg);
        ghost var m1, o1 := mem, owner;
        if remove {
          TableGone(mem, owner, cfg, d, i, t, firstFree);
          hide Consistent, PhysOk, PagesGone, OnlySpace;
          DeallocFrame(t);
          Put(d, i, 0, owner);
          PagesGoneTrans(m0, o0, m1, o1, mem, owner, cfg, d);
        } else {
          hide Consistent, PhysOk, PagesGone, OnlySpace;
          SlotOfApic(cfg, i);
        }
      }
    }

    method DeleteUserMem(d: int)
      requires Valid() && IsDirectory(owner, d)
      modifies this
      ensures Valid() && IsDirectory(owner, d) && PagesGone(old(mem), old(owner), mem, owner, cfg, d)
      ensures forall i :: 512 <= i < 1024 ==> Emptied(mem, cfg, d, i)
      ensures forall f :: !LeafOf(owner, f, d)
    {
      PagesGoneRefl(mem, owner, cfg, d);
      ghost var m0, o0 := mem, owner;
      hide Consistent, PhysOk, PagesGone, Emptied, LeafOf;
      for i := 512 to 1024
        invariant Valid() && IsDirectory(owner, d)
        invariant PagesGone(m0, o0, mem, owner, cfg, d)
        invariant forall k :: 512 <= k < i ==> Emptied(mem, cfg, d, k)
      {
        ghost var m1, o1 := mem, owner;
        ClearSlot(d, i);
        PagesGoneTrans(m0, o0, m1, o1, mem, owner, cfg, d);
        forall k | 512 <= k < i
          ensures Emptied(mem, cfg, d, k)
        {
          EmptiedStays(m1, o1, mem, owner, cfg, d, k);
        }
      }
      EmptiedHasNoLeaves(mem, owner, cfg, d);
    }

    /** Gives back the tables of the user half, and the directory; not the pages still mapped. */
    method DeletePd(d: int)
      requires Valid() && IsDirectory(owner, d)
      modifies this
      ensures Valid() && owner == Dropped(old(owner), d)
      ensures owner == Rest(old(owner), d) <==>
        forall k, l :: UserPage(cfg, k, l) ==> old(Lookup(mem, d, k, l)) == Unmapped
      ensures forall f, k :: f in owner ==> Word(mem, f, k) == Word(old(mem), f, k)
    {
      ghost var m0, o0 := mem, owner;
      TablesHaveDirectories(mem, owner, cfg);
      PeeledNothing(mem, owner, cfg, d);
      hide Consistent, PhysOk;
      for i := 512 to 1024
        invariant PhysValid() && owner == Peeled(o0, d, i) && |mem| == |m0|
        invariant forall f, k :: f in owner ==> Word(mem, f, k) == Word(m0, f, k)
      {
        var pde := Word(mem, d, i);
        PeelOne(m0, o0, cfg, d, i);
        if Present(pde) {
          DeallocFrame(FrameOf(pde));
        }
      }
      DeallocFrame(d);
      PeeledAll(m0, o0, cfg, d);
      Relabel(Dropped(o0, d));
      DropDirectory(m0, mem, o0, cfg, d);
      hide Lookup, Rest, Dropped;
      DropLeaksExactlyMappedPages(m0, o0, cfg, d);
    }

    /** Any run of page faults of one address space. */
    method PageFaults(d: int, faults: seq<int>) returns (ok: bool)
      requires Valid() && IsDirectory(owner, d) && ApicsMapped(d)
      requires forall k :: 0 <= k < |faults| ==> 0x8000_0000 <= faults[k] < 0x1_0000_0000
      modifies this
      ensures ok ==> Valid() && IsDirectory(owner, d) && OnlySpace(old(mem), old(owner), mem, owner, d)
      ensures ok ==> forall k :: 0 <= k < |faults| ==> Lookup(mem, d, Pdi(faults[k]), Pti(faults[k])) != Unmapped
      ensures !ok ==> Exhausted()
    {
      ghost var m0, o0 := mem, owner;
      OnlySpaceRefl(mem, owner, d);
      hide Consistent, PhysOk, LeafOf, Lookup, Rest, OnlySpace, SameTranslations, Pdi, Pti;
      ok := true;
      for n := 0 to |faults|
        invariant Valid() && IsDirectory(owner, d) && ApicsMapped(d)
        invariant OnlySpace(m0, o0, mem, owner, d)
        invariant forall k :: 0 <= k < n ==> Lookup(mem, d, Pdi(faults[k]), Pti(faults[k])) != Unmapped
      {
        var va := faults[n];
        if Lookup(mem, d, Pdi(va), Pti(va)) == Unmapped {
          ghost var m1, o1 := mem, owner;
          ok := PageFault(d, va);
          if !ok {
            return;
          }
          OnlySpaceTrans(m0, o0, m1, o1, mem, owner, d);
          forall k | 0 <= k < n
            ensures Lookup(mem, d, Pdi(faults[k]), Pti(faults[k])) != Unmapped
          {
            PageAddedKeeps(m1, o1, mem, owner, d, Pdi(va), Pti(va), Pdi(faults[k]), Pti(faults[k]));
          }
        }
      }
    }

    /** The body of the inner loop of deep_copy_mem, for a page that is there to copy. */
    method CopyPage(to: int, from: int, i: int, j: int, ptTo: int, ptFrom: int) returns (ok: bool)
      requires Valid() && IsDirectory(owner, to) && IsDirectory(owner, from) && to != from && UserPage(cfg, i, j)
      requires ptTo in owner && owner[ptTo] == Table(to, i) && ptFrom in owner && owner[ptFrom] == Table(from, i)
      requires Present(Word(mem, ptFrom, j)) && Lookup(mem, to, i, j) == Unmapped
      modifies this
      ensures ok ==> Valid() && SpaceGrew(old(mem), old(owner), mem, owner, cfg, to)
      ensures ok ==> SameTranslations(old(mem), mem, old(owner), to, i, j) && Mirrors(mem, to, from, i, j)
      ensures !ok ==> Exhausted()
    {
      hide Consistent, PhysOk, LeafOf, Lookup, SpaceGrew, SameTranslations, Mirrors;
      ghost var m0, o0 := mem, owner;
      var dataFrom := FrameOf(Word(mem, ptFrom, j));
      CopySource(mem, owner, cfg, to, from, i, j, ptTo, ptFrom);
      FramesInRange(mem, firstFree, avail, start, limit, free, owner);
      var dataTo;
      ok, dataTo := AllocFrame();
      if ok {
        NewLeaf(m0, o0, cfg, to, i, ptTo, j, dataTo);
        Put(ptTo, j, Entry(dataTo), owner[dataTo := Leaf(ptTo, j)]);
        assert owner == o0[dataTo := Leaf(ptTo, j)];
        LeafCopied(m0, o0, mem, owner, cfg, to, from, i, j, dataTo, dataFrom);
        OwnedChange(mem, CopyFrame(mem, dataTo, dataFrom, 1024), firstFree, avail, start, limit, free, owner, owner);
        mem := CopyFrame(mem, dataTo, dataFrom, 1024);
      }
    }

    /** The inner loop of deep_copy_mem. */
    method CopyPages(to: int, from: int, i: int, ptTo: int, ptFrom: int) returns (ok: bool)
      requires Valid() && IsDirectory(owner, to) && IsDirectory(owner, from) && to != from && 512 <= i < 1024
      requires ptTo in owner && owner[ptTo] == Table(to, i) && ptFrom in owner && owner[ptFrom] == Table(from, i)
      requires CopiedUpTo(mem, cfg, to, from, 1024 * i)
      modifies this
      ensures ok ==> Valid() && SpaceGrew(old(mem), old(owner), mem, owner, cfg, to)
      ensures ok ==> CopiedUpTo(mem, cfg, to, from, 1024 * (i + 1))
      ensures !ok ==> Exhausted()
    {
      ghost var m0, o0 := mem, owner;
      SpaceGrewRefl(mem, owner, cfg, to);
      ok := true;
      hide Consistent, PhysOk, Lookup, SpaceGrew, SameTranslations, CopiedUpTo, Mirrors;
      for j := 0 to 1024
        invariant Valid() && SpaceGrew(m0, o0, mem, owner, cfg, to) && Grows(o0, owner)
        invariant CopiedUpTo(mem, cfg, to, from, 1024 * i + j)
      {
        ghost var m1, o1 := mem, owner;
        NextEmpty(mem, owner, cfg, to, from, i, j, ptFrom);
        if Present(Word(mem, ptFrom, j)) && !cfg.Apic(i, j) {
          ok := CopyPage(to, from, i, j, ptTo, ptFrom);
          if !ok {
            return;
          }
          CopyAdvances(m1, o1, mem, owner, cfg, to, from, i, j);
          SpaceGrewTrans(m0, o0, m1, o1, mem, owner, cfg, to);
          OwnersGrew(m0, o0, mem, owner, cfg, to);
        }
      }
    }

    /** One round of the outer loop of deep_copy_mem. */
    method CopyTable(to: int, from: int, i: int) returns (ok: bool)
      requires Valid() && IsDirectory(owner, to) && IsDirectory(owner, from) && to != from && 512 <= i < 1024
      requires CopiedUpTo(mem, cfg, to, from, 1024 * i)
      modifies this
      ensures ok ==> Valid() && SpaceGrew(old(mem), old(owner), mem, owner, cfg, to)
      ensures ok ==> CopiedUpTo(mem, cfg, to, from, 1024 * (i + 1))
      ensures !ok ==> Exhausted()
    {
      ghost var m0, o0 := mem, owner;
      SpaceGrewRefl(mem, owner, cfg, to);
      ok := true;
      var pdeFrom := Word(mem, from, i);
      if Present(pdeFrom) {
        EntryRole(mem, owner, cfg, from, i);
        var pdeTo := Word(mem, to, i);
        if Present(pdeTo) {
          EntryRole(mem, owner, cfg, to, i);
          hide Consistent, PhysOk, SpaceGrew, CopiedUpTo;
          ok := CopyPages(to, from, i, FrameOf(pdeTo), FrameOf(pdeFrom));
        } else {
          var t;
          hide Consistent, PhysOk, SpaceGrew, CopiedUpTo, SameTranslations, Lookup, Mirrors;
          ok, t := AllocFrame();
          if ok {
            NewTable(m0, o0, cfg, to, i, t);
            Put(to, i, Entry(t), owner[t := Table(to, i)]);
            assert owner == o0[t := Table(to, i)];
            CopyStays(m0, o0, mem, owner, cfg, to, from, 1024 * i);
            ghost var m1, o1 := mem, owner;
            ok := CopyPages(to, from, i, t, FrameOf(pdeFrom));
            if ok {
              SpaceGrewTrans(m0, o0, m1, o1, mem, owner, cfg, to);
            }
          }
        }
      } else {
        CopySkips(mem, cfg, to, from, i);
      }
    }

    method DeepCopyMem(to: int, from: int) returns (ok: bool)
      requires Valid() && IsDirectory(owner, to) && IsDirectory(owner, from) && to != from
      requires forall i, j :: UserPage(cfg, i, j) ==> Lookup(mem, to, i, j) == Unmapped
      requires forall f :: !LeafOf(owner, f, to)
      modifies this
      ensures ok ==> Valid() && SpaceGrew(old(mem), old(owner), mem, owner, cfg, to)
      ensures ok ==> CopyOf(old(mem), old(owner), mem, cfg, to, from)
      ensures !ok ==> Exhausted()
    {
      ghost var m0, o0 := mem, owner;
      SpaceGrewRefl(mem, owner, cfg, to);
      NothingCopied(mem, cfg, to, from);
      ok := true;
      hide Consistent, PhysOk, SpaceGrew, CopiedUpTo, Lookup, Mirrors, LeafOf, CopyOf;
      for i := 512 to 1024
        invariant Valid() && SpaceGrew(m0, o0, mem, owner, cfg, to) && Grows(o0, owner)
        invariant CopiedUpTo(mem, cfg, to, from, 1024 * i)
      {
        ghost var m1, o1 := mem, owner;
        ok := CopyTable(to, from, i);
        if !ok {
          return;
        }
        SpaceGrewTrans(m0, o0, m1, o1, mem, owner, cfg, to);
        OwnersGrew(m0, o0, mem, owner, cfg, to);
      }
      CopyDone(m0, o0, mem, owner, cfg, to, from);
    }

    /** A thread made to run a copy of the program of `from`: its address space. */
    method Fork(from: int) returns (ok: bool, to: int)
      requires Valid() && IsDirectory(owner, from)
      modifies this
      ensures ok ==> Valid() && to !in old(owner) && IsDirectory(owner, to) && ApicsMapped(to)
      ensures ok ==> OnlySpace(old(mem), old(owner), mem, owner, to)
      ensures ok ==> CopyOf(old(mem), old(owner), mem, cfg, to, from)
      ensures !ok ==> Exhausted()
    {
      ghost var m0, o0 := mem, owner;
      assert cfg.Valid();
      ok, to := MakePd();
      if ok {
        ghost var m1, o1 := mem, owner;
        FromRemains(o0, o1, to, from);
        hide Consistent, PhysOk, OnlySpace, LeafOf, CopyOf, Rest, Lookup;
        ok := DeepCopyMem(to, from);
        if ok {
          CopyOfEarlier(m0, o0, m1, o1, mem, cfg, to, from);
          ApicsKept(m1, o1, mem, owner, cfg, to);
          OnlySpaceTrans(m0, o0, m1, o1, mem, owner, to);
        }
      }
    }
  }
}
