/**
 What it means to copy the user half of one address space into another: the lemmas
 behind deep_copy_mem.
 */
module PageCopy {
  import opened PageTables

  ghost predicate Grows(owner: Owners, owner': Owners) {
    forall f :: f in owner ==> f in owner' && owner'[f] == owner[f]
  }

  /** From one state to the next, address space `d` gained frames: nothing outside it changed,
      its own pages kept their contents, and its APIC pages where they are. */
  ghost predicate SpaceGrew(mem: Mem, owner: Owners, mem': Mem, owner': Owners, cfg: Config, d: int) {
    && IsDirectory(owner, d) && Grows(owner, owner')
    && OnlySpace(mem, owner, mem', owner', d)
    && (forall f, k :: LeafOf(owner, f, d) ==> Word(mem', f, k) == Word(mem, f, k))
    && (forall k, l :: 512 <= k < 1024 && 0 <= l < 1024 && cfg.Apic(k, l) ==> Lookup(mem', d, k, l) == Lookup(mem, d, k, l))
  }

  lemma SpaceGrewRefl(mem: Mem, owner: Owners, cfg: Config, d: int)
    requires IsDirectory(owner, d)
    ensures SpaceGrew(mem, owner, mem, owner, cfg, d)
  {
  }

  lemma SpaceGrewTrans(mem: Mem, owner: Owners, mem1: Mem, owner1: Owners, mem2: Mem, owner2: Owners,
          cfg: Config, d: int)
    requires SpaceGrew(mem, owner, mem1, owner1, cfg, d) && SpaceGrew(mem1, owner1, mem2, owner2, cfg, d)
    ensures SpaceGrew(mem, owner, mem2, owner2, cfg, d)
  {
    OnlySpaceTrans(mem, owner, mem1, owner1, mem2, owner2, d);
    hide OnlySpace, Lookup;
  }

  lemma OwnersGrew(mem: Mem, owner: Owners, mem': Mem, owner': Owners, cfg: Config, d: int)
    requires SpaceGrew(mem, owner, mem', owner', cfg, d)
    ensures Grows(owner, owner')
  {
  }

  /** Page (k, l) is mapped in both spaces, to equal contents, or in neither. */
  ghost predicate Mirrors(mem: Mem, to: int, from: int, k: int, l: int) {
    match (Lookup(mem, to, k, l), Lookup(mem, from, k, l))
    case (Unmapped, Unmapped) => true
    case (To(x), To(y)) => forall w :: 0 <= w < 1024 ==> Word(mem, x, w) == Word(mem, y, w)
    case _ => false
  }

  /** The pages before page number `p` have been copied, those from `p` on not yet. */
  ghost predicate CopiedUpTo(mem: Mem, cfg: Config, to: int, from: int, p: int) {
    forall k, l :: UserPage(cfg, k, l) ==>
      if 1024 * k + l < p then Mirrors(mem, to, from, k, l) else Lookup(mem, to, k, l) == Unmapped
  }

  /** A page copied stays equal to its original while the copy goes on elsewhere. */
  lemma MirrorKept(mem: Mem, owner: Owners, mem': Mem, owner': Owners, cfg: Config, to: int, from: int, k: int, l: int)
    requires Consistent(mem, owner, cfg) && SpaceGrew(mem, owner, mem', owner', cfg, to)
    requires IsDirectory(owner, from) && from != to && UserPage(cfg, k, l)
    requires Lookup(mem', to, k, l) == Lookup(mem, to, k, l)
    requires Mirrors(mem, to, from, k, l)
    ensures Mirrors(mem', to, from, k, l)
  {
    OtherSpacesKept(mem, owner, mem', owner', cfg, to, from, k, l);
    if Lookup(mem, to, k, l).To? {
      LookupLeaf(mem, owner, cfg, to, k, l);
      LookupLeaf(mem, owner, cfg, from, k, l);
      assert Lookup(mem, from, k, l).frame in Rest(owner, to);
    }
  }

  /** The copy moves on by one page. */
  lemma CopyAdvances(mem: Mem, owner: Owners, mem': Mem, owner': Owners, cfg: Config, to: int, from: int,
          i: int, j: int)
    requires Consistent(mem, owner, cfg) && SpaceGrew(mem, owner, mem', owner', cfg, to)
    requires IsDirectory(owner, from) && from != to && 512 <= i < 1024 && 0 <= j < 1024
    requires SameTranslations(mem, mem', owner, to, i, j)
    requires CopiedUpTo(mem, cfg, to, from, 1024 * i + j)
    requires UserPage(cfg, i, j) ==> Mirrors(mem', to, from, i, j)
    ensures CopiedUpTo(mem', cfg, to, from, 1024 * i + j + 1)
  {
    assert IsDirectory(owner, to);
    forall k, l | UserPage(cfg, k, l)
      ensures if 1024 * k + l < 1024 * i + j + 1 then Mirrors(mem', to, from, k, l) else Lookup(mem', to, k, l) == Unmapped
    {
      if k != i || l != j {
        assert 1024 * k + l != 1024 * i + j;
        assert Lookup(mem', to, k, l) == Lookup(mem, to, k, l);
        if 1024 * k + l < 1024 * i + j {
          MirrorKept(mem, owner, mem', owner', cfg, to, from, k, l);
        }
      }
    }
  }

  /** The next page is not yet mapped in the copy; and with nothing to copy, the copy moves on. */
  lemma NextEmpty(mem: Mem, owner: Owners, cfg: Config, to: int, from: int, i: int, j: int, ptFrom: int)
    requires Consistent(mem, owner, cfg) && CopiedUpTo(mem, cfg, to, from, 1024 * i + j)
    requires 512 <= i < 1024 && 0 <= j < 1024 && ptFrom in owner && owner[ptFrom] == Table(from, i)
    ensures UserPage(cfg, i, j) ==> Lookup(mem, to, i, j) == Unmapped
    ensures !Present(Word(mem, ptFrom, j)) || cfg.Apic(i, j) ==> CopiedUpTo(mem, cfg, to, from, 1024 * i + j + 1)
  {
    TablesHaveDirectories(mem, owner, cfg);
    assert Lookup(mem, from, i, j) == if Present(Word(mem, ptFrom, j)) then To(FrameOf(Word(mem, ptFrom, j))) else Unmapped;
    if !Present(Word(mem, ptFrom, j)) || cfg.Apic(i, j) {
      hide Consistent, Lookup;
      forall k, l | UserPage(cfg, k, l)
        ensures if 1024 * k + l < 1024 * i + j + 1 then Mirrors(mem, to, from, k, l) else Lookup(mem, to, k, l) == Unmapped
      {
        assert (k == i && l == j) || 1024 * k + l != 1024 * i + j;
      }
    }
  }

  /** A table was made, no page yet. */
  lemma CopyStays(mem: Mem, owner: Owners, mem': Mem, owner': Owners, cfg: Config, to: int, from: int, p: int)
    requires Consistent(mem, owner, cfg) && SpaceGrew(mem, owner, mem', owner', cfg, to)
    requires IsDirectory(owner, from) && from != to
    requires SameTranslations(mem, mem', owner, -1, 0, 0) && CopiedUpTo(mem, cfg, to, from, p)
    ensures CopiedUpTo(mem', cfg, to, from, p)
  {
    assert IsDirectory(owner, to);
    forall k, l | UserPage(cfg, k, l)
      ensures if 1024 * k + l < p then Mirrors(mem', to, from, k, l) else Lookup(mem', to, k, l) == Unmapped
    {
      assert Lookup(mem', to, k, l) == Lookup(mem, to, k, l);
      if 1024 * k + l < p {
        MirrorKept(mem, owner, mem', owner', cfg, to, from, k, l);
      }
    }
  }

  /** A table with no counterpart has nothing to copy. */
  lemma CopySkips(mem: Mem, cfg: Config, to: int, from: int, i: int)
    requires 512 <= i < 1024 && !Present(Word(mem, from, i))
    requires CopiedUpTo(mem, cfg, to, from, 1024 * i)
    ensures CopiedUpTo(mem, cfg, to, from, 1024 * (i + 1))
  {
    forall k, l | UserPage(cfg, k, l)
      ensures if 1024 * k + l < 1024 * (i + 1) then Mirrors(mem, to, from, k, l) else Lookup(mem, to, k, l) == Unmapped
    {
      if k == i {
        assert Lookup(mem, to, k, l) == Unmapped;
      }
    }
  }

  /** make_entry in a directory: a fresh empty table. */
  lemma NewTable(mem: Mem, owner: Owners, cfg: Config, d: int, i: int, t: int)
    requires Consistent(mem, owner, cfg) && IsDirectory(owner, d) && 512 <= i < 1024 && !Present(Word(mem, d, i))
    requires 0 <= d < |mem| && t !in owner && 0 <= t < |mem|
    ensures
      var mem', owner' := Write(Clear(mem, t), d, i, Entry(t)), owner[t := Table(d, i)];
      && Consistent(mem', owner', cfg) && SpaceGrew(mem, owner, mem', owner', cfg, d)
      && SameTranslations(mem, mem', owner, -1, 0, 0)
  {
    LeavesHaveTables(mem, owner, cfg);
    var m, o := Clear(mem, t), owner[t := Loose];
    PagesChange(mem, m, owner, o, cfg);
    AddTable(m, o, cfg, d, i, t);
    assert o[t := Table(d, i)] == owner[t := Table(d, i)];
    hide Consistent;
    forall f | f in owner
      ensures Belongs(owner[t := Table(d, i)], f, d) == Belongs(owner, f, d)
    {
    }
    assert Rest(owner[t := Table(d, i)], d) == Rest(owner, d);
  }

  /** make_entry in a table: page (i, j) of `d` is a fresh frame. */
  lemma NewLeaf(mem: Mem, owner: Owners, cfg: Config, d: int, i: int, t: int, j: int, x: int)
    requires Consistent(mem, owner, cfg) && IsDirectory(owner, d) && t in owner && owner[t] == Table(d, i)
    requires UserPage(cfg, i, j) && !Present(Word(mem, t, j)) && InRange(mem, t, j) && x !in owner && 0 <= x < |mem|
    ensures
      var mem', owner' := Write(Clear(mem, x), t, j, Entry(x)), owner[x := Leaf(t, j)];
      && Consistent(mem', owner', cfg)
      && SpaceGrew(mem, owner, mem', owner', cfg, d)
      && SameTranslations(mem, mem', owner, d, i, j)
      && Lookup(mem', d, i, j) == To(x)
  {
    LeavesHaveTables(mem, owner, cfg);
    var m, o := Clear(mem, x), owner[x := Loose];
    PagesChange(mem, m, owner, o, cfg);
    LeafJoins(o, o, d, i, t, j, x);
    AddLeaf(m, o, cfg, d, i, t, j, x);
    assert o[x := Leaf(t, j)] == owner[x := Leaf(t, j)];
    hide Consistent, Lookup;
    assert o - {x} == owner;
    assert Rest(owner[x := Leaf(t, j)], d) == Rest(owner, d);
  }

  /** memcpy into a fresh page `x` of `d`. */
  lemma FillLeaf(mem: Mem, owner: Owners, cfg: Config, d: int, x: int, y: int)
    requires Consistent(mem, owner, cfg) && IsDirectory(owner, d) && LeafOf(owner, x, d) && 0 <= x < |mem|
    requires 0 <= y < |mem|
    ensures
      var mem' := CopyFrame(mem, x, y, 1024);
      && Consistent(mem', owner, cfg)
      && OnlySpace(mem, owner, mem', owner, d)
      && SameTranslations(mem, mem', owner, -1, 0, 0)
  {
    PagesChange(mem, CopyFrame(mem, x, y, 1024), owner, owner, cfg);
  }

  /** The page to be copied is a user page, and the slot for the copy is empty. */
  lemma CopySource(mem: Mem, owner: Owners, cfg: Config, to: int, from: int, i: int, j: int, ptTo: int, ptFrom: int)
    requires Consistent(mem, owner, cfg) && UserPage(cfg, i, j) && IsDirectory(owner, from)
    requires ptTo in owner && owner[ptTo] == Table(to, i) && ptFrom in owner && owner[ptFrom] == Table(from, i)
    requires Present(Word(mem, ptFrom, j)) && Lookup(mem, to, i, j) == Unmapped
    ensures Lookup(mem, from, i, j) == To(FrameOf(Word(mem, ptFrom, j)))
    ensures FrameOf(Word(mem, ptFrom, j)) in owner && !Present(Word(mem, ptTo, j))
  {
    TablesHaveDirectories(mem, owner, cfg);
    LookupLeaf(mem, owner, cfg, from, i, j);
    hide Consistent;
  }

  lemma FramesInRange(mem: Mem, first: int, avail: int, start: int, limit: int, free: seq<int>, owner: Owners)
    requires PhysOk(mem, first, avail, start, limit, free, owner)
    ensures Shaped(mem) && forall f :: f in owner ==> 0 <= f < |mem|
  {
  }

  /** alloc_frame, the entry and memcpy together: the page is mirrored. */
  lemma LeafCopied(mem: Mem, owner: Owners, mem1: Mem, owner1: Owners, cfg: Config, to: int, from: int, i: int,
          j: int, x: int, y: int)
    requires Consistent(mem, owner, cfg) && IsDirectory(owner, from) && from != to && UserPage(cfg, i, j)
    requires Lookup(mem, from, i, j) == To(y) && x !in owner
    requires Consistent(mem1, owner1, cfg) && SpaceGrew(mem, owner, mem1, owner1, cfg, to)
    requires SameTranslations(mem, mem1, owner, to, i, j)
    requires Lookup(mem1, to, i, j) == To(x) && 0 <= x < |mem1| && 0 <= y < |mem1|
    ensures
      var mem' := CopyFrame(mem1, x, y, 1024);
      && Consistent(mem', owner1, cfg)
      && SpaceGrew(mem, owner, mem', owner1, cfg, to)
      && SameTranslations(mem, mem', owner, to, i, j)
      && Mirrors(mem', to, from, i, j)
  {
    var mem' := CopyFrame(mem1, x, y, 1024);
    assert IsDirectory(owner1, to) && IsDirectory(owner, to);
    LookupLeaf(mem1, owner1, cfg, to, i, j);
    FillLeaf(mem1, owner1, cfg, to, x, y);
    OtherSpacesKept(mem, owner, mem1, owner1, cfg, to, from, i, j);
    OtherSpacesKept(mem1, owner1, mem', owner1, cfg, to, from, i, j);
    LookupLeaf(mem, owner, cfg, from, i, j);
    assert Mirrors(mem', to, from, i, j);
    OnlySpaceTrans(mem, owner, mem1, owner1, mem', owner1, to);
    hide Consistent, OnlySpace, Lookup, LeafOf;
    forall c, k, l | IsDirectory(owner, c) && 0 <= k < 1024 && 0 <= l < 1024
      ensures Lookup(mem', c, k, l) == Lookup(mem1, c, k, l)
    {
      assert IsDirectory(owner1, c);
    }
  }

  /** The user half of `to` is a copy of what that of `from` was, in frames that were not in
      use; `from` is as it was. */
  ghost predicate CopyOf(mem: Mem, owner: Owners, mem': Mem, cfg: Config, to: int, from: int) {
    forall k, l :: UserPage(cfg, k, l) ==>
      && Lookup(mem', from, k, l) == Lookup(mem, from, k, l)
      && match (Lookup(mem', to, k, l), Lookup(mem, from, k, l))
         case (Unmapped, Unmapped) => true
         case (To(x), To(y)) =>
           x !in owner && forall w :: 0 <= w < 1024 ==> Word(mem', x, w) == Word(mem, y, w) && Word(mem', y, w) == Word(mem, y, w)
         case _ => false
  }

  /** A space that had no pages has only fresh ones. */
  lemma NewLeavesFresh(mem: Mem, owner: Owners, mem': Mem, owner': Owners, cfg: Config, d: int)
    requires Consistent(mem, owner, cfg) && SpaceGrew(mem, owner, mem', owner', cfg, d)
    requires forall f :: !LeafOf(owner, f, d)
    ensures forall f :: LeafOf(owner', f, d) ==> f !in owner
  {
    LeavesHaveTables(mem, owner, cfg);
    forall f | LeafOf(owner', f, d)
      ensures f !in owner
    {
      if f in owner {
        assert owner'[owner[f].table] == owner[owner[f].table];
        assert LeafOf(owner, f, d);
      }
    }
  }

  lemma CopyDone(mem: Mem, owner: Owners, mem': Mem, owner': Owners, cfg: Config, to: int, from: int)
    requires Consistent(mem, owner, cfg) && Consistent(mem', owner', cfg)
    requires SpaceGrew(mem, owner, mem', owner', cfg, to)
    requires IsDirectory(owner, from) && from != to && forall f :: !LeafOf(owner, f, to)
    requires CopiedUpTo(mem', cfg, to, from, 1024 * 1024)
    ensures CopyOf(mem, owner, mem', cfg, to, from)
  {
    NewLeavesFresh(mem, owner, mem', owner', cfg, to);
    assert IsDirectory(owner', to);
    forall k, l | UserPage(cfg, k, l)
      ensures Lookup(mem', from, k, l) == Lookup(mem, from, k, l)
      ensures Mirrors(mem', to, from, k, l)
      ensures Lookup(mem, from, k, l).To? ==>
        Lookup(mem', to, k, l).frame !in owner && Lookup(mem, from, k, l).frame in Rest(owner, to)
    {
      OtherSpacesKept(mem, owner, mem', owner', cfg, to, from, k, l);
      assert 1024 * k + l < 1024 * 1024;
      if Lookup(mem, from, k, l).To? {
        LookupLeaf(mem, owner, cfg, from, k, l);
        LookupLeaf(mem', owner', cfg, to, k, l);
      }
    }
    hide Consistent, Lookup, LeafOf, Rest;
  }

  /** Before the copy starts, nothing is copied. */
  lemma NothingCopied(mem: Mem, cfg: Config, to: int, from: int)
    requires forall k, l :: UserPage(cfg, k, l) ==> Lookup(mem, to, k, l) == Unmapped
    ensures CopiedUpTo(mem, cfg, to, from, 1024 * 512)
  {
  }

  lemma FromRemains(owner: Owners, owner': Owners, to: int, from: int)
    requires Rest(owner', to) == owner && IsDirectory(owner, from) && to !in owner
    ensures IsDirectory(owner', from) && from != to
  {
    assert from in Rest(owner', to);
  }

  lemma ApicsKept(mem: Mem, owner: Owners, mem': Mem, owner': Owners, cfg: Config, d: int)
    requires SpaceGrew(mem, owner, mem', owner', cfg, d) && cfg.Valid()
    ensures IsDirectory(owner', d) && OnlySpace(mem, owner, mem', owner', d)
    ensures Lookup(mem', d, cfg.io / 1024, cfg.io % 1024) == Lookup(mem, d, cfg.io / 1024, cfg.io % 1024)
    ensures Lookup(mem', d, cfg.local / 1024, cfg.local % 1024) == Lookup(mem, d, cfg.local / 1024, cfg.local % 1024)
  {
    assert cfg.Apic(cfg.io / 1024, cfg.io % 1024) && cfg.Apic(cfg.local / 1024, cfg.local % 1024);
  }

  /** A copy taken after the new directory was made copies what was there before. */
  lemma CopyOfEarlier(mem0: Mem, owner0: Owners, mem: Mem, owner: Owners, mem': Mem, cfg: Config, to: int, from: int)
    requires Consistent(mem0, owner0, cfg) && IsDirectory(owner0, from) && to !in owner0
    requires OnlySpace(mem0, owner0, mem, owner, to) && Rest(owner, to) == owner0
    requires CopyOf(mem, owner, mem', cfg, to, from)
    ensures CopyOf(mem0, owner0, mem', cfg, to, from)
  {
    assert forall f :: f in owner0 ==> f in owner;
    forall k, l | UserPage(cfg, k, l)
      ensures Lookup(mem, from, k, l) == Lookup(mem0, from, k, l)
      ensures Lookup(mem0, from, k, l).To? ==> Lookup(mem0, from, k, l).frame in Rest(owner, to)
    {
      OtherSpacesKept(mem0, owner0, mem, owner, cfg, to, from, k, l);
      if Lookup(mem0, from, k, l).To? {
        LookupLeaf(mem0, owner0, cfg, from, k, l);
      }
    }
    hide Lookup, LeafOf, Consistent;
  }
}
