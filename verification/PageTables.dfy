/**
 Physical memory as frames of 1024 words, the free-frame list threaded through the
 free frames, and the two-level page tables built out of frames, in the 32-bit
 format of section 4.3 of the Intel SDM, Volume 3A.

 A ghost map `owner` says what each allocated frame is used for.  A frame has one
 role, and its role names its parent, so no frame is shared by two users.
 */
module PageTables {
  import opened Basics

  type Mem = seq<seq<int>>

  function Word(mem: Mem, f: int, i: int): int {
    if 0 <= f < |mem| && 0 <= i < |mem[f]| then mem[f][i] else 0
  }

  predicate InRange(mem: Mem, f: int, i: int) {
    0 <= f < |mem| && 0 <= i < 1024
  }

  ghost predicate Shaped(mem: Mem) {
    forall f :: 0 <= f < |mem| ==> |mem[f]| == 1024
  }

  function Write(mem: Mem, f: int, i: int, v: int): (r: Mem)
    requires Shaped(mem) && InRange(mem, f, i)
    ensures Shaped(r) && |r| == |mem|
    ensures forall g, j :: Word(r, g, j) == if g == f && j == i then v else Word(mem, g, j)
  {
    mem[f := mem[f][i := v]]
  }

  /** The frame with every word zero. */
  function Clear(mem: Mem, f: int): (r: Mem)
    requires Shaped(mem) && 0 <= f < |mem|
    ensures Shaped(r) && |r| == |mem|
    ensures forall g, j :: Word(r, g, j) == if g == f then 0 else Word(mem, g, j)
  {
    mem[f := seq(1024, _ => 0)]
  }

  /** Frame `to` with the contents of frame `from`, words `n` and up excepted. */
  function CopyFrame(mem: Mem, to: int, from: int, n: int): (r: Mem)
    requires Shaped(mem) && 0 <= to < |mem| && 0 <= from < |mem| && 0 <= n <= 1024
    ensures Shaped(r) && |r| == |mem|
    ensures forall g, j :: Word(r, g, j) == if g == to && 0 <= j < n then Word(mem, from, j) else Word(mem, g, j)
  {
    mem[to := mem[from][..n] + mem[to][n..]]
  }

  // ---------- entries ----------

  predicate Present(e: int) {
    e % 2 == 1
  }

  function FrameOf(e: int): int {
    e / 4096
  }

  /** A page-aligned address with the present, writable and user bits set. */
  function Entry(f: int): (e: int)
    ensures Present(e) && FrameOf(e) == f
  {
    4096 * f + 7
  }

  /** On 32-bit words, setting and testing those bits is the arithmetic used here. */
  lemma EntryBits(pa: bv32)
    requires pa & 0xFFF == 0
    ensures pa | 7 == pa + 7
    ensures (pa | 7) & 1 == 1 && (pa | 7) & 0xFFFF_F000 == pa
  {
  }

  /** Every entry in use is present, writable and open to users, and has no other flag. */
  lemma EntriesGrantAll(mem: Mem, owner: Owners, cfg: Config, d: int, i: int, j: int)
    requires Consistent(mem, owner, cfg) && IsDirectory(owner, d) && 512 <= i < 1024 && 0 <= j < 1024
    requires Present(Word(mem, d, i))
    ensures Word(mem, d, i) % 4096 == 7
    ensures var e := Word(mem, FrameOf(Word(mem, d, i)), j); Present(e) ==> e % 4096 == 7
  {
    EntryRole(mem, owner, cfg, d, i);
    assert RoleOk(mem, owner, cfg, d) && RoleOk(mem, owner, cfg, FrameOf(Word(mem, d, i)));
  }

  /** The two indices of an address. */
  function Pdi(va: int): (i: int)
    requires 0 <= va < 0x1_0000_0000
    ensures 0 <= i < 1024 && (va >= 0x8000_0000 <==> i >= 512)
  {
    va / 0x40_0000
  }

  function Pti(va: int): (j: int)
    requires 0 <= va < 0x1_0000_0000
    ensures 0 <= j < 1024
  {
    va / 0x1000 % 0x400
  }

  /** On 32-bit words those divisions are the shifts of the code. */
  lemma IndicesAreShifts(va: bv32)
    ensures va >> 22 == va / 0x40_0000
    ensures (va >> 12) & 0x3FF == va / 0x1000 % 0x400
  {
  }

  /** Page `p`, and every address in it, has the indices `p` / 1024 and `p` % 1024. */
  lemma PageIndices(p: int, va: int)
    requires 0 <= p < 1024 * 1024 && 4096 * p <= va < 4096 * p + 4096
    ensures Pdi(va) == p / 1024 && Pti(va) == p % 1024
  {
  }

  // ---------- what frames are used for ----------

  datatype Role =
    | Shared                          // the kernel's page directory
    | KernelTable(pdi: int)           // its tables, shared by every address space
    | Directory
    | Table(pd: int, pdi: int)        // user half of one directory
    | Leaf(table: int, pti: int)      // a user page
    | Loose                           // allocated, not mapped

  type Owners = map<int, Role>

  // ---------- the free-frame list ----------

  /** `first` is the address of the first free frame, word 0 of each that of the next. */
  ghost predicate Chain(mem: Mem, first: int, free: seq<int>)
    decreases free
  {
    if free == [] then first == 0
    else first == 4096 * free[0] && Chain(mem, Word(mem, free[0], 0), free[1..])
  }

  /** Frames [start, avail) have been handed out at least once; those not in use are on the list. */
  ghost predicate PhysOk(mem: Mem, first: int, avail: int, start: int, limit: int, free: seq<int>, owner: Owners) {
    && 0 < start <= avail <= limit <= |mem| && Shaped(mem)
    && Chain(mem, first, free) && Distinct(free)
    && (forall f :: f in free ==> start <= f < avail && f !in owner)
    && (forall f :: f in owner ==> start <= f < avail)
    && (forall f :: start <= f < avail ==> f in owner || f in free)
  }

  lemma {:induction false} RangeSize(s: set<int>, lo: int, hi: int)
    requires lo <= hi && forall f :: f in s <==> lo <= f < hi
    ensures |s| == hi - lo
    decreases hi - lo
  {
    if lo < hi {
      RangeSize(s - {hi - 1}, lo, hi - 1);
    } else {
      assert forall f :: f !in s;
    }
  }

  lemma {:induction false} ListSize(s: seq<int>)
    requires Distinct(s)
    ensures |set f | f in s| == |s|
  {
    if s != [] {
      var init := s[..|s| - 1];
      ListSize(init);
      assert (set f | f in s) == (set f | f in init) + {s[|s| - 1]};
    } else {
      assert (set f | f in s) == {};
    }
  }

  /** Every frame of the range is in use, on the list, or not handed out yet, and no frame is two of these. */
  lemma FramesAreConserved(mem: Mem, first: int, avail: int, start: int, limit: int, free: seq<int>, owner: Owners)
    requires PhysOk(mem, first, avail, start, limit, free, owner)
    ensures |owner| + |free| + (limit - avail) == limit - start
  {
    var used, listed := owner.Keys, set f | f in free;
    RangeSize(used + listed, start, avail);
    ListSize(free);
    assert used !! listed;
    assert |used| == |owner|;
    hide PhysOk;
  }

  lemma {:induction false} ChainFrame(mem: Mem, mem': Mem, first: int, free: seq<int>)
    requires Chain(mem, first, free)
    requires forall f :: f in free ==> Word(mem', f, 0) == Word(mem, f, 0)
    ensures Chain(mem', first, free)
    decreases free
  {
    if free != [] {
      ChainFrame(mem, mem', Word(mem, free[0], 0), free[1..]);
    }
  }

  /** Nothing written to a frame in use disturbs the allocator. */
  lemma OwnedChange(mem: Mem, mem': Mem, first: int, avail: int, start: int, limit: int, free: seq<int>,
          owner: Owners, owner': Owners)
    requires PhysOk(mem, first, avail, start, limit, free, owner)
    requires Shaped(mem') && |mem'| == |mem| && owner'.Keys == owner.Keys
    requires forall f :: f !in owner ==> Word(mem', f, 0) == Word(mem, f, 0)
    ensures PhysOk(mem', first, avail, start, limit, free, owner')
  {
    ChainFrame(mem, mem', first, free);
    assert forall f :: f in owner' <==> f in owner.Keys;
  }

  // ---------- address spaces ----------

  /** The kernel's directory, the pages of physical memory, and the pages of the two APICs. */
  datatype Config = Config(shared: int, memPages: int, io: int, local: int) {
    /** Physical memory ends below 2 GB; the APICs are two pages above it. */
    predicate Valid() {
      && 1 < memPages <= 512 * 1024
      && 512 * 1024 <= io < 1024 * 1024 && 512 * 1024 <= local < 1024 * 1024
    }

    /** How many entries of a directory map physical memory. */
    function KernelEntries(): int {
      (memPages + 1023) / 1024
    }

    predicate Apic(pdi: int, pti: int) {
      1024 * pdi + pti == io || 1024 * pdi + pti == local
    }
  }

  /** What the word of an owned frame must say, by the frame's role. */
  ghost predicate RoleOk(mem: Mem, owner: Owners, cfg: Config, f: int)
    requires f in owner
  {
    match owner[f]
    case Shared => f == cfg.shared && SharedOk(mem, owner, cfg)
    case KernelTable(i) => KernelTableOk(mem, cfg, f, i)
    case Directory => DirectoryOk(mem, owner, cfg, f)
    case Table(d, i) => TableOk(mem, owner, cfg, f, d, i)
    case Leaf(t, j) => LeafOk(mem, owner, cfg, f, t, j)
    case Loose => true
  }

  ghost predicate SharedOk(mem: Mem, owner: Owners, cfg: Config) {
    forall i :: 0 <= i < cfg.KernelEntries() ==>
      var e := Word(mem, cfg.shared, i);
      Present(e) && FrameOf(e) in owner && owner[FrameOf(e)] == KernelTable(i)
  }

  /** Kernel tables map every page of memory but the first to itself. */
  ghost predicate KernelTableOk(mem: Mem, cfg: Config, f: int, i: int) {
    && 0 <= i < cfg.KernelEntries()
    && forall j :: 0 <= j < 1024 ==>
        Word(mem, f, j) == if 1 <= 1024 * i + j < cfg.memPages then Entry(1024 * i + j) else 0
  }

  ghost predicate DirectoryOk(mem: Mem, owner: Owners, cfg: Config, d: int) {
    && (forall i :: 0 <= i < 512 ==>
          Word(mem, d, i) == if i < cfg.KernelEntries() then Word(mem, cfg.shared, i) else 0)
    && (forall i :: 512 <= i < 1024 && Present(Word(mem, d, i)) ==>
          var t := FrameOf(Word(mem, d, i));
          Word(mem, d, i) == Entry(t) && t in owner && owner[t] == Table(d, i))
  }

  ghost predicate TableOk(mem: Mem, owner: Owners, cfg: Config, t: int, d: int, i: int) {
    && d in owner && owner[d] == Directory && 512 <= i < 1024 && Word(mem, d, i) == Entry(t)
    && forall j :: 0 <= j < 1024 && Present(Word(mem, t, j)) ==>
        if cfg.Apic(i, j) then Word(mem, t, j) == Entry(1024 * i + j)
        else
          var f := FrameOf(Word(mem, t, j));
          Word(mem, t, j) == Entry(f) && f in owner && owner[f] == Leaf(t, j)
  }

  ghost predicate LeafOk(mem: Mem, owner: Owners, cfg: Config, f: int, t: int, j: int) {
    && t in owner && owner[t].Table? && 0 <= j < 1024
    && Word(mem, t, j) == Entry(f) && !cfg.Apic(owner[t].pdi, j)
  }

  ghost predicate Consistent(mem: Mem, owner: Owners, cfg: Config) {
    && cfg.Valid() && Shaped(mem)
    && cfg.shared in owner && owner[cfg.shared] == Shared
    && forall f {:trigger RoleOk(mem, owner, cfg, f)} :: f in owner ==> RoleOk(mem, owner, cfg, f)
  }

  // ---------- translation ----------

  datatype Mapping = Unmapped | To(frame: int)

  /** The page a two-level walk from directory `d` reaches. */
  function Lookup(mem: Mem, d: int, i: int, j: int): Mapping {
    var e := Word(mem, d, i);
    if !Present(e) then Unmapped
    else
      var p := Word(mem, FrameOf(e), j);
      if Present(p) then To(FrameOf(p)) else Unmapped
  }

  predicate IsDirectory(owner: Owners, d: int) {
    d in owner && owner[d] == Directory
  }

  /** In every address space, the kernel half maps memory to itself and nothing else. */
  lemma KernelHalfIsIdentity(mem: Mem, owner: Owners, cfg: Config, d: int, page: int)
    requires Consistent(mem, owner, cfg) && IsDirectory(owner, d) && 0 <= page < 512 * 1024
    ensures Lookup(mem, d, page / 1024, page % 1024) == if 1 <= page < cfg.memPages then To(page) else Unmapped
  {
    assert RoleOk(mem, owner, cfg, d) && RoleOk(mem, owner, cfg, cfg.shared);
    var i := page / 1024;
    if i < cfg.KernelEntries() {
      assert RoleOk(mem, owner, cfg, FrameOf(Word(mem, cfg.shared, i)));
    }
  }

  /** Both APIC pages of `d` map to themselves. */
  predicate ApicsAt(mem: Mem, cfg: Config, d: int) {
    && Lookup(mem, d, cfg.io / 1024, cfg.io % 1024) == To(cfg.io)
    && Lookup(mem, d, cfg.local / 1024, cfg.local % 1024) == To(cfg.local)
  }

  /** Translations of every address space are the same in `mem` and `mem'`, except that
      of page (i, j) of directory `d`. */
  ghost predicate SameTranslations(mem: Mem, mem': Mem, owner: Owners, d: int, i: int, j: int) {
    forall c, k, l :: IsDirectory(owner, c) && 0 <= k < 1024 && 0 <= l < 1024 && !(c == d && k == i && l == j) ==>
      Lookup(mem', c, k, l) == Lookup(mem, c, k, l)
  }

  /** A present directory entry leads to a table with the matching role. */
  lemma EntryRole(mem: Mem, owner: Owners, cfg: Config, c: int, k: int)
    requires Consistent(mem, owner, cfg) && IsDirectory(owner, c) && 0 <= k < 1024 && Present(Word(mem, c, k))
    ensures
      var t := FrameOf(Word(mem, c, k));
      t in owner && owner[t] == if k < 512 then KernelTable(k) else Table(c, k)
  {
    assert RoleOk(mem, owner, cfg, c) && RoleOk(mem, owner, cfg, cfg.shared);
  }

  // ---------- the elementary changes ----------

  /** A fresh empty table goes into an empty slot of a directory; no translation changes. */
  lemma AddTable(mem: Mem, owner: Owners, cfg: Config, d: int, i: int, t: int)
    requires Consistent(mem, owner, cfg) && IsDirectory(owner, d) && 512 <= i < 1024 && !Present(Word(mem, d, i))
    requires 0 <= d < |mem| && t in owner && owner[t] == Loose
    requires forall j :: 0 <= j < 1024 ==> Word(mem, t, j) == 0
    ensures Consistent(Write(mem, d, i, Entry(t)), owner[t := Table(d, i)], cfg)
    ensures SameTranslations(mem, Write(mem, d, i, Entry(t)), owner, -1, 0, 0)
  {
    var mem', owner' := Write(mem, d, i, Entry(t)), owner[t := Table(d, i)];
    forall f {:trigger RoleOk(mem', owner', cfg, f)} | f in owner'
      ensures RoleOk(mem', owner', cfg, f)
    {
      if f in owner { assert RoleOk(mem, owner, cfg, f); }
    }
    forall c, k, l | IsDirectory(owner, c) && 0 <= k < 1024 && 0 <= l < 1024
      ensures Lookup(mem', c, k, l) == Lookup(mem, c, k, l)
    {
      if Present(Word(mem, c, k)) { EntryRole(mem, owner, cfg, c, k); }
    }
  }

  /** A page goes into an empty slot of a user table; only its translation changes. */
  lemma AddLeaf(mem: Mem, owner: Owners, cfg: Config, d: int, i: int, t: int, j: int, x: int)
    requires Consistent(mem, owner, cfg) && t in owner && owner[t] == Table(d, i) && InRange(mem, t, j)
    requires !Present(Word(mem, t, j)) && !cfg.Apic(i, j) && x in owner && owner[x] == Loose
    ensures Consistent(Write(mem, t, j, Entry(x)), owner[x := Leaf(t, j)], cfg)
    ensures Lookup(mem, d, i, j) == Unmapped && Lookup(Write(mem, t, j, Entry(x)), d, i, j) == To(x)
    ensures SameTranslations(mem, Write(mem, t, j, Entry(x)), owner, d, i, j)
  {
    var mem', owner' := Write(mem, t, j, Entry(x)), owner[x := Leaf(t, j)];
    assert RoleOk(mem, owner, cfg, t);
    forall f {:trigger RoleOk(mem', owner', cfg, f)} | f in owner'
      ensures RoleOk(mem', owner', cfg, f)
    {
      assert RoleOk(mem, owner, cfg, f);
    }
    forall c, k, l | IsDirectory(owner, c) && 0 <= k < 1024 && 0 <= l < 1024 && !(c == d && k == i && l == j)
      ensures Lookup(mem', c, k, l) == Lookup(mem, c, k, l)
    {
      if Present(Word(mem, c, k)) { EntryRole(mem, owner, cfg, c, k); }
    }
  }

  /** An APIC page goes into its slot, mapped to itself. */
  lemma AddApic(mem: Mem, owner: Owners, cfg: Config, d: int, i: int, t: int, j: int)
    requires Consistent(mem, owner, cfg) && t in owner && owner[t] == Table(d, i) && InRange(mem, t, j)
    requires cfg.Apic(i, j)
    ensures Consistent(Write(mem, t, j, Entry(1024 * i + j)), owner, cfg)
    ensures Lookup(Write(mem, t, j, Entry(1024 * i + j)), d, i, j) == To(1024 * i + j)
    ensures SameTranslations(mem, Write(mem, t, j, Entry(1024 * i + j)), owner, d, i, j)
  {
    var mem' := Write(mem, t, j, Entry(1024 * i + j));
    assert RoleOk(mem, owner, cfg, t);
    forall f {:trigger RoleOk(mem', owner, cfg, f)} | f in owner
      ensures RoleOk(mem', owner, cfg, f)
    {
      assert RoleOk(mem, owner, cfg, f);
    }
    forall c, k, l | IsDirectory(owner, c) && 0 <= k < 1024 && 0 <= l < 1024 && !(c == d && k == i && l == j)
      ensures Lookup(mem', c, k, l) == Lookup(mem, c, k, l)
    {
      if Present(Word(mem, c, k)) { EntryRole(mem, owner, cfg, c, k); }
    }
  }

  /** A page is taken out of its slot and its frame given back (which writes word 0 of it). */
  lemma RemoveLeaf(mem: Mem, owner: Owners, cfg: Config, d: int, i: int, t: int, j: int, x: int, first: int)
    requires Consistent(mem, owner, cfg) && t in owner && owner[t] == Table(d, i) && InRange(mem, t, j)
    requires x in owner && owner[x] == Leaf(t, j) && InRange(mem, x, 0)
    ensures
      var mem' := Write(Write(mem, x, 0, first), t, j, 0);
      && Consistent(mem', owner - {x}, cfg)
      && Lookup(mem, d, i, j) == To(x) && Lookup(mem', d, i, j) == Unmapped
      && SameTranslations(mem, mem', owner, d, i, j)
  {
    var mem', owner' := Write(Write(mem, x, 0, first), t, j, 0), owner - {x};
    assert RoleOk(mem, owner, cfg, t) && RoleOk(mem, owner, cfg, x);
    forall f {:trigger RoleOk(mem', owner', cfg, f)} | f in owner'
      ensures RoleOk(mem', owner', cfg, f)
    {
      assert RoleOk(mem, owner, cfg, f);
    }
    forall c, k, l | IsDirectory(owner, c) && 0 <= k < 1024 && 0 <= l < 1024 && !(c == d && k == i && l == j)
      ensures Lookup(mem', c, k, l) == Lookup(mem, c, k, l)
    {
      if Present(Word(mem, c, k)) { EntryRole(mem, owner, cfg, c, k); }
    }
  }

  /** An empty table is taken out of its directory and given back. */
  lemma RemoveTable(mem: Mem, owner: Owners, cfg: Config, d: int, i: int, t: int, first: int)
    requires Consistent(mem, owner, cfg) && t in owner && owner[t] == Table(d, i) && InRange(mem, t, 0)
    requires InRange(mem, d, i)
    requires forall j :: 0 <= j < 1024 ==> !Present(Word(mem, t, j))
    ensures
      var mem' := Write(Write(mem, t, 0, first), d, i, 0);
      && Consistent(mem', owner - {t}, cfg)
      && SameTranslations(mem, mem', owner, -1, 0, 0)
  {
    var mem', owner' := Write(Write(mem, t, 0, first), d, i, 0), owner - {t};
    assert RoleOk(mem, owner, cfg, t);
    forall f {:trigger RoleOk(mem', owner', cfg, f)} | f in owner'
      ensures RoleOk(mem', owner', cfg, f)
    {
      assert RoleOk(mem, owner, cfg, f);
    }
    forall c, k, l | IsDirectory(owner, c) && 0 <= k < 1024 && 0 <= l < 1024
      ensures Lookup(mem', c, k, l) == Lookup(mem, c, k, l)
    {
      if Present(Word(mem, c, k)) { EntryRole(mem, owner, cfg, c, k); }
    }
  }

  /** Allocating a frame, and writing pages, disturbs no directory or table. */
  lemma PagesChange(mem: Mem, mem': Mem, owner: Owners, owner': Owners, cfg: Config)
    requires Consistent(mem, owner, cfg) && Shaped(mem')
    requires forall f :: f in owner ==> f in owner' && owner'[f] == owner[f]
    requires forall f :: f in owner' && f !in owner ==> owner'[f] == Loose
    requires forall f, k :: f in owner && !owner[f].Leaf? && !owner[f].Loose? ==> Word(mem', f, k) == Word(mem, f, k)
    ensures Consistent(mem', owner', cfg)
    ensures SameTranslations(mem, mem', owner, -1, 0, 0)
  {
    forall f {:trigger RoleOk(mem', owner', cfg, f)} | f in owner'
      ensures RoleOk(mem', owner', cfg, f)
    {
      if f in owner { assert RoleOk(mem, owner, cfg, f); }
    }
    forall c, k, l | IsDirectory(owner, c) && 0 <= k < 1024 && 0 <= l < 1024
      ensures Lookup(mem', c, k, l) == Lookup(mem, c, k, l)
    {
      if Present(Word(mem, c, k)) { EntryRole(mem, owner, cfg, c, k); }
    }
  }

  /** A fresh zero frame becomes a directory holding the shared kernel entries only. */
  lemma AddDirectory(mem: Mem, owner: Owners, cfg: Config, d: int)
    requires Consistent(mem, owner, cfg) && d in owner && owner[d] == Loose && 0 <= d < |mem| && 0 <= cfg.shared < |mem|
    requires forall j :: 0 <= j < 1024 ==> Word(mem, d, j) == 0
    ensures
      var mem' := CopyFrame(mem, d, cfg.shared, cfg.KernelEntries());
      && Consistent(mem', owner[d := Directory], cfg)
      && SameTranslations(mem, mem', owner, -1, 0, 0)
      && forall i, j :: 512 <= i < 1024 && 0 <= j < 1024 ==> Lookup(mem', d, i, j) == Unmapped
  {
    var mem', owner' := CopyFrame(mem, d, cfg.shared, cfg.KernelEntries()), owner[d := Directory];
    forall f {:trigger RoleOk(mem', owner', cfg, f)} | f in owner'
      ensures RoleOk(mem', owner', cfg, f)
    {
      assert RoleOk(mem, owner, cfg, f);
    }
    forall c, k, l | IsDirectory(owner, c) && 0 <= k < 1024 && 0 <= l < 1024
      ensures Lookup(mem', c, k, l) == Lookup(mem, c, k, l)
    {
      if Present(Word(mem, c, k)) { EntryRole(mem, owner, cfg, c, k); }
    }
  }

  // ---------- what belongs to one address space ----------

  predicate TableOf(owner: Owners, f: int, d: int) {
    f in owner && owner[f].Table? && owner[f].pd == d
  }

  predicate LeafOf(owner: Owners, f: int, d: int) {
    f in owner && owner[f].Leaf? && TableOf(owner, owner[f].table, d)
  }

  predicate Belongs(owner: Owners, f: int, d: int) {
    (f == d && IsDirectory(owner, d)) || TableOf(owner, f, d) || LeafOf(owner, f, d)
  }

  /** The frames in use that are not `d`'s, with their roles. */
  function Rest(owner: Owners, d: int): Owners {
    map f | f in owner && !Belongs(owner, f, d) :: owner[f]
  }

  /** Between two states, nothing outside address space `d` changed. */
  ghost predicate OnlySpace(mem: Mem, owner: Owners, mem': Mem, owner': Owners, d: int) {
    && Rest(owner', d) == Rest(owner, d)
    && forall f, k :: f in Rest(owner, d) ==> Word(mem', f, k) == Word(mem, f, k)
  }

  lemma OnlySpaceRefl(mem: Mem, owner: Owners, d: int)
    ensures OnlySpace(mem, owner, mem, owner, d)
  {
  }

  lemma OnlySpaceTrans(mem: Mem, owner: Owners, mem1: Mem, owner1: Owners, mem2: Mem, owner2: Owners, d: int)
    requires OnlySpace(mem, owner, mem1, owner1, d) && OnlySpace(mem1, owner1, mem2, owner2, d)
    ensures OnlySpace(mem, owner, mem2, owner2, d)
  {
  }

  /** Then every other address space translates as before. */
  lemma OtherSpacesKept(mem: Mem, owner: Owners, mem': Mem, owner': Owners, cfg: Config, d: int, c: int, k: int, l: int)
    requires Consistent(mem, owner, cfg) && OnlySpace(mem, owner, mem', owner', d)
    requires IsDirectory(owner, c) && c != d && 0 <= k < 1024 && 0 <= l < 1024
    ensures IsDirectory(owner', c) && Lookup(mem', c, k, l) == Lookup(mem, c, k, l)
  {
    assert c in Rest(owner, d);
    assert c in Rest(owner', d);
    if Present(Word(mem, c, k)) {
      EntryRole(mem, owner, cfg, c, k);
      assert FrameOf(Word(mem, c, k)) in Rest(owner, d);
    }
  }

  /** A user page's frame backs that page only, in that address space only. */
  lemma LeavesUnshared(mem: Mem, owner: Owners, cfg: Config, d: int, i: int, j: int, c: int, k: int, l: int)
    requires Consistent(mem, owner, cfg) && IsDirectory(owner, d) && IsDirectory(owner, c)
    requires 512 <= i < 1024 && 0 <= j < 1024 && !cfg.Apic(i, j) && 512 <= k < 1024 && 0 <= l < 1024 && !cfg.Apic(k, l)
    requires Lookup(mem, d, i, j) != Unmapped && Lookup(mem, d, i, j) == Lookup(mem, c, k, l)
    ensures c == d && k == i && l == j
  {
    EntryRole(mem, owner, cfg, d, i);
    EntryRole(mem, owner, cfg, c, k);
    assert RoleOk(mem, owner, cfg, FrameOf(Word(mem, d, i)));
    assert RoleOk(mem, owner, cfg, FrameOf(Word(mem, c, k)));
  }

  // ---------- what map does ----------

  /** From `mem` to `mem'`, entry (i, j) below `pd` became `v`, in a new table if there was none. */
  ghost predicate MapResult(mem: Mem, owner: Owners, mem': Mem, owner': Owners, pd: int, i: int, j: int, v: int) {
    && pd in owner && Shaped(mem) && InRange(mem, pd, i) && 0 <= j < 1024
    && var e := Word(mem, pd, i);
    if Present(e) then
      && InRange(mem, FrameOf(e), j)
      && owner' == owner && mem' == Write(mem, FrameOf(e), j, v)
    else
      && var t := FrameOf(Word(mem', pd, i));
      && t !in owner && 0 <= t < |mem|
      && owner' == owner[t := if owner[pd] == Shared then KernelTable(i) else Table(pd, i)]
      && mem' == Write(Write(Clear(mem, t), pd, i, Entry(t)), t, j, v)
  }

  lemma LeavesHaveTables(mem: Mem, owner: Owners, cfg: Config)
    requires Consistent(mem, owner, cfg)
    ensures forall f :: f in owner && owner[f].Leaf? ==> owner[f].table in owner && owner[owner[f].table].Table?
  {
    forall f | f in owner && owner[f].Leaf?
      ensures owner[f].table in owner && owner[owner[f].table].Table?
    {
      assert RoleOk(mem, owner, cfg, f);
    }
  }

  /** The memory once the table exists, and the frame it is in. */
  lemma MapTable(mem: Mem, owner: Owners, mem': Mem, owner1: Owners, cfg: Config, d: int, i: int, j: int, v: int)
      returns (m: Mem, t: int)
    requires Consistent(mem, owner, cfg) && IsDirectory(owner, d) && 512 <= i < 1024
    requires MapResult(mem, owner, mem', owner1, d, i, j, v)
    ensures Consistent(m, owner1, cfg) && InRange(m, t, j) && mem' == Write(m, t, j, v)
    ensures t in owner1 && owner1[t] == Table(d, i)
    ensures SameTranslations(mem, m, owner, -1, 0, 0)
    ensures OnlySpace(mem, owner, m, owner1, d)
    ensures forall f :: f in owner ==> f in owner1 && owner1[f] == owner[f]
    ensures forall f, k :: f in owner && f != d ==> Word(m, f, k) == Word(mem, f, k)
    ensures forall f :: f in owner1 && f !in owner ==> TableOf(owner1, f, d)
  {
    LeavesHaveTables(mem, owner, cfg);
    var e := Word(mem, d, i);
    if Present(e) {
      EntryRole(mem, owner, cfg, d, i);
      m, t := mem, FrameOf(e);
    } else {
      t := FrameOf(Word(mem', d, i));
      var m0, owner0 := Clear(mem, t), owner[t := Loose];
      PagesChange(mem, m0, owner, owner0, cfg);
      AddTable(m0, owner0, cfg, d, i, t);
      m := Write(m0, d, i, Entry(t));
      assert owner0[t := Table(d, i)] == owner1;
    }
  }

  lemma LeafJoins(owner: Owners, owner1: Owners, d: int, i: int, t: int, j: int, x: int)
    requires forall f :: f in owner && owner[f].Leaf? ==> owner[f].table in owner && owner[owner[f].table].Table?
    requires forall f :: f in owner ==> f in owner1 && owner1[f] == owner[f]
    requires forall f :: f in owner1 && f !in owner ==> TableOf(owner1, f, d)
    requires IsDirectory(owner, d) && t in owner1 && owner1[t] == Table(d, i) && x in owner && owner[x] == Loose
    ensures
      var owner2 := owner1[x := Leaf(t, j)];
      && Rest(owner2, d) == Rest(owner - {x}, d)
      && forall f :: LeafOf(owner2, f, d) ==> f == x || LeafOf(owner, f, d)
  {
    var owner2 := owner1[x := Leaf(t, j)];
    forall f | f in owner && f != x
      ensures Belongs(owner2, f, d) == Belongs(owner - {x}, f, d)
      ensures LeafOf(owner2, f, d) == LeafOf(owner, f, d)
    {
      if owner[f].Leaf? {
        assert owner[f].table != x;
      }
    }
    assert LeafOf(owner2, x, d);
  }

  /** map of a fresh frame `x` at an unmapped user page. */
  lemma MapLeaf(mem: Mem, owner: Owners, mem': Mem, owner1: Owners, cfg: Config, d: int, i: int, j: int,
          x: int) returns (t: int)
    requires Consistent(mem, owner, cfg) && IsDirectory(owner, d) && 512 <= i < 1024 && 0 <= j < 1024
    requires !cfg.Apic(i, j) && Lookup(mem, d, i, j) == Unmapped && x in owner && owner[x] == Loose
    requires MapResult(mem, owner, mem', owner1, d, i, j, Entry(x))
    ensures x in owner1 && t in owner1 && owner1[t] == Table(d, i) && t != x && IsDirectory(owner1, d)
    ensures Consistent(mem', owner1[x := Leaf(t, j)], cfg)
    ensures Lookup(mem', d, i, j) == To(x)
    ensures SameTranslations(mem, mem', owner, d, i, j)
    ensures OnlySpace(mem, owner - {x}, mem', owner1[x := Leaf(t, j)], d)
    ensures forall f, k :: f in owner && (owner[f].Leaf? || owner[f].Loose?) ==> Word(mem', f, k) == Word(mem, f, k)
    ensures forall f :: LeafOf(owner1[x := Leaf(t, j)], f, d) ==> f == x || LeafOf(owner, f, d)
  {
    var m: Mem;
    m, t := MapTable(mem, owner, mem', owner1, cfg, d, i, j, Entry(x));
    LeavesHaveTables(mem, owner, cfg);
    LeafJoins(owner, owner1, d, i, t, j, x);
    assert Lookup(m, d, i, j) == Unmapped;
    assert RoleOk(m, owner1, cfg, t);
    AddLeaf(m, owner1, cfg, d, i, t, j, x);
  }

  /** map of an APIC page. */
  lemma MapApic(mem: Mem, owner: Owners, mem': Mem, owner1: Owners, cfg: Config, d: int, i: int, j: int)
    requires Consistent(mem, owner, cfg) && IsDirectory(owner, d) && 512 <= i < 1024 && 0 <= j < 1024 && cfg.Apic(i, j)
    requires MapResult(mem, owner, mem', owner1, d, i, j, Entry(1024 * i + j))
    ensures Consistent(mem', owner1, cfg)
    ensures Lookup(mem', d, i, j) == To(1024 * i + j)
    ensures SameTranslations(mem, mem', owner, d, i, j)
    ensures OnlySpace(mem, owner, mem', owner1, d)
    ensures forall f :: f in owner ==> f in owner1 && owner1[f] == owner[f]
    ensures forall f :: f in owner1 && f !in owner ==> TableOf(owner1, f, d)
    ensures forall f :: LeafOf(owner1, f, d) ==> LeafOf(owner, f, d)
  {
    LeavesHaveTables(mem, owner, cfg);
    var m, t := MapTable(mem, owner, mem', owner1, cfg, d, i, j, Entry(1024 * i + j));
    AddApic(m, owner1, cfg, d, i, t, j);
  }

  /** From one state to the next, page (i, j) of `d` went from unmapped to a zeroed frame
      that was not in use; nothing else anyone can see changed. */
  ghost predicate PageAdded(mem: Mem, owner: Owners, mem': Mem, owner': Owners, d: int, i: int, j: int) {
    && Lookup(mem, d, i, j) == Unmapped
    && IsDirectory(owner, d) && IsDirectory(owner', d)
    && OnlySpace(mem, owner, mem', owner', d)
    && SameTranslations(mem, mem', owner, d, i, j)
    && Lookup(mem', d, i, j).To?
    && var x := Lookup(mem', d, i, j).frame;
    && x !in owner && LeafOf(owner', x, d) && (forall k :: 0 <= k < 1024 ==> Word(mem', x, k) == 0)
    && (forall f, k :: LeafOf(owner, f, d) ==> Word(mem', f, k) == Word(mem, f, k))
    && (forall f :: LeafOf(owner', f, d) ==> f == x || LeafOf(owner, f, d))
  }

  lemma PageAddedKeeps(mem: Mem, owner: Owners, mem': Mem, owner': Owners, d: int, i: int, j: int, k: int, l: int)
    requires PageAdded(mem, owner, mem', owner', d, i, j)
    requires 0 <= k < 1024 && 0 <= l < 1024 && Lookup(mem, d, k, l) != Unmapped
    ensures Lookup(mem', d, k, l) == Lookup(mem, d, k, l)
  {
    hide Lookup, OnlySpace, LeafOf;
  }

  /** alloc_frame followed by map. */
  lemma AllocThenMap(mem: Mem, owner: Owners, mem': Mem, owner1: Owners, cfg: Config, d: int, i: int, j: int,
          x: int) returns (t: int)
    requires Consistent(mem, owner, cfg) && IsDirectory(owner, d) && 512 <= i < 1024 && 0 <= j < 1024
    requires !cfg.Apic(i, j) && Lookup(mem, d, i, j) == Unmapped && x !in owner && 0 <= x < |mem|
    requires MapResult(Clear(mem, x), owner[x := Loose], mem', owner1, d, i, j, Entry(x))
    ensures x in owner1
    ensures Consistent(mem', owner1[x := Leaf(t, j)], cfg)
    ensures PageAdded(mem, owner, mem', owner1[x := Leaf(t, j)], d, i, j)
  {
    var m, o := Clear(mem, x), owner[x := Loose];
    PagesChange(mem, m, owner, o, cfg);
    t := MapLeaf(m, o, mem', owner1, cfg, d, i, j, x);
    assert o - {x} == owner;
    hide Consistent, MapResult;
    forall f | LeafOf(owner1[x := Leaf(t, j)], f, d)
      ensures f == x || LeafOf(owner, f, d)
    {
      assert f == x || LeafOf(o, f, d);
    }
  }

  // ---------- dropping a directory ----------

  /** The roles once directory `d` and its tables are given back: pages they still mapped
      stay allocated, but nothing refers to them any more. */
  function Dropped(owner: Owners, d: int): Owners {
    map f | f in owner && f != d && !TableOf(owner, f, d) :: if LeafOf(owner, f, d) then Loose else owner[f]
  }

  lemma DropDirectory(mem: Mem, mem': Mem, owner: Owners, cfg: Config, d: int)
    requires Consistent(mem, owner, cfg) && IsDirectory(owner, d) && Shaped(mem')
    requires forall f, k :: f in Dropped(owner, d) ==> Word(mem', f, k) == Word(mem, f, k)
    ensures Consistent(mem', Dropped(owner, d), cfg)
  {
    var owner' := Dropped(owner, d);
    forall f {:trigger RoleOk(mem', owner', cfg, f)} | f in owner'
      ensures RoleOk(mem', owner', cfg, f)
    {
      assert RoleOk(mem, owner, cfg, f);
      assert RoleOk(mem, owner, cfg, cfg.shared);
    }
  }

  /** With no page left mapped, exactly the frames of `d` have gone. */
  lemma DroppedIsRest(owner: Owners, d: int)
    requires IsDirectory(owner, d) && forall f :: !LeafOf(owner, f, d)
    ensures Dropped(owner, d) == Rest(owner, d)
  {
  }

  /** A page of the user half that is not an APIC's. */
  predicate UserPage(cfg: Config, k: int, l: int) {
    512 <= k < 1024 && 0 <= l < 1024 && !cfg.Apic(k, l)
  }

  /** A mapped user page is a leaf of its address space. */
  lemma LookupLeaf(mem: Mem, owner: Owners, cfg: Config, d: int, k: int, l: int)
    requires Consistent(mem, owner, cfg) && IsDirectory(owner, d) && UserPage(cfg, k, l)
    requires Lookup(mem, d, k, l).To?
    ensures LeafOf(owner, Lookup(mem, d, k, l).frame, d)
  {
    EntryRole(mem, owner, cfg, d, k);
    assert RoleOk(mem, owner, cfg, FrameOf(Word(mem, d, k)));
  }

  /** A leaf of a space is a mapped user page of it. */
  lemma LeafLookup(mem: Mem, owner: Owners, cfg: Config, d: int, f: int)
    requires Consistent(mem, owner, cfg) && LeafOf(owner, f, d)
    ensures
      var k, l := owner[owner[f].table].pdi, owner[f].pti;
      UserPage(cfg, k, l) && Lookup(mem, d, k, l) == To(f)
  {
    assert RoleOk(mem, owner, cfg, f) && RoleOk(mem, owner, cfg, owner[f].table);
  }

  /** Giving back a directory recovers every frame of its space exactly when its tables map no user page. */
  lemma DropLeaksExactlyMappedPages(mem: Mem, owner: Owners, cfg: Config, d: int)
    requires Consistent(mem, owner, cfg) && IsDirectory(owner, d)
    ensures Dropped(owner, d) == Rest(owner, d) <==>
      forall k, l :: UserPage(cfg, k, l) ==> Lookup(mem, d, k, l) == Unmapped
  {
    if forall k, l :: UserPage(cfg, k, l) ==> Lookup(mem, d, k, l) == Unmapped {
      forall f
        ensures !LeafOf(owner, f, d)
      {
        if LeafOf(owner, f, d) { LeafLookup(mem, owner, cfg, d, f); }
      }
      DroppedIsRest(owner, d);
    } else {
      var k, l :| UserPage(cfg, k, l) && Lookup(mem, d, k, l) != Unmapped;
      LookupLeaf(mem, owner, cfg, d, k, l);
      assert Lookup(mem, d, k, l).frame in Dropped(owner, d);
      assert Lookup(mem, d, k, l).frame !in Rest(owner, d);
    }
  }

  /** With one page left mapped, its frame stays allocated. */
  lemma DroppedIsRestAndLeaf(owner: Owners, d: int, x: int)
    requires IsDirectory(owner, d) && LeafOf(owner, x, d) && forall f :: LeafOf(owner, f, d) ==> f == x
    ensures Dropped(owner, d) == Rest(owner, d)[x := Loose]
  {
  }

  /** The frames in use once entries 512 to `i` of directory `d` have been walked. */
  function Peeled(owner: Owners, d: int, i: int): Owners {
    map f | f in owner && !(TableOf(owner, f, d) && owner[f].pdi < i) :: owner[f]
  }

  lemma PeeledNothing(mem: Mem, owner: Owners, cfg: Config, d: int)
    requires Consistent(mem, owner, cfg)
    ensures Peeled(owner, d, 512) == owner
  {
    TablesHaveDirectories(mem, owner, cfg);
  }

  lemma PeelOne(mem: Mem, owner: Owners, cfg: Config, d: int, i: int)
    requires Consistent(mem, owner, cfg) && IsDirectory(owner, d) && 512 <= i < 1024
    ensures d in Peeled(owner, d, i)
    ensures
      if Present(Word(mem, d, i)) then
        && FrameOf(Word(mem, d, i)) in Peeled(owner, d, i)
        && Peeled(owner, d, i + 1) == Peeled(owner, d, i) - {FrameOf(Word(mem, d, i))}
      else Peeled(owner, d, i + 1) == Peeled(owner, d, i)
  {
    TablesHaveDirectories(mem, owner, cfg);
    if Present(Word(mem, d, i)) {
      EntryRole(mem, owner, cfg, d, i);
    }
  }

  lemma PeeledAll(mem: Mem, owner: Owners, cfg: Config, d: int)
    requires Consistent(mem, owner, cfg) && IsDirectory(owner, d)
    ensures (Peeled(owner, d, 1024) - {d}).Keys == Dropped(owner, d).Keys
    ensures d in Peeled(owner, d, 1024)
  {
    TablesHaveDirectories(mem, owner, cfg);
  }

  /** What OnlySpace says once the address space is gone. */
  lemma RestKept(mem: Mem, owner: Owners, mem': Mem, owner': Owners, d: int)
    requires OnlySpace(mem, owner, mem', owner', d)
    ensures Rest(owner', d) == Rest(owner, d)
    ensures forall f, k :: f in Rest(owner, d) ==> Word(mem', f, k) == Word(mem, f, k)
  {
  }

  // ---------- making and emptying an address space ----------

  lemma TablesHaveDirectories(mem: Mem, owner: Owners, cfg: Config)
    requires Consistent(mem, owner, cfg)
    ensures forall f :: f in owner && owner[f].Table? ==> IsDirectory(owner, owner[f].pd) && 512 <= owner[f].pdi < 1024
    ensures forall f :: f in owner && owner[f].Table? ==> Word(mem, owner[f].pd, owner[f].pdi) == Entry(f)
  {
    forall f | f in owner && owner[f].Table?
      ensures IsDirectory(owner, owner[f].pd) && Word(mem, owner[f].pd, owner[f].pdi) == Entry(f)
      ensures 512 <= owner[f].pdi < 1024
    {
      assert RoleOk(mem, owner, cfg, f);
    }
  }

  /** What a frame not in use could not have owned: nothing belongs to it. */
  lemma NothingBelongs(mem: Mem, owner: Owners, cfg: Config, d: int)
    requires Consistent(mem, owner, cfg) && d !in owner
    ensures forall f :: !Belongs(owner, f, d)
    ensures Rest(owner, d) == owner
  {
    TablesHaveDirectories(mem, owner, cfg);
  }

  /** make_pd up to the APIC mappings. */
  lemma NewDirectory(mem: Mem, owner: Owners, cfg: Config, d: int)
    requires Consistent(mem, owner, cfg) && d !in owner && 0 <= d < |mem| && 0 <= cfg.shared < |mem|
    ensures
      var mem', owner' := CopyFrame(Clear(mem, d), d, cfg.shared, cfg.KernelEntries()), owner[d := Directory];
      && Consistent(mem', owner', cfg)
      && OnlySpace(mem, owner, mem', owner', d)
      && (forall f :: !LeafOf(owner', f, d))
      && (forall i, j :: 512 <= i < 1024 && 0 <= j < 1024 ==> Lookup(mem', d, i, j) == Unmapped)
  {
    var m, o := Clear(mem, d), owner[d := Loose];
    NothingBelongs(mem, owner, cfg, d);
    PagesChange(mem, m, owner, o, cfg);
    AddDirectory(m, o, cfg, d);
    assert o[d := Directory] == owner[d := Directory];
    assert Rest(owner[d := Directory], d) == owner;
  }

  /** Entry `i` of directory `d` leads to no page but, possibly, APIC pages; and to no
      table at all unless an APIC page lies in its range. */
  ghost predicate Emptied(mem: Mem, cfg: Config, d: int, i: int) {
    && (Present(Word(mem, d, i)) ==> i == cfg.io / 1024 || i == cfg.local / 1024)
    && forall j :: 0 <= j < 1024 && !cfg.Apic(i, j) ==> Lookup(mem, d, i, j) == Unmapped
  }

  lemma EmptiedHasNoLeaves(mem: Mem, owner: Owners, cfg: Config, d: int)
    requires Consistent(mem, owner, cfg) && forall i :: 512 <= i < 1024 ==> Emptied(mem, cfg, d, i)
    ensures forall f :: !LeafOf(owner, f, d)
  {
    forall f
      ensures !LeafOf(owner, f, d)
    {
      if f in owner && owner[f].Leaf? {
        var t := owner[f].table;
        assert RoleOk(mem, owner, cfg, f) && RoleOk(mem, owner, cfg, t);
        assert Lookup(mem, owner[t].pd, owner[t].pdi, owner[f].pti) == To(f);
        assert Emptied(mem, cfg, d, owner[t].pdi);
      }
    }
  }

  /** Taking a leaf away changes nothing outside its address space. */
  lemma LeafLeaves(mem: Mem, owner: Owners, cfg: Config, d: int, x: int)
    requires Consistent(mem, owner, cfg) && IsDirectory(owner, d) && LeafOf(owner, x, d)
    ensures Rest(owner - {x}, d) == Rest(owner, d) && IsDirectory(owner - {x}, d)
  {
    forall f | f in owner && f != x
      ensures Belongs(owner - {x}, f, d) == Belongs(owner, f, d)
    {
      if owner[f].Leaf? { assert RoleOk(mem, owner, cfg, f); }
    }
  }

  lemma TableLeaves(mem: Mem, owner: Owners, cfg: Config, d: int, t: int)
    requires Consistent(mem, owner, cfg) && IsDirectory(owner, d) && TableOf(owner, t, d)
    requires forall j :: 0 <= j < 1024 ==> !Present(Word(mem, t, j))
    ensures Rest(owner - {t}, d) == Rest(owner, d) && IsDirectory(owner - {t}, d)
  {
    forall f | f in owner && f != t
      ensures Belongs(owner - {t}, f, d) == Belongs(owner, f, d)
    {
      if owner[f].Leaf? { assert RoleOk(mem, owner, cfg, f); }
    }
  }

  lemma WriteCommute(mem: Mem, f: int, i: int, v: int, g: int, j: int, w: int)
    requires Shaped(mem) && InRange(mem, f, i) && InRange(mem, g, j) && f != g
    ensures Write(Write(mem, f, i, v), g, j, w) == Write(Write(mem, g, j, w), f, i, v)
  {
    assert Write(Write(mem, f, i, v), g, j, w) == Write(Write(mem, g, j, w), f, i, v);
  }

  /** From one state to the next, pages of `d` may have been unmapped and given back; every
      slot of its tables is as before, or empty now and not an APIC page's. */
  ghost predicate PagesGone(mem: Mem, owner: Owners, mem': Mem, owner': Owners, cfg: Config, d: int) {
    && IsDirectory(owner, d) && IsDirectory(owner', d)
    && OnlySpace(mem, owner, mem', owner', d)
    && (forall f :: f in owner' ==> f in owner && owner'[f] == owner[f])
    && (forall k, l :: 512 <= k < 1024 && 0 <= l < 1024 ==>
          Lookup(mem', d, k, l) == Lookup(mem, d, k, l) || (Lookup(mem', d, k, l) == Unmapped && !cfg.Apic(k, l)))
    && (forall k :: 512 <= k < 1024 ==> Word(mem', d, k) == Word(mem, d, k) || Word(mem', d, k) == 0)
  }

  lemma PagesGoneRefl(mem: Mem, owner: Owners, cfg: Config, d: int)
    requires IsDirectory(owner, d)
    ensures PagesGone(mem, owner, mem, owner, cfg, d)
  {
  }

  /** A directory entry reaches an APIC page exactly if it is one of two entries. */
  lemma SlotOfApic(cfg: Config, i: int)
    requires cfg.Valid() && 512 <= i < 1024
    ensures (exists j :: 0 <= j < 1024 && cfg.Apic(i, j)) <==> i == cfg.io / 1024 || i == cfg.local / 1024
  {
    if i == cfg.io / 1024 {
      assert cfg.Apic(i, cfg.io % 1024);
    } else if i == cfg.local / 1024 {
      assert cfg.Apic(i, cfg.local % 1024);
    }
  }

  lemma PagesGoneTrans(mem: Mem, owner: Owners, mem1: Mem, owner1: Owners, mem2: Mem, owner2: Owners,
          cfg: Config, d: int)
    requires PagesGone(mem, owner, mem1, owner1, cfg, d) && PagesGone(mem1, owner1, mem2, owner2, cfg, d)
    ensures PagesGone(mem, owner, mem2, owner2, cfg, d)
  {
    OnlySpaceTrans(mem, owner, mem1, owner1, mem2, owner2, d);
    hide OnlySpace;
  }

  lemma PagesGoneSpace(mem: Mem, owner: Owners, mem': Mem, owner': Owners, cfg: Config, d: int)
    requires PagesGone(mem, owner, mem', owner', cfg, d)
    ensures OnlySpace(mem, owner, mem', owner', d)
  {
  }

  /** What has been emptied stays so. */
  lemma EmptiedStays(mem: Mem, owner: Owners, mem': Mem, owner': Owners, cfg: Config, d: int, i: int)
    requires PagesGone(mem, owner, mem', owner', cfg, d) && Emptied(mem, cfg, d, i) && 512 <= i < 1024
    ensures Emptied(mem', cfg, d, i)
  {
  }

  /** One page unmapped and given back. */
  lemma LeafGone(mem: Mem, owner: Owners, cfg: Config, d: int, i: int, t: int, j: int, x: int, first: int)
    requires Consistent(mem, owner, cfg) && IsDirectory(owner, d) && t in owner && owner[t] == Table(d, i)
    requires InRange(mem, t, j)
    requires x == FrameOf(Word(mem, t, j)) && Present(Word(mem, t, j)) && !cfg.Apic(i, j)
    ensures x in owner && x != t && LeafOf(owner, x, d) && Lookup(mem, d, i, j) == To(x)
    ensures InRange(mem, x, 0) ==>
      var mem' := Write(Write(mem, x, 0, first), t, j, 0);
      && Consistent(mem', owner - {x}, cfg)
      && PagesGone(mem, owner, mem', owner - {x}, cfg, d)
      && SameTranslations(mem, mem', owner, d, i, j)
      && Lookup(mem', d, i, j) == Unmapped
      && (forall l :: l != j ==> Word(mem', t, l) == Word(mem, t, l)) && !Present(Word(mem', t, j))
  {
    assert RoleOk(mem, owner, cfg, t);
    if InRange(mem, x, 0) {
      RemoveLeaf(mem, owner, cfg, d, i, t, j, x, first);
      LeafLeaves(mem, owner, cfg, d, x);
    }
  }

  /** One table taken out and given back. */
  lemma TableGone(mem: Mem, owner: Owners, cfg: Config, d: int, i: int, t: int, first: int)
    requires Consistent(mem, owner, cfg) && IsDirectory(owner, d) && t in owner && owner[t] == Table(d, i)
    requires InRange(mem, t, 0) && InRange(mem, d, i) && forall j :: 0 <= j < 1024 ==> !Present(Word(mem, t, j))
    ensures
      var mem' := Write(Write(mem, t, 0, first), d, i, 0);
      && Consistent(mem', owner - {t}, cfg)
      && PagesGone(mem, owner, mem', owner - {t}, cfg, d)
      && Word(mem', d, i) == 0
  {
    RemoveTable(mem, owner, cfg, d, i, t, first);
    TableLeaves(mem, owner, cfg, d, t);
  }

  // ---------- the kernel's own map ----------

  /** How many tables it takes to map pages 1 to `p` - 1. */
  function TablesFor(p: int): int {
    if p <= 1 then 0 else (p + 1023) / 1024
  }

  /** Pages 1 to `p` - 1 have been mapped in the kernel's directory; nothing else is in use. */
  ghost predicate KernelUpTo(mem: Mem, owner: Owners, cfg: Config, p: int) {
    && Shaped(mem) && cfg.shared in owner && owner[cfg.shared] == Shared
    && (forall i :: TablesFor(p) <= i < 1024 ==> Word(mem, cfg.shared, i) == 0)
    && (forall i :: 0 <= i < TablesFor(p) ==>
          FrameOf(Word(mem, cfg.shared, i)) in owner && owner[FrameOf(Word(mem, cfg.shared, i))] == KernelTable(i))
    && (forall f :: f in owner && f != cfg.shared ==>
          owner[f].KernelTable? && 0 <= owner[f].pdi < TablesFor(p) && Word(mem, cfg.shared, owner[f].pdi) == Entry(f))
    && (forall f :: f in owner && f != cfg.shared ==> TableUpTo(mem, f, owner[f].pdi, p))
  }

  ghost predicate TableUpTo(mem: Mem, f: int, i: int, p: int) {
    forall j :: 0 <= j < 1024 ==> Word(mem, f, j) == if 1 <= 1024 * i + j < p then Entry(1024 * i + j) else 0
  }

  lemma KernelEmpty(mem: Mem, cfg: Config)
    requires Shaped(mem) && forall i :: 0 <= i < 1024 ==> Word(mem, cfg.shared, i) == 0
    ensures KernelUpTo(mem, map[cfg.shared := Shared], cfg, 1)
  {
  }

  lemma KernelEntry(mem: Mem, owner: Owners, cfg: Config, p: int)
    requires cfg.Valid() && 1 <= p < cfg.memPages && KernelUpTo(mem, owner, cfg, p)
    ensures cfg.shared in owner && owner[cfg.shared] == Shared
    ensures
      var e := Word(mem, cfg.shared, p / 1024);
      (Present(e) <==> p / 1024 < TablesFor(p)) && (Present(e) ==> FrameOf(e) in owner && owner[FrameOf(e)] == KernelTable(p / 1024))
  {
  }

  lemma KernelMapsNext(mem: Mem, owner: Owners, mem': Mem, owner': Owners, cfg: Config, p: int)
    requires cfg.Valid() && 1 <= p < cfg.memPages && KernelUpTo(mem, owner, cfg, p)
    requires MapResult(mem, owner, mem', owner', cfg.shared, p / 1024, p % 1024, Entry(p))
    ensures KernelUpTo(mem', owner', cfg, p + 1)
  {
    var i, j := p / 1024, p % 1024;
    KernelEntry(mem, owner, cfg, p);
    if i < TablesFor(p) {
      assert TablesFor(p + 1) == TablesFor(p);
    } else {
      assert TablesFor(p + 1) == i + 1 && TablesFor(p) == i;
    }
    forall f | f in owner' && f != cfg.shared
      ensures owner'[f].KernelTable? && TableUpTo(mem', f, owner'[f].pdi, p + 1)
    {
      assert f in owner ==> TableUpTo(mem, f, owner[f].pdi, p);
    }
    hide TableUpTo;
  }

  lemma KernelMapped(mem: Mem, owner: Owners, cfg: Config)
    requires cfg.Valid() && KernelUpTo(mem, owner, cfg, cfg.memPages)
    ensures Consistent(mem, owner, cfg)
  {
    forall f {:trigger RoleOk(mem, owner, cfg, f)} | f in owner
      ensures RoleOk(mem, owner, cfg, f)
    {
    }
  }

  // ---------- addresses ----------

  /** get_va puts back together what map takes apart. */
  lemma GetVaInverse(pdi: bv32, pti: bv32, va: bv32)
    requires pdi < 1024 && pti < 1024
    ensures va == (pdi << 22) | (pti << 12) <==> va >> 22 == pdi && (va >> 12) & 0x3FF == pti && va & 0xFFF == 0
  {
  }
}
