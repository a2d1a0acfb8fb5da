/**
 The words of the heap: how a value of `HeapBlocks` is stored, and what the three
 primitive updates (tagging a block as taken, pushing a block on the free list,
 unlinking a block from it) do to the words.
 */
module HeapMemory {
  import opened Basics
  import opened HeapBlocks

  /** The array of words and the head of the free list. */
  datatype Mem = Mem(a: seq<int>, avail: int)

  function Get(a: seq<int>, i: int): int {
    if 0 <= i < |a| then a[i] else 0
  }

  function Set(a: seq<int>, i: int, v: int): (r: seq<int>)
    ensures |r| == |a|
  {
    if 0 <= i < |a| then a[i := v] else a
  }

  // ---------- the three updates ----------

  function PutTaken(m: Mem, i: int, ints: int): (r: Mem)
    ensures |r.a| == |m.a|
  {
    m.(a := Set(Set(m.a, i, -ints), i + ints - 1, -ints))
  }

  function PutAvail(m: Mem, i: int, ints: int): (r: Mem)
    ensures |r.a| == |m.a|
  {
    var a := Set(Set(m.a, i, ints), i + ints - 1, ints);
    var a := Set(Set(a, i + 1, m.avail), i + 2, 0);
    Mem(if m.avail != 0 then Set(a, m.avail + 2, i) else a, i)
  }

  function Unlink(m: Mem, i: int): (r: Mem)
    ensures |r.a| == |m.a|
  {
    var prev := Get(m.a, i + 2);
    var next := Get(m.a, i + 1);
    var a := if prev == 0 then m.a else Set(m.a, prev + 1, next);
    Mem(if next != 0 then Set(a, next + 2, prev) else a, if prev == 0 then next else m.avail)
  }

  // ---------- the representation ----------

  /** Header and footer of every block hold its signed size. */
  ghost predicate Tagged(a: seq<int>, b: Blocks) {
    forall h :: h in b ==>
      && 0 <= h && 2 <= Abs(b[h]) && h + Abs(b[h]) <= |a|
      && a[h] == b[h] && a[h + Abs(b[h]) - 1] == b[h]
  }

  function Head(free: seq<int>): int {
    if free == [] then 0 else free[0]
  }

  /** The link words spell out `free`, entered from `prev`; 0 ends it both ways. */
  ghost predicate Chain(a: seq<int>, prev: int, free: seq<int>)
    decreases free
  {
    free == [] ||
    (&& 0 < free[0] < |a| - 2
     && a[free[0] + 2] == prev
     && a[free[0] + 1] == Head(free[1..])
     && Chain(a, free[0], free[1..]))
  }

  ghost predicate Linked(m: Mem, free: seq<int>) {
    m.avail == Head(free) && Chain(m.a, 0, free)
  }

  /** `m` stores the heap `s`. */
  ghost predicate Stores(m: Mem, s: HeapState) {
    Inv(s, |m.a|) && Tagged(m.a, s.blocks) && Linked(m, s.free)
  }

  /** Word `x` is a tag of block `h`, or belongs to the caller that holds it. */
  predicate Owned(b: Blocks, h: int, x: int)
    requires h in b
  {
    x == h || x == h + Abs(b[h]) - 1 || (b[h] < 0 && h <= x < h + Abs(b[h]))
  }

  /** From `a` to `c`, no block of `b` outside `except` changed its tags or its contents. */
  ghost predicate Keeps(a: seq<int>, c: seq<int>, b: Blocks, except: set<int>) {
    && |c| == |a|
    && forall h, x :: h in b && h !in except && Owned(b, h, x) && 0 <= x < |a| ==> c[x] == a[x]
  }

  // ---------- the updates and the free list ----------

  /** Blocks of at least four words never share link words. */
  ghost predicate Spaced(free: seq<int>) {
    forall j, k :: 0 <= j < k < |free| ==> free[j] + 4 <= free[k] || free[k] + 4 <= free[j]
  }

  /** The link words of the blocks in `free` are the same in `a` and `c`. */
  ghost predicate SameLinks(a: seq<int>, c: seq<int>, free: seq<int>) {
    && |c| == |a|
    && forall k :: 0 <= k < |free| ==> Get(c, free[k] + 1) == Get(a, free[k] + 1) && Get(c, free[k] + 2) == Get(a, free[k] + 2)
  }

  lemma {:induction false} ChainFrame(a: seq<int>, c: seq<int>, prev: int, free: seq<int>)
    requires Chain(a, prev, free) && SameLinks(a, c, free)
    ensures Chain(c, prev, free)
    decreases free
  {
    if free != [] {
      ChainFrame(a, c, free[0], free[1..]);
    }
  }

  lemma {:induction false} ChainBounds(a: seq<int>, prev: int, free: seq<int>)
    requires Chain(a, prev, free)
    ensures forall k :: 0 <= k < |free| ==> 0 < free[k] < |a| - 2
    decreases free
  {
    if free != [] {
      ChainBounds(a, free[0], free[1..]);
    }
  }

  lemma PushLinked(m: Mem, free: seq<int>, i: int, ints: int)
    requires Linked(m, free) && Spaced(free) && 0 < i && 4 <= ints && i + ints <= |m.a|
    requires forall k :: 0 <= k < |free| ==> free[k] + 4 <= i || i + ints <= free[k]
    ensures Linked(PutAvail(m, i, ints), [i] + free)
  {
    var c := PutAvail(m, i, ints).a;
    ChainBounds(m.a, 0, free);
    if free != [] {
      ChainFrame(m.a, c, free[0], free[1..]);
    }
    assert ([i] + free)[1..] == free;
  }

  lemma UnlinkLinked(m: Mem, free: seq<int>, k: nat)
    requires Linked(m, free) && Spaced(free) && k < |free|
    ensures Linked(Unlink(m, free[k]), free[..k] + free[k + 1..])
  {
    var c := Unlink(m, free[k]).a;
    ChainBounds(m.a, 0, free);
    ChainAt(m.a, 0, free, k);
    assert SameLinks(m.a, c, free[..if 0 < k then k - 1 else 0]);
    assert SameLinks(m.a, c, free[if k + 2 <= |free| then k + 2 else |free|..]);
    Splice(m.a, c, 0, free, k);
  }

  lemma {:induction false} ChainAt(a: seq<int>, prev: int, free: seq<int>, k: nat)
    requires Chain(a, prev, free) && k < |free|
    ensures 0 < free[k] < |a| - 2
    ensures a[free[k] + 1] == Head(free[k + 1..])
    ensures a[free[k] + 2] == if k == 0 then prev else free[k - 1]
    decreases free
  {
    if k > 0 {
      ChainAt(a, free[0], free[1..], k - 1);
      assert free[1..][k - 1 + 1..] == free[k + 1..];
    }
  }

  lemma SpliceHead(a: seq<int>, c: seq<int>, prev: int, free: seq<int>)
    requires Chain(a, prev, free) && free != [] && |c| == |a|
    requires SameLinks(a, c, free[if 2 <= |free| then 2 else |free|..])
    requires 1 < |free| ==> Get(c, free[1] + 1) == Get(a, free[1] + 1) && Get(c, free[1] + 2) == prev
    ensures Chain(c, prev, free[1..])
  {
    var tail := free[1..];
    if tail != [] {
      assert free[2..] == tail[1..];
      ChainFrame(a, c, tail[0], tail[1..]);
    }
  }

  lemma SpliceTail(a: seq<int>, c: seq<int>, free: seq<int>, k: nat)
    requires 0 < k < |free|
    requires SameLinks(a, c, free[..k - 1])
    requires SameLinks(a, c, free[if k + 2 <= |free| then k + 2 else |free|..])
    ensures
      var tail := free[1..];
      && SameLinks(a, c, tail[..if 0 < k - 1 then k - 2 else 0])
      && SameLinks(a, c, tail[if k + 1 <= |tail| then k + 1 else |tail|..])
    ensures 1 < k ==> Get(c, free[0] + 1) == Get(a, free[0] + 1) && Get(c, free[0] + 2) == Get(a, free[0] + 2)
  {
    var tail := free[1..];
    assert forall j :: 0 <= j < k - 2 ==> tail[j] == free[..k - 1][j + 1];
    assert k + 1 <= |tail| ==> tail[k + 1..] == free[k + 2..];
    assert 1 < k ==> free[..k - 1][0] == free[0];
  }

  lemma SpliceJoins(free: seq<int>, k: nat)
    requires 0 < k < |free|
    ensures
      var tail := free[1..];
      var rest := tail[..k - 1] + tail[k..];
      && free[..k] + free[k + 1..] == [free[0]] + rest && ([free[0]] + rest)[1..] == rest
      && tail[k..] == free[k + 1..] && Head(rest) == if k == 1 then Head(free[k + 1..]) else free[1]
  {
  }

  lemma {:induction false} Splice(a: seq<int>, c: seq<int>, prev: int, free: seq<int>, k: nat)
    requires Chain(a, prev, free) && k < |free| && |c| == |a|
    requires SameLinks(a, c, free[..if 0 < k then k - 1 else 0])
    requires SameLinks(a, c, free[if k + 2 <= |free| then k + 2 else |free|..])
    requires 0 < k ==> Get(c, free[k - 1] + 1) == Head(free[k + 1..]) && Get(c, free[k - 1] + 2) == Get(a, free[k - 1] + 2)
    requires k + 1 < |free| ==> Get(c, free[k + 1] + 1) == Get(a, free[k + 1] + 1)
    requires k + 1 < |free| ==> Get(c, free[k + 1] + 2) == if k == 0 then prev else free[k - 1]
    ensures Chain(c, prev, free[..k] + free[k + 1..])
    decreases free
  {
    if k == 0 {
      assert free[..k] + free[k + 1..] == free[1..];
      SpliceHead(a, c, prev, free);
    } else {
      SpliceTail(a, c, free, k);
      SpliceJoins(free, k);
      hide SameLinks, Head;
      Splice(a, c, free[0], free[1..], k - 1);
    }
  }

  // ---------- malloc's update ----------

  /** What malloc does to the words once block `it` is chosen. */
  function TakeMem(m: Mem, it: int, size: int, ints: int): (r: Mem)
    ensures |r.a| == |m.a|
  {
    var m1 := Unlink(m, it);
    if 4 <= size - ints then PutAvail(PutTaken(m1, it, ints), it + ints, size - ints)
    else PutTaken(m1, it, size)
  }

  /** The link words of an available block belong to nobody else. */
  lemma LinksUnowned(s: HeapState, len: int, f: int, h: int, x: int)
    requires Inv(s, len) && f in s.free && h in s.blocks && Owned(s.blocks, h, x)
    ensures x != f + 1 && x != f + 2
  {
    AvailableApart(s, len);
  }

  /** Some of the available blocks, each once. */
  ghost predicate Part(free: seq<int>, s: HeapState) {
    Distinct(free) && forall f :: f in free ==> f in s.free
  }

  lemma PartSpaced(s: HeapState, len: int, free: seq<int>)
    requires Inv(s, len) && Part(free, s)
    ensures Spaced(free)
  {
    hide Inv;
    AvailableApart(s, len);
    forall j, k | 0 <= j < k < |free|
      ensures free[j] + 4 <= free[k] || free[k] + 4 <= free[j]
    {
      assert free[j] in free && free[k] in free && free[j] != free[k];
    }
  }

  lemma UnlinkKeeps(m: Mem, s: HeapState, free: seq<int>, k: nat)
    requires Inv(s, |m.a|) && Linked(m, free) && Part(free, s) && k < |free|
    ensures Keeps(m.a, Unlink(m, free[k]).a, s.blocks, {})
  {
    ChainAt(m.a, 0, free, k);
    var c := Unlink(m, free[k]).a;
    forall h, x | h in s.blocks && Owned(s.blocks, h, x) && 0 <= x < |m.a|
      ensures c[x] == m.a[x]
    {
      if 0 < k {
        assert free[k - 1] in free;
        LinksUnowned(s, |m.a|, free[k - 1], h, x);
      }
      if k + 1 < |free| {
        assert free[k + 1] in free;
        LinksUnowned(s, |m.a|, free[k + 1], h, x);
      }
    }
  }

  /** Unlinking leaves the list without the block, and everyone's words alone. */
  lemma UnlinkedRest(m: Mem, s: HeapState, free: seq<int>, it: int)
    requires Inv(s, |m.a|) && Linked(m, free) && Part(free, s) && it in free
    ensures Linked(Unlink(m, it), Without(free, it))
    ensures Part(Without(free, it), s) && it !in Without(free, it)
    ensures Keeps(m.a, Unlink(m, it).a, s.blocks, {})
  {
    hide Keeps, Inv, Chain, Spaced;
    PartSpaced(s, |m.a|, free);
    var k :| 0 <= k < |free| && free[k] == it;
    UnlinkKeeps(m, s, free, k);
    WithoutMembers(free, it);
    WithoutAt(free, k);
    UnlinkLinked(m, free, k);
  }

  /** Only words of [lo, hi), and the back link of available block `f`, differ. */
  ghost predicate ChangedWithin(a: seq<int>, c: seq<int>, lo: int, hi: int, f: int) {
    && |c| == |a|
    && forall x :: 0 <= x < |a| ==> c[x] == a[x] || lo <= x < hi || (f != 0 && x == f + 2)
  }

  /** A change confined to [lo, hi) and to link words leaves the blocks elsewhere alone. */
  lemma ConfinedKeeps(s: HeapState, a: seq<int>, a1: seq<int>, c: seq<int>, lo: int, hi: int, f: int,
          b: Blocks, it: int)
    requires Inv(s, |a|) && (f == 0 || f in s.free)
    requires Keeps(a, a1, s.blocks, {}) && ChangedWithin(a1, c, lo, hi, f)
    requires Around(b, s.blocks, it, lo, hi)
    ensures Keeps(a, c, b, {it})
  {
    hide Inv;
    forall h, x | h in b && h != it && Owned(b, h, x) && 0 <= x < |a|
      ensures c[x] == a[x]
    {
      assert Owned(s.blocks, h, x);
      if f != 0 {
        LinksUnowned(s, |a|, f, h, x);
      }
    }
  }

  lemma TouchLinked(m: Mem, c: Mem, free: seq<int>, lo: int, hi: int)
    requires Linked(m, free) && c.avail == m.avail && ChangedWithin(m.a, c.a, lo, hi, 0)
    requires forall k :: 0 <= k < |free| ==> free[k] + 4 <= lo || hi <= free[k]
    ensures Linked(c, free)
  {
    ChainBounds(m.a, 0, free);
    ChainFrame(m.a, c.a, 0, free);
  }

  /** The situation after unlinking `it`, as the rest of malloc finds it. */
  lemma RestLinked(m: Mem, s: HeapState, it: int)
    requires Stores(m, s) && it in s.free
    ensures Linked(Unlink(m, it), Without(s.free, it)) && Spaced(Without(s.free, it))
    ensures Keeps(m.a, Unlink(m, it).a, s.blocks, {})
    ensures it in s.blocks && 2 <= it && 4 <= s.blocks[it] && it + s.blocks[it] <= |m.a|
    ensures
      var rest := Without(s.free, it);
      forall k :: 0 <= k < |rest| ==> rest[k] in s.free && (rest[k] + 4 <= it || it + s.blocks[it] <= rest[k])
    ensures var f := Unlink(m, it).avail; f == 0 || (f in s.free && (f + 4 <= it || it + s.blocks[it] <= f))
  {
    hide Keeps, Inv, Chain, Distinct, Spaced;
    AvailableApart(s, |m.a|);
    UnlinkedRest(m, s, s.free, it);
    var rest := Without(s.free, it);
    PartSpaced(s, |m.a|, rest);
    forall k | 0 <= k < |rest|
      ensures rest[k] in s.free && (rest[k] + 4 <= it || it + s.blocks[it] <= rest[k])
    {
      assert rest[k] in rest && rest[k] != it;
      assert rest[k] in s.free && it in s.blocks && 4 <= s.blocks[rest[k]];
    }
    assert Unlink(m, it).avail == Head(rest);
  }

  lemma TakenLinked(m: Mem, s: HeapState, it: int, ints: int)
    requires Stores(m, s) && it in s.free && 4 <= ints <= s.blocks[it]
    ensures Linked(PutTaken(Unlink(m, it), it, ints), Without(s.free, it))
  {
    hide Inv, Tagged, Chain, Keeps, Unlink;
    RestLinked(m, s, it);
    TouchLinked(Unlink(m, it), PutTaken(Unlink(m, it), it, ints), Without(s.free, it), it, it + s.blocks[it]);
  }

  lemma RemainderLinked(m: Mem, s: HeapState, it: int, ints: int)
    requires Stores(m, s) && it in s.free && 4 <= ints && ints + 4 <= s.blocks[it]
    ensures Linked(PutAvail(PutTaken(Unlink(m, it), it, ints), it + ints, s.blocks[it] - ints), [it + ints] + Without(s.free, it))
  {
    hide Inv, Tagged, Chain, Keeps, PutTaken, Unlink, PutAvail;
    TakenLinked(m, s, it, ints);
    RestLinked(m, s, it);
    PushLinked(PutTaken(Unlink(m, it), it, ints), Without(s.free, it), it + ints, s.blocks[it] - ints);
  }

  lemma TakeConfined(m: Mem, it: int, size: int, ints: int)
    requires 2 <= it && 4 <= ints <= size && it + size <= |m.a|
    requires var f := Unlink(m, it).avail; f == 0 || f + 4 <= it || it + size <= f
    ensures
      var c := TakeMem(m, it, size, ints).a;
      && ChangedWithin(Unlink(m, it).a, c, it, it + size, Unlink(m, it).avail)
      && if 4 <= size - ints then
           c[it] == c[it + ints - 1] == -ints && c[it + ints] == c[it + size - 1] == size - ints
         else c[it] == c[it + size - 1] == -size
  {
    hide Unlink;
  }

  lemma CarveTagged(a: seq<int>, c: seq<int>, s: HeapState, it: int, ints: int)
    requires Tagged(a, s.blocks) && it in s.blocks && 4 <= ints <= s.blocks[it] && Keeps(a, c, s.blocks, {it})
    requires
      var size := s.blocks[it];
      if 4 <= size - ints then
        c[it] == c[it + ints - 1] == -ints && c[it + ints] == c[it + size - 1] == size - ints
      else c[it] == c[it + size - 1] == -size
    ensures Tagged(c, Carve(s, it, ints).blocks)
  {
    var b, d := s.blocks, Carve(s, it, ints).blocks;
    forall h | h in d
      ensures 0 <= h && 2 <= Abs(d[h]) && h + Abs(d[h]) <= |c|
      ensures c[h] == d[h] && c[h + Abs(d[h]) - 1] == d[h]
    {
      if h != it && !(4 <= b[it] - ints && h == it + ints) {
        assert Owned(b, h, h) && Owned(b, h, h + Abs(b[h]) - 1);
      }
    }
  }

  lemma TakeStores(m: Mem, s: HeapState, it: int, ints: int)
    requires Stores(m, s) && it in s.free && 4 <= ints <= s.blocks[it]
    ensures Stores(TakeMem(m, it, s.blocks[it], ints), Carve(s, it, ints))
    ensures Keeps(m.a, TakeMem(m, it, s.blocks[it], ints).a, s.blocks, {it})
  {
    hide Inv, Tagged, Chain, Keeps, Around, ChangedWithin, PutTaken, Unlink, PutAvail;
    RestLinked(m, s, it);
    var size := s.blocks[it];
    var c := TakeMem(m, it, size, ints);
    CarveKeepsInv(s, |m.a|, it, ints);
    TakeConfined(m, it, size, ints);
    assert Keeps(m.a, c.a, s.blocks, {it}) by {
      BlocksAround(s, |m.a|, it);
      ConfinedKeeps(s, m.a, Unlink(m, it).a, c.a, it, it + size, Unlink(m, it).avail, s.blocks, it);
    }
    CarveTagged(m.a, c.a, s, it, ints);
    if 4 <= size - ints {
      RemainderLinked(m, s, it, ints);
    } else {
      TakenLinked(m, s, it, size);
    }
  }

  // ---------- free's update ----------

  /** What free does to the words when block `h` is given back. */
  function GiveMem(m: Mem, h: int): (r: Mem)
    ensures |r.a| == |m.a|
  {
    var size := Abs(Get(m.a, h));
    var l := h - Abs(Get(m.a, h - 1));
    var r := h + size;
    var m1 := if 0 < Get(m.a, l) then Unlink(m, l) else m;
    var start, size1 := if 0 < Get(m.a, l) then l else h, if 0 < Get(m.a, l) then size + Abs(Get(m1.a, l)) else size;
    var m2 := if 0 < Get(m1.a, r) then Unlink(m1, r) else m1;
    PutAvail(m2, start, if 0 < Get(m1.a, r) then size1 + Abs(Get(m2.a, r)) else size1)
  }

  /** The memory with the available neighbours of `h` unlinked. */
  ghost function Parted(m: Mem, b: Blocks, l: int, r: int): (c: Mem)
    requires l in b && r in b
    ensures |c.a| == |m.a|
  {
    var m1 := if 0 < b[l] then Unlink(m, l) else m;
    if 0 < b[r] then Unlink(m1, r) else m1
  }

  lemma KeepsTrans(a: seq<int>, a1: seq<int>, a2: seq<int>, b: Blocks)
    requires Keeps(a, a1, b, {}) && Keeps(a1, a2, b, {})
    ensures Keeps(a, a2, b, {})
  {
  }

  /** Unlinking `x` if it is available. */
  lemma PartLinked(m: Mem, m1: Mem, s: HeapState, free: seq<int>, x: int)
    requires Inv(s, |m.a|) && |m1.a| == |m.a| && Keeps(m.a, m1.a, s.blocks, {}) && Linked(m1, free) && Part(free, s)
    requires x in s.blocks && (0 < s.blocks[x] ==> x in free)
    ensures
      var m2, rest := if 0 < s.blocks[x] then Unlink(m1, x) else m1, if 0 < s.blocks[x] then Without(free, x) else free;
      && Keeps(m.a, m2.a, s.blocks, {}) && Linked(m2, rest) && Part(rest, s)
      && (0 < s.blocks[x] ==> x !in rest)
      && (forall y :: y in rest <==> y in free && !(y == x && 0 < s.blocks[x]))
  {
    hide Inv, Keeps, Chain, Unlink;
    if 0 < s.blocks[x] {
      UnlinkedRest(m1, s, free, x);
      KeepsTrans(m.a, m1.a, Unlink(m1, x).a, s.blocks);
      WithoutMembers(free, x);
    }
  }

  lemma PartedLinked(m: Mem, s: HeapState, l: int, r: int)
    requires Stores(m, s) && l in s.blocks && r in s.blocks && l != r
    ensures
      var m2, rest := Parted(m, s.blocks, l, r), Unjoined(s.blocks, s.free, l, r);
      && Linked(m2, rest) && Part(rest, s) && Keeps(m.a, m2.a, s.blocks, {})
      && (0 < s.blocks[l] ==> l !in rest) && (0 < s.blocks[r] ==> r !in rest)
  {
    assert Part(s.free, s) && (l in s.free <==> 0 < s.blocks[l]) && (r in s.free <==> 0 < s.blocks[r]);
    assert Keeps(m.a, m.a, s.blocks, {});
    hide Inv, Tagged, Linked, Keeps, Unlink, Distinct, Part;
    PartLinked(m, m, s, s.free, l);
    var m1, f1 := if 0 < s.blocks[l] then Unlink(m, l) else m, if 0 < s.blocks[l] then Without(s.free, l) else s.free;
    PartLinked(m, m1, s, f1, r);
  }

  lemma TagKept(a: seq<int>, c: seq<int>, b: Blocks, h: int)
    requires Tagged(a, b) && Keeps(a, c, b, {}) && h in b
    ensures Get(c, h) == b[h]
  {
    assert Owned(b, h, h);
  }

  lemma NeighbourTags(m: Mem, s: HeapState, l: int, h: int, r: int)
    requires Stores(m, s) && l in s.blocks && h in s.blocks && r in s.blocks
    requires End(s.blocks, l) == h && End(s.blocks, h) == r && l < h < r
    ensures
      var b := s.blocks;
      var m1 := if 0 < b[l] then Unlink(m, l) else m;
      && Get(m.a, h) == b[h] && Get(m.a, h - 1) == b[l] && Get(m.a, l) == b[l]
      && Get(m1.a, l) == b[l] && Get(m1.a, r) == b[r] && Get(Parted(m, b, l, r).a, r) == b[r]
  {
    var b := s.blocks;
    assert Part(s.free, s) && (l in s.free <==> 0 < b[l]) && (r in s.free <==> 0 < b[r]);
    assert Keeps(m.a, m.a, b, {});
    hide Inv, Linked, Keeps, Unlink, Distinct, Part;
    PartLinked(m, m, s, s.free, l);
    var m1, f1 := if 0 < b[l] then Unlink(m, l) else m, if 0 < b[l] then Without(s.free, l) else s.free;
    PartLinked(m, m1, s, f1, r);
    TagKept(m.a, m1.a, b, l);
    TagKept(m.a, m1.a, b, r);
    TagKept(m.a, Parted(m, b, l, r).a, b, r);
  }

  /** free reads its neighbours off their tags, and so pushes the merged block. */
  lemma GiveIsPut(m: Mem, s: HeapState, l: int, h: int, r: int)
    requires Stores(m, s) && l in s.blocks && h in s.blocks && r in s.blocks
    requires End(s.blocks, l) == h && End(s.blocks, h) == r && l < h < r && s.blocks[h] < 0
    ensures GiveMem(m, h) == PutAvail(Parted(m, s.blocks, l, r), Start(s.blocks, l, h), Finish(s.blocks, r) - Start(s.blocks, l, h))
  {
    hide Inv, Tagged, Linked, Unlink, PutAvail, Get;
    NeighbourTags(m, s, l, h, r);
  }

  lemma MergedTagged(a: seq<int>, c: seq<int>, b: Blocks, d: Blocks, start: int, lo: int, hi: int)
    requires Tagged(a, b) && Keeps(a, c, d, {start}) && Around(d, b, start, lo, hi)
    requires start in d && 0 <= start && 2 <= d[start] && start + d[start] <= |c|
    requires c[start] == d[start] && c[start + d[start] - 1] == d[start]
    ensures Tagged(c, d)
  {
    forall h | h in d
      ensures 0 <= h && 2 <= Abs(d[h]) && h + Abs(d[h]) <= |c|
      ensures c[h] == d[h] && c[h + Abs(d[h]) - 1] == d[h]
    {
      if h != start {
        assert Owned(d, h, h) && Owned(d, h, h + Abs(d[h]) - 1);
      }
    }
  }

  lemma PutAvailConfined(m: Mem, start: int, end: int)
    requires 2 <= start && start + 4 <= end <= |m.a|
    requires m.avail == 0 || m.avail + 4 <= start || end <= m.avail
    ensures
      var c := PutAvail(m, start, end - start).a;
      && ChangedWithin(m.a, c, start, end, m.avail)
      && c[start] == end - start && c[end - 1] == end - start
  {
  }

  lemma GiveAt(m: Mem, s: HeapState, l: int, h: int, r: int)
    requires Stores(m, s) && Live(s.blocks, |m.a|, h) && l in s.blocks && End(s.blocks, l) == h && End(s.blocks, h) == r
    ensures r in s.blocks
    ensures
      var start, d := Start(s.blocks, l, h), Merged(s.blocks, l, h);
      && Linked(GiveMem(m, h), [start] + Unjoined(s.blocks, s.free, l, r))
      && Keeps(m.a, GiveMem(m, h).a, d, {start})
      && Tagged(GiveMem(m, h).a, d)
  {
    hide Inv, Tagged, Chain, Keeps, Around, ChangedWithin, PutAvail, GiveMem, Parted, Part, Spaced, Merged, Unjoined, Start, Finish;
    var b, len := s.blocks, |m.a|;
    MergedExtent(s, len, l, h);
    var start, end, d := Start(b, l, h), Finish(b, r), Merged(b, l, h);
    PartedLinked(m, s, l, r);
    GiveIsPut(m, s, l, h, r);
    var m2, rest := Parted(m, b, l, r), Unjoined(b, s.free, l, r);
    var c := PutAvail(m2, start, end - start);
    RestApart(s, len, rest, l, h, r);
    PutAvailConfined(m2, start, end);
    ConfinedKeeps(s, m.a, m2.a, c.a, start, end, m2.avail, d, start);
    MergedTagged(m.a, c.a, b, d, start, start, end);
    PushLinked(m2, rest, start, end - start);
  }

  lemma GiveStores(m: Mem, s: HeapState, h: int)
    requires Stores(m, s) && Live(s.blocks, |m.a|, h)
    ensures Stores(GiveMem(m, h), Release(s, |m.a|, h))
    ensures
      var start := Start(s.blocks, LeftOf(s.blocks, |m.a|, h), h);
      Keeps(m.a, GiveMem(m, h).a, Release(s, |m.a|, h).blocks, {start})
  {
    hide Tagged, Chain, Keeps, Merged, Unjoined, Start;
    var l := LeftOf(s.blocks, |m.a|, h);
    ReleaseKeepsInv(s, |m.a|, h);
    hide Inv;
    GiveAt(m, s, l, h, End(s.blocks, h));
  }

  lemma RestApart(s: HeapState, len: int, rest: seq<int>, l: int, h: int, r: int)
    requires Inv(s, len) && Part(rest, s) && l in s.blocks && h in s.blocks && r in s.blocks
    requires End(s.blocks, l) == h && End(s.blocks, h) == r && s.blocks[h] < 0
    requires (0 < s.blocks[l] ==> l !in rest) && (0 < s.blocks[r] ==> r !in rest)
    ensures Spaced(rest)
    ensures forall k :: 0 <= k < |rest| ==>
              rest[k] in s.free && (rest[k] + 4 <= Start(s.blocks, l, h) || Finish(s.blocks, r) <= rest[k])
  {
    PartSpaced(s, len, rest);
    AvailableApart(s, len);
    forall k | 0 <= k < |rest|
      ensures rest[k] in s.free && (rest[k] + 4 <= Start(s.blocks, l, h) || Finish(s.blocks, r) <= rest[k])
    {
      assert rest[k] in rest;
    }
  }

  // ---------- a few facts the code reads off the memory ----------

  lemma AvailableTags(m: Mem, s: HeapState)
    requires Stores(m, s) && |m.a| < 0x4000_0000
    ensures forall k :: 0 <= k < |s.free| ==>
              0 < s.free[k] < |m.a| && m.a[s.free[k]] == SizeOf(s.blocks, s.free[k]) && 0 < m.a[s.free[k]] < 0x7FFF_FFFF
  {
    AvailableApart(s, |m.a|);
    forall k | 0 <= k < |s.free|
      ensures 0 < s.free[k] < |m.a| && m.a[s.free[k]] == SizeOf(s.blocks, s.free[k]) && 0 < m.a[s.free[k]] < 0x7FFF_FFFF
    {
      assert s.free[k] in s.free;
    }
  }

  lemma AvailBounds(m: Mem, s: HeapState)
    requires Inv(s, |m.a|)
    ensures forall f :: f in s.free ==> 0 < f < |m.a| - 2
  {
    AvailableApart(s, |m.a|);
  }

  /** heapInit's three blocks. */
  lemma FreshStores(m: Mem)
    requires 8 <= |m.a| && m.avail == 0
    ensures Stores(PutTaken(PutAvail(PutTaken(m, 0, 2), 2, |m.a| - 4), |m.a| - 2, 2), Fresh(|m.a|))
  {
    FreshInv(|m.a|);
    hide Inv;
  }

  /** What free relies on when it reads the neighbours of block `h` and unlinks them. */
  ghost predicate Readable(m: Mem, b: Blocks, free: seq<int>, l: int, h: int, r: int) {
    && l in b && h in b && r in b && 0 <= l < h < r < |m.a| && l == h - Abs(b[l]) && r == h + Abs(b[h])
    && m.a[h] == b[h] && m.a[h - 1] == b[l] && m.a[l] == b[l]
    && Linked(m, free) && (0 < b[l] ==> l in free)
    && var m1, f1 := if 0 < b[l] then Unlink(m, l) else m, if 0 < b[l] then Without(free, l) else free;
    && m1.a[l] == b[l] && m1.a[r] == b[r]
    && Linked(m1, f1) && (0 < b[r] ==> r in f1)
    && var m2 := Parted(m, b, l, r);
    && m2.a[r] == b[r] && (m2.avail == 0 || 0 < m2.avail < |m.a| - 2)
    && 0 < Start(b, l, h) && Start(b, l, h) + 4 <= Finish(b, r) <= |m.a|
  }

  lemma LiveReadable(m: Mem, s: HeapState, l: int, h: int, r: int)
    requires Stores(m, s) && Live(s.blocks, |m.a|, h)
    requires l in s.blocks && End(s.blocks, l) == h && r == End(s.blocks, h)
    ensures Readable(m, s.blocks, s.free, l, h, r)
  {
    var b := s.blocks;
    assert (l in s.free <==> 0 < b[l]) && (0 < b[r] ==> r in s.free) && Part(s.free, s) && 0 <= l by {
      MergedExtent(s, |m.a|, l, h);
    }
    assert Keeps(m.a, m.a, b, {});
    hide Inv, Tagged, Chain, Keeps, Unlink, Distinct, Merged, Around;
    MergedExtent(s, |m.a|, l, h);
    NeighbourTags(m, s, l, h, r);
    PartLinked(m, m, s, s.free, l);
    PartedLinked(m, s, l, r);
    AvailBounds(m, s);
    hide Linked, Part, Unjoined, End;
  }

  // ---------- the checks ----------

  /** What `sanity` tests of an index it is given, in a heap whose checks are on. */
  predicate Sane(a: seq<int>, i: int) {
    && 0 <= i < |a|
    && 0 <= i + Abs(a[i]) - 1 < |a|
    && a[i] == a[i + Abs(a[i]) - 1]
  }

  predicate SaneOr0(a: seq<int>, i: int) {
    i == 0 || Sane(a, i)
  }

  /** The checks never fail: the head of the free list, the links of an available block, and the
      block freed with its two neighbours all pass, or are the 0 that ends the list. */
  lemma ChecksPass(m: Mem, s: HeapState)
    requires Stores(m, s)
    ensures SaneOr0(m.a, m.avail)
    ensures forall f :: f in s.free ==> SaneOr0(m.a, Get(m.a, f + 1)) && SaneOr0(m.a, Get(m.a, f + 2))
    ensures forall h :: Live(s.blocks, |m.a|, h) ==>
      && Sane(m.a, h) && Sane(m.a, h + Abs(m.a[h])) && 0 <= h - 1 < |m.a| && Sane(m.a, h - 1 - Abs(m.a[h - 1]) + 1)
  {
    assert forall i :: i in s.blocks ==> Sane(m.a, i);
    assert forall f :: f in s.free ==> f in s.blocks;
    if s.free != [] { assert s.free[0] in s.free; }
    forall f | f in s.free
      ensures SaneOr0(m.a, Get(m.a, f + 1)) && SaneOr0(m.a, Get(m.a, f + 2))
    {
      LinksInList(m, s.free, f);
    }
    forall h | Live(s.blocks, |m.a|, h)
      ensures Sane(m.a, h) && Sane(m.a, h + Abs(m.a[h])) && 0 <= h - 1 < |m.a| && Sane(m.a, h - 1 - Abs(m.a[h - 1]) + 1)
    {
      NeighboursSane(m, s, h);
    }
  }

  lemma LinksInList(m: Mem, free: seq<int>, f: int)
    requires Linked(m, free) && f in free
    ensures Get(m.a, f + 1) == 0 || Get(m.a, f + 1) in free
    ensures Get(m.a, f + 2) == 0 || Get(m.a, f + 2) in free
  {
    var k :| 0 <= k < |free| && free[k] == f;
    ChainAt(m.a, 0, free, k);
    ChainBounds(m.a, 0, free);
    hide Chain;
  }

  lemma NeighboursSane(m: Mem, s: HeapState, h: int)
    requires Stores(m, s) && Live(s.blocks, |m.a|, h)
    ensures Sane(m.a, h) && Sane(m.a, h + Abs(m.a[h])) && 0 <= h - 1 < |m.a| && Sane(m.a, h - 1 - Abs(m.a[h - 1]) + 1)
  {
    var b := s.blocks;
    var l := LeftOf(b, |m.a|, h);
    assert End(b, h) in b && l in b && End(b, l) == h;
    assert m.a[h - 1] == b[l];
  }

  // ---------- what the holders of live blocks see ----------

  /** The payloads of the blocks live in `b`, other than `except`, read the same in `c` as in `a`. */
  ghost predicate PayloadsKept(a: seq<int>, c: seq<int>, b: Blocks, except: int) {
    && |c| == |a|
    && forall g, x :: Live(b, |a|, g) && g != except && InPayload(b, g, x) && 0 <= x < |a| ==> c[x] == a[x]
  }

  lemma KeepsPayloads(a: seq<int>, c: seq<int>, b: Blocks, it: int)
    requires Keeps(a, c, b, {it})
    ensures PayloadsKept(a, c, b, it)
  {
    forall g, x | Live(b, |a|, g) && g != it && InPayload(b, g, x) && 0 <= x < |a|
      ensures c[x] == a[x]
    {
      assert Owned(b, g, x);
    }
  }

  lemma GiveKeepsPayloads(s: HeapState, a: seq<int>, c: seq<int>, h: int)
    requires Inv(s, |a|) && Live(s.blocks, |a|, h)
    requires var t := Release(s, |a|, h); Keeps(a, c, t.blocks, {Head(t.free)})
    ensures PayloadsKept(a, c, s.blocks, h)
  {
    ReleaseLive(s, |a|, h);
    ReleaseKeepsInv(s, |a|, h);
    var t := Release(s, |a|, h);
    assert Head(t.free) in t.free;
    forall g, x | Live(s.blocks, |a|, g) && g != h && InPayload(s.blocks, g, x) && 0 <= x < |a|
      ensures c[x] == a[x]
    {
      assert Owned(t.blocks, g, x);
    }
  }

  /** All that free needs to know of the heap it starts from. */
  lemma GiveReady(m: Mem, s: HeapState, h: int) returns (l: int, r: int)
    requires Stores(m, s) && Live(s.blocks, |m.a|, h)
    ensures Inv(s, |m.a|) && Stores(GiveMem(m, h), Release(s, |m.a|, h))
    ensures PayloadsKept(m.a, GiveMem(m, h).a, s.blocks, h) && Readable(m, s.blocks, s.free, l, h, r)
  {
    l, r := LeftOf(s.blocks, |m.a|, h), End(s.blocks, h);
    GiveStores(m, s, h);
    GiveKeepsPayloads(s, m.a, GiveMem(m, h).a, h);
    LiveReadable(m, s, l, h, r);
    hide Tagged, Chain, Keeps, PayloadsKept, Readable, Release, GiveMem;
  }

  /** All that malloc needs to know of the heap it takes a block of. */
  lemma TakeReady(m: Mem, s: HeapState, it: int, ints: int)
    requires Stores(m, s) && it in s.free && 4 <= ints <= s.blocks[it]
    ensures Inv(s, |m.a|) && Linked(m, s.free) && 0 < it && it + s.blocks[it] <= |m.a|
    ensures var f := Unlink(m, it).avail; f == 0 || 0 < f < |m.a| - 2
    ensures Stores(TakeMem(m, it, s.blocks[it], ints), Carve(s, it, ints))
    ensures PayloadsKept(m.a, TakeMem(m, it, s.blocks[it], ints).a, s.blocks, it)
  {
    hide Tagged, Chain, Keeps, PayloadsKept, Carve, TakeMem, Unlink, Inv;
    RestLinked(m, s, it);
    AvailBounds(m, s);
    TakeStores(m, s, it, ints);
    KeepsPayloads(m.a, TakeMem(m, it, s.blocks[it], ints).a, s.blocks, it);
  }

  /** Only words of the payload of `h` differ. */
  ghost predicate PayloadWritten(a: seq<int>, c: seq<int>, b: Blocks, h: int) {
    |c| == |a| && forall x :: 0 <= x < |c| && !InPayload(b, h, x) ==> c[x] == a[x]
  }

  lemma PayloadWriteLinked(m: Mem, s: HeapState, c: seq<int>, h: int)
    requires Stores(m, s) && Live(s.blocks, |m.a|, h) && PayloadWritten(m.a, c, s.blocks, h)
    ensures Linked(Mem(c, m.avail), s.free)
  {
    var b := s.blocks;
    AvailableApart(s, |m.a|);
    BlocksAround(s, |m.a|, h);
    forall k | 0 <= k < |s.free|
      ensures s.free[k] + 4 <= h || End(b, h) <= s.free[k]
    {
      assert s.free[k] in s.free;
    }
    hide Inv, Chain, Tagged;
    TouchLinked(m, Mem(c, m.avail), s.free, h, End(b, h));
  }

  /** Whatever the holder of live block `h` writes into its payload, the heap is intact. */
  lemma PayloadWriteStores(m: Mem, s: HeapState, c: seq<int>, h: int)
    requires Stores(m, s) && Live(s.blocks, |m.a|, h) && PayloadWritten(m.a, c, s.blocks, h)
    ensures Stores(Mem(c, m.avail), s)
    ensures Keeps(m.a, c, s.blocks, {h})
  {
    var b := s.blocks;
    PayloadWriteLinked(m, s, c, h);
    BlocksAround(s, |m.a|, h);
    hide Inv, Chain, Linked;
    forall g, x | g in b && g != h && Owned(b, g, x) && 0 <= x < |c|
      ensures c[x] == m.a[x]
    {
    }
  }
}
