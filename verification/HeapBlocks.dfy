/**
 The value a boundary-tag heap represents: which blocks tile the array, and in
 which order the available ones are linked.  A block is named by the index of
 its header; its size is positive when the block is available and negative when
 it is taken, exactly as in the header and footer words.

 The operations here are the specifications of the methods of class `Heap`.
 */
module HeapBlocks {
  import opened Basics

  type Blocks = map<int, int>

  datatype HeapState = HeapState(blocks: Blocks, free: seq<int>)

  function End(b: Blocks, h: int): int
    requires h in b
  {
    h + Abs(b[h])
  }

  // ---------- the invariant of every reachable heap ----------

  /** The blocks partition [0, len); a two-word taken sentinel stands at each end. */
  ghost predicate Tiles(b: Blocks, len: int) {
    && 4 <= len
    && 0 in b && b[0] == -2
    && len - 2 in b && b[len - 2] == -2
    && (forall h :: h in b ==> 0 <= h)
    && (forall h {:trigger b[h]} :: h in b && h != 0 && h != len - 2 ==> 4 <= Abs(b[h]))
    && (forall h {:trigger End(b, h)} :: h in b ==> End(b, h) <= len)
    && (forall h {:trigger End(b, h)} :: h in b ==> End(b, h) in b || End(b, h) == len)
    && (forall g, h {:trigger End(b, g), h in b} :: g in b && h in b && g < h ==> End(b, g) <= h)
  }

  /** Two available blocks are never neighbours. */
  ghost predicate Coalesced(b: Blocks) {
    forall h {:trigger End(b, h)} :: h in b && 0 < b[h] && End(b, h) in b ==> b[End(b, h)] < 0
  }

  /** The free list holds exactly the available blocks, each once. */
  ghost predicate ListsAvailable(s: HeapState) {
    && Distinct(s.free)
    && (forall h :: h in s.free <==> h in s.blocks && 0 < s.blocks[h])
  }

  ghost predicate Inv(s: HeapState, len: int) {
    Tiles(s.blocks, len) && Coalesced(s.blocks) && ListsAvailable(s)
  }

  /** A block a caller holds: taken, and not one of the sentinels. */
  predicate Live(b: Blocks, len: int, h: int) {
    h in b && b[h] < 0 && h != 0 && h != len - 2
  }

  // ---------- removing from the free list ----------

  function Without(s: seq<int>, x: int): (r: seq<int>) {
    if s == [] then []
    else if s[0] == x then s[1..]
    else [s[0]] + Without(s[1..], x)
  }

  lemma {:induction false} WithoutAt(s: seq<int>, k: nat)
    requires Distinct(s) && k < |s|
    ensures Without(s, s[k]) == s[..k] + s[k + 1..]
  {
    if k > 0 {
      WithoutAt(s[1..], k - 1);
      assert s[1..][..k - 1] == s[1..k];
      assert s[1..][k - 1 + 1..] == s[k + 1..];
      assert [s[0]] + s[1..k] == s[..k];
    }
  }

  lemma {:induction false} WithoutMembers(s: seq<int>, x: int)
    requires Distinct(s)
    ensures Distinct(Without(s, x))
    ensures forall y :: y in Without(s, x) <==> y in s && y != x
  {
    if x in s {
      var k :| 0 <= k < |s| && s[k] == x;
      WithoutAt(s, k);
      assert s == s[..k] + [x] + s[k + 1..];
    } else {
      WithoutAbsent(s, x);
    }
  }

  lemma {:induction false} WithoutAbsent(s: seq<int>, x: int)
    requires x !in s
    ensures Without(s, x) == s
  {
    if s != [] {
      WithoutAbsent(s[1..], x);
    }
  }

  // ---------- what an allocator may rely on ----------

  /** Available blocks are large enough to hold links, and clear of every other block. */
  lemma AvailableApart(s: HeapState, len: int)
    requires Inv(s, len)
    ensures Distinct(s.free)
    ensures forall f :: f in s.free ==> f in s.blocks && 2 <= f && 4 <= s.blocks[f] && f + s.blocks[f] <= len - 2
    ensures forall f, h :: f in s.free && h in s.blocks ==> h == f || h + Abs(s.blocks[h]) <= f || f + s.blocks[f] <= h
    ensures forall m, n :: 0 <= m < n < |s.free| ==> s.free[m] + 4 <= s.free[n] || s.free[n] + 4 <= s.free[m]
  {
    var b := s.blocks;
    assert End(b, 0) == 2 && End(b, len - 2) == len;
    forall f | f in s.free
      ensures f in b && 2 <= f && 4 <= b[f] && f + b[f] <= len - 2
    {
      assert End(b, f) <= len;
    }
    forall f, h | f in s.free && h in b
      ensures h == f || h + Abs(b[h]) <= f || f + b[f] <= h
    {
      assert End(b, f) <= h || h <= f;
      assert End(b, h) <= f || f <= h;
    }
    forall m, n | 0 <= m < n < |s.free|
      ensures s.free[m] + 4 <= s.free[n] || s.free[n] + 4 <= s.free[m]
    {
      assert s.free[m] in s.free && s.free[n] in s.free;
    }
  }

  // ---------- choosing a block ----------

  function SizeOf(b: Blocks, h: int): int {
    if h in b then b[h] else 0
  }

  /** The blocks of `free` with at least `ints` words, in free-list order. */
  function Fits(b: Blocks, free: seq<int>, ints: int): seq<int> {
    if free == [] then []
    else
      var last := free[|free| - 1];
      Fits(b, free[..|free| - 1], ints) + (if ints <= SizeOf(b, last) then [last] else [])
  }

  lemma {:induction false} FitsMembers(b: Blocks, free: seq<int>, ints: int)
    ensures forall h :: h in Fits(b, free, ints) ==> h in free && ints <= SizeOf(b, h)
    ensures forall h :: h in free && ints <= SizeOf(b, h) ==> h in Fits(b, free, ints)
  {
    if free != [] {
      FitsMembers(b, free[..|free| - 1], ints);
      assert free == free[..|free| - 1] + [free[|free| - 1]];
    }
  }

  lemma FitsNext(b: Blocks, free: seq<int>, i: nat, ints: int)
    requires i < |free|
    ensures Fits(b, free[..i + 1], ints) == Fits(b, free[..i], ints) + (if ints <= SizeOf(b, free[i]) then [free[i]] else [])
  {
    assert free[..i + 1][..i] == free[..i];
  }

  lemma {:induction false} FitsGrow(b: Blocks, free: seq<int>, i: nat, ints: int)
    requires i <= |free|
    ensures Fits(b, free[..i], ints) <= Fits(b, free, ints)
    decreases |free| - i
  {
    if i == |free| {
      assert free[..i] == free;
    } else {
      FitsNext(b, free, i, ints);
      FitsGrow(b, free, i + 1, ints);
    }
  }

  /** The blocks the kernel's malloc looks at: the first twenty that fit. */
  const SCAN_LIMIT: nat := 20

  function Candidates(b: Blocks, free: seq<int>, ints: int): seq<int> {
    var f := Fits(b, free, ints);
    if |f| <= SCAN_LIMIT then f else f[..SCAN_LIMIT]
  }

  /** There is a candidate exactly when some available block is large enough. */
  lemma CandidatesMembers(b: Blocks, free: seq<int>, ints: int)
    ensures forall h :: h in Candidates(b, free, ints) ==> h in free && ints <= SizeOf(b, h)
    ensures Candidates(b, free, ints) == [] <==> forall h :: h in free ==> SizeOf(b, h) < ints
  {
    FitsMembers(b, free, ints);
    var f := Fits(b, free, ints);
    if f == [] {
      forall h | h in free
        ensures SizeOf(b, h) < ints
      {
        assert h !in f;
      }
    } else {
      assert f[0] in Fits(b, free, ints);
      assert Candidates(b, free, ints)[0] == f[0];
    }
  }

  function Smallest(b: Blocks, c: seq<int>): (h: int)
    requires c != []
    ensures h in c
  {
    var last := c[|c| - 1];
    if |c| == 1 then last
    else
      var best := Smallest(b, c[..|c| - 1]);
      if SizeOf(b, last) < SizeOf(b, best) then last else best
  }

  lemma SmallestAppend(b: Blocks, c: seq<int>, x: int)
    ensures Smallest(b, c + [x]) == if c == [] || SizeOf(b, x) < SizeOf(b, Smallest(b, c)) then x else Smallest(b, c)
  {
    assert (c + [x])[..|c|] == c;
  }

  /** `Smallest` is a minimum, and the earliest one. */
  lemma {:induction false} SmallestIsEarliestMinimum(b: Blocks, c: seq<int>) returns (k: nat)
    requires c != []
    ensures k < |c| && c[k] == Smallest(b, c)
    ensures forall j :: 0 <= j < |c| ==> SizeOf(b, c[k]) <= SizeOf(b, c[j])
    ensures forall j :: 0 <= j < k ==> SizeOf(b, c[k]) < SizeOf(b, c[j])
  {
    if |c| == 1 {
      k := 0;
    } else {
      var init := c[..|c| - 1];
      k := SmallestIsEarliestMinimum(b, init);
      assert forall j :: 0 <= j < |init| ==> c[j] == init[j];
      if SizeOf(b, c[|c| - 1]) < SizeOf(b, c[k]) {
        k := |c| - 1;
      }
    }
  }

  /** The block the kernel's malloc takes, 0 if none: best fit among the candidates. */
  function KernelChoice(s: HeapState, ints: int): (h: int) {
    var c := Candidates(s.blocks, s.free, ints);
    if c == [] then 0 else Smallest(s.blocks, c)
  }

  /** The block the user library takes, 0 if none: the first that fits. */
  function FirstFitChoice(s: HeapState, ints: int): (h: int) {
    var f := Fits(s.blocks, s.free, ints);
    if f == [] then 0 else f[0]
  }

  /** The kernel's malloc fails exactly when no available block is large enough, and
      otherwise takes a smallest one of the first twenty that are, the earliest on ties. */
  lemma KernelChoiceIsBest(s: HeapState, len: int, ints: int) returns (k: nat)
    requires Inv(s, len)
    ensures
      var it, fits := KernelChoice(s, ints), Fits(s.blocks, s.free, ints);
      if it == 0 then forall h :: h in s.free ==> s.blocks[h] < ints
      else
        && it in s.free && ints <= s.blocks[it]
        && k < |fits| && k < 20 && fits[k] == it
        && (forall j :: 0 <= j < |fits| && j < 20 ==> s.blocks[it] <= SizeOf(s.blocks, fits[j]))
        && (forall j :: 0 <= j < k ==> s.blocks[it] < SizeOf(s.blocks, fits[j]))
  {
    CandidatesMembers(s.blocks, s.free, ints);
    var c := Candidates(s.blocks, s.free, ints);
    assert 0 !in s.free;
    k := 0;
    if c != [] {
      k := SmallestIsEarliestMinimum(s.blocks, c);
      hide Inv;
      var fits := Fits(s.blocks, s.free, ints);
      assert forall j :: 0 <= j < |c| ==> c[j] == fits[j];
    }
  }

  lemma FirstFitChoiceFits(s: HeapState, len: int, ints: int)
    requires Inv(s, len)
    ensures
      var it := FirstFitChoice(s, ints);
      if it == 0 then forall h :: h in s.free ==> s.blocks[h] < ints
      else it in s.free && ints <= s.blocks[it]
  {
    FitsMembers(s.blocks, s.free, ints);
    var f := Fits(s.blocks, s.free, ints);
    assert 0 !in s.free;
    if f != [] {
      assert f[0] in f;
    } else {
      forall h | h in s.free
        ensures s.blocks[h] < ints
      {
        assert h !in f;
      }
    }
  }

  /** First fit: every block ahead of the one taken is too small. */
  lemma {:induction false} FirstFitChoiceIsFirst(s: HeapState, len: int, ints: int) returns (k: nat)
    requires Inv(s, len)
    ensures
      var it := FirstFitChoice(s, ints);
      if it == 0 then forall h :: h in s.free ==> s.blocks[h] < ints
      else
        && k < |s.free| && it == s.free[k] && ints <= s.blocks[it]
        && forall j :: 0 <= j < k ==> SizeOf(s.blocks, s.free[j]) < ints
  {
    FirstFitChoiceFits(s, len, ints);
    k := 0;
    if FirstFitChoice(s, ints) != 0 {
      k := FirstFitting(s.blocks, s.free, ints);
    }
  }

  lemma {:induction false} FirstFitting(b: Blocks, free: seq<int>, ints: int) returns (k: nat)
    requires Fits(b, free, ints) != []
    ensures k < |free| && Fits(b, free, ints)[0] == free[k] && ints <= SizeOf(b, free[k])
    ensures forall j :: 0 <= j < k ==> SizeOf(b, free[j]) < ints
  {
    var init := free[..|free| - 1];
    if Fits(b, init, ints) != [] {
      k := FirstFitting(b, init, ints);
    } else {
      k := |free| - 1;
      FitsMembers(b, init, ints);
      forall j | 0 <= j < k
        ensures SizeOf(b, free[j]) < ints
      {
        assert free[j] == init[j] && init[j] in init;
      }
    }
  }

  // ---------- the two state changes ----------

  /** Take `ints` words from the front of available block `h`, keeping the rest
      as a new available block when it is large enough to be one. */
  function Carve(s: HeapState, h: int, ints: int): HeapState {
    var size := SizeOf(s.blocks, h);
    var rest := Without(s.free, h);
    if 4 <= size - ints then
      HeapState(s.blocks[h := -ints][h + ints := size - ints], [h + ints] + rest)
    else
      HeapState(s.blocks[h := -size], rest)
  }

  /** Cutting a block in two keeps the tiling, whatever the new blocks' status. */
  lemma SplitTiles(b: Blocks, len: int, h: int, x: int, y: int)
    requires Tiles(b, len) && h in b && h != 0 && h != len - 2
    requires 4 <= Abs(x) && 4 <= Abs(y) && Abs(x) + Abs(y) == Abs(b[h])
    ensures h + Abs(x) !in b
    ensures Tiles(b[h := x][h + Abs(x) := y], len)
  {
    var m := h + Abs(x);
    var c := b[h := x][m := y];
    assert End(b, h) == m + Abs(y);
    assert m !in b;
    forall g {:trigger End(c, g)} | g in b && g != h
      ensures End(c, g) == End(b, g)
      ensures End(b, g) <= h || End(b, h) <= g
    {
    }
  }

  lemma RetagTiles(b: Blocks, len: int, h: int, x: int)
    requires Tiles(b, len) && h in b && h != 0 && h != len - 2
    requires Abs(x) == Abs(b[h])
    ensures Tiles(b[h := x], len)
  {
    var c := b[h := x];
    forall g {:trigger End(c, g)} | g in b
      ensures End(c, g) == End(b, g)
    {
    }
  }

  /** Joining a block to its right neighbour keeps the tiling. */
  lemma MergeTiles(b: Blocks, len: int, g: int, x: int)
    requires Tiles(b, len) && g in b && g != 0 && g != len - 2
    requires End(b, g) in b && End(b, g) != len - 2
    requires Abs(x) == Abs(b[g]) + Abs(b[End(b, g)])
    ensures Tiles((b - {End(b, g)})[g := x], len)
  {
    var r := End(b, g);
    var c := (b - {r})[g := x];
    assert End(c, g) == End(b, r);
    forall h {:trigger End(c, h)} | h in c && h != g
      ensures End(c, h) == End(b, h)
      ensures End(b, h) != r
    {
      assert h < g ==> End(b, h) <= g;
      assert h > g ==> End(b, g) <= h;
    }
  }

  lemma CarveCoalesced(b: Blocks, len: int, h: int, ints: int)
    requires Tiles(b, len) && Coalesced(b) && h in b
    requires 4 <= ints <= b[h]
    ensures 4 <= b[h] - ints ==> Coalesced(b[h := -ints][h + ints := b[h] - ints])
    ensures Coalesced(b[h := -b[h]])
  {
    var c := if 4 <= b[h] - ints then b[h := -ints][h + ints := b[h] - ints] else b[h := -b[h]];
    if 4 <= b[h] - ints {
      SplitTiles(b, len, h, -ints, b[h] - ints);
      assert End(c, h + ints) == End(b, h);
    }
    var d := b[h := -b[h]];
    forall g {:trigger End(d, g)} | g in b
      ensures End(d, g) == End(b, g)
    {
    }
    forall g {:trigger End(c, g)} | g in b && g != h
      ensures End(c, g) == End(b, g)
      ensures c != d ==> End(c, g) != h + ints
    {
      assert End(b, g) in b || End(b, g) == len;
      assert g < h || End(b, h) <= g;
    }
  }

  lemma CarveLists(s: HeapState, len: int, h: int, ints: int)
    requires Inv(s, len) && h in s.free && 4 <= ints <= s.blocks[h]
    ensures ListsAvailable(Carve(s, h, ints))
  {
    WithoutMembers(s.free, h);
    assert 4 <= s.blocks[h] - ints ==> h + ints !in s.blocks by {
      if 4 <= s.blocks[h] - ints {
        SplitTiles(s.blocks, len, h, -ints, s.blocks[h] - ints);
      }
    }
    hide Tiles, Coalesced;
  }

  lemma CarveKeepsInv(s: HeapState, len: int, h: int, ints: int)
    requires Inv(s, len) && h in s.free && 4 <= ints <= s.blocks[h]
    ensures Inv(Carve(s, h, ints), len)
  {
    CarveLists(s, len, h, ints);
    assert h in s.blocks && h != 0 && h != len - 2;
    var size := s.blocks[h];
    hide Tiles, Coalesced, ListsAvailable;
    CarveCoalesced(s.blocks, len, h, ints);
    if 4 <= size - ints {
      SplitTiles(s.blocks, len, h, -ints, size - ints);
    } else {
      RetagTiles(s.blocks, len, h, -size);
    }
  }

  /** Walking right from a block to the left of `h` arrives at `h`. */
  lemma {:induction false} LeftNeighbourExists(b: Blocks, len: int, from: int, h: int)
    requires Tiles(b, len) && from in b && h in b && from < h
    ensures exists g :: g in b && End(b, g) == h
    decreases h - from
  {
    if End(b, from) != h {
      assert h < End(b, h);
      LeftNeighbourExists(b, len, End(b, from), h);
    }
  }

  ghost function LeftOf(b: Blocks, len: int, h: int): (g: int)
    requires Tiles(b, len) && h in b && h != 0
    ensures g in b && End(b, g) == h
  {
    LeftNeighbourExists(b, len, 0, h);
    var g :| g in b && End(b, g) == h;
    g
  }

  /** Where the block containing `h` starts and ends once its available neighbours join it. */
  ghost function Start(b: Blocks, l: int, h: int): int
    requires l in b
  {
    if 0 < b[l] then l else h
  }

  ghost function Finish(b: Blocks, r: int): int
    requires r in b
  {
    if 0 < b[r] then End(b, r) else r
  }

  /** The blocks once `h` is available and merged with its available neighbours `l` and `r`. */
  ghost function Merged(b: Blocks, l: int, h: int): (c: Blocks)
    requires h in b && l in b && End(b, h) in b
  {
    var r := End(b, h);
    var gone := (if 0 < b[l] then {h} else {}) + (if 0 < b[r] then {r} else {});
    (b - gone)[Start(b, l, h) := Finish(b, r) - Start(b, l, h)]
  }

  /** `free` without the neighbours that join. */
  function Unjoined(b: Blocks, free: seq<int>, l: int, r: int): seq<int>
    requires l in b && r in b
  {
    var f1 := if 0 < b[l] then Without(free, l) else free;
    if 0 < b[r] then Without(f1, r) else f1
  }

  /** Make block `h` available again, merged with whichever neighbours are available. */
  ghost function Release(s: HeapState, len: int, h: int): HeapState
    requires Inv(s, len) && Live(s.blocks, len, h)
  {
    var l := LeftOf(s.blocks, len, h);
    var r := End(s.blocks, h);
    HeapState(Merged(s.blocks, l, h), [Start(s.blocks, l, h)] + Unjoined(s.blocks, s.free, l, r))
  }

  /** The blocks once `h` is available and merged with the block to its right, if that is available. */
  ghost function JoinedRight(b: Blocks, h: int): Blocks
    requires h in b && End(b, h) in b
  {
    var r := End(b, h);
    if 0 < b[r] then (b - {r})[h := Abs(b[h]) + Abs(b[r])] else b[h := Abs(b[h])]
  }

  lemma JoinedRightTiles(b: Blocks, len: int, h: int)
    requires Tiles(b, len) && Live(b, len, h)
    ensures End(b, h) in b && Tiles(JoinedRight(b, h), len)
  {
    var r := End(b, h);
    assert r in b && r != h && (0 < b[r] ==> r != len - 2);
    hide Tiles;
    if 0 < b[r] {
      MergeTiles(b, len, h, Abs(b[h]) + Abs(b[r]));
    } else {
      RetagTiles(b, len, h, Abs(b[h]));
    }
  }

  lemma MergedIs(b: Blocks, l: int, h: int)
    requires l in b && h in b && l != h && End(b, l) == h && End(b, h) in b && End(b, h) != h && End(b, h) != l
    ensures
      var c := JoinedRight(b, h);
      Merged(b, l, h) == if 0 < b[l] then (c - {h})[l := Abs(b[l]) + c[h]] else c
  {
  }

  lemma MergedTiles(b: Blocks, len: int, l: int, h: int)
    requires Tiles(b, len) && Live(b, len, h) && l in b && End(b, l) == h
    ensures End(b, h) in b && Tiles(Merged(b, l, h), len)
  {
    var r := End(b, h);
    assert r in b && l != h && r != h && l != r && (0 < b[l] ==> l != 0 && l != len - 2);
    hide Tiles, Merged;
    JoinedRightTiles(b, len, h);
    MergedIs(b, l, h);
    var c := JoinedRight(b, h);
    if 0 < b[l] {
      MergeTiles(c, len, l, Abs(b[l]) + c[h]);
    }
  }

  lemma MergedCoalesced(b: Blocks, len: int, l: int, h: int)
    requires Tiles(b, len) && Coalesced(b) && Live(b, len, h) && l in b && End(b, l) == h
    ensures End(b, h) in b && Coalesced(Merged(b, l, h))
  {
    var r := End(b, h);
    var c := Merged(b, l, h);
    var start := if 0 < b[l] then l else h;
    assert End(c, start) == if 0 < b[r] then End(b, r) else r;
    forall g {:trigger End(c, g)} | g in c && g != start
      ensures End(c, g) == End(b, g)
      ensures End(b, g) == start ==> b[g] < 0
    {
      assert g < l || g == l || h <= g;
    }
  }

  /** The blocks of `c` other than `it` are blocks of `b`, outside [lo, hi). */
  ghost predicate Around(c: Blocks, b: Blocks, it: int, lo: int, hi: int) {
    forall g :: g in c && g != it ==> g in b && c[g] == b[g] && 2 <= Abs(b[g]) && (g + Abs(b[g]) <= lo || hi <= g)
  }

  lemma BlocksAround(s: HeapState, len: int, it: int)
    requires Inv(s, len) && it in s.blocks
    ensures Around(s.blocks, s.blocks, it, it, it + Abs(s.blocks[it]))
  {
    var b := s.blocks;
    forall h | h in b && h != it
      ensures h + Abs(b[h]) <= it || it + Abs(b[it]) <= h
    {
      assert End(b, h) <= it || End(b, it) <= h;
    }
  }

  /** The extent of the merged block, and how the other blocks lie around it. */
  lemma MergedExtent(s: HeapState, len: int, l: int, h: int)
    requires Inv(s, len) && Live(s.blocks, len, h) && l in s.blocks && End(s.blocks, l) == h
    ensures End(s.blocks, h) in s.blocks
    ensures
      var b := s.blocks;
      var c, start, end := Merged(b, l, h), Start(b, l, h), Finish(b, End(b, h));
      && l < h < End(b, h) && 2 <= start && start + 4 <= end <= len - 2
      && start in c && c[start] == end - start
      && Around(c, b, start, start, end)
  {
    var b := s.blocks;
    var c := Merged(b, l, h);
    MergedTiles(b, len, l, h);
    assert End(c, Start(b, l, h)) == Finish(b, End(b, h));
    assert End(c, 0) == 2 && End(c, len - 2) == len;
    forall g | g in c && g != Start(b, l, h)
      ensures g + Abs(b[g]) <= Start(b, l, h) || Finish(b, End(b, h)) <= g
    {
      assert End(c, g) <= Start(b, l, h) || Start(b, l, h) < g;
    }
  }

  lemma ReleaseLists(s: HeapState, len: int, h: int)
    requires Inv(s, len) && Live(s.blocks, len, h)
    ensures ListsAvailable(Release(s, len, h))
  {
    var b := s.blocks;
    var l := LeftOf(b, len, h);
    var r := End(b, h);
    assert r in b && l != r && l != h && r != h;
    hide Tiles, Coalesced, End;
    WithoutMembers(s.free, l);
    WithoutMembers(if 0 < b[l] then Without(s.free, l) else s.free, r);
    hide Without;
  }

  lemma ReleaseKeepsInv(s: HeapState, len: int, h: int)
    requires Inv(s, len) && Live(s.blocks, len, h)
    ensures Inv(Release(s, len, h), len)
  {
    var l := LeftOf(s.blocks, len, h);
    ReleaseLists(s, len, h);
    hide Tiles, Coalesced, ListsAvailable;
    MergedTiles(s.blocks, len, l, h);
    MergedCoalesced(s.blocks, len, l, h);
  }

  // ---------- what the invariant means ----------

  /** Every word of the array lies in exactly one block. */
  lemma {:induction false} EveryCellInOneBlock(b: Blocks, len: int, x: int) returns (h: int)
    requires Tiles(b, len) && 0 <= x < len
    ensures h in b && h <= x < End(b, h)
    ensures forall g :: g in b && g <= x < End(b, g) ==> g == h
  {
    h := 0;
    while End(b, h) <= x
      invariant h in b && h <= x
      decreases x - h
    {
      assert h < End(b, h);
      h := End(b, h);
    }
    forall g | g in b && g <= x < End(b, g)
      ensures g == h
    {
    }
  }

  function Fresh(len: int): HeapState {
    HeapState(map[0 := -2, 2 := len - 4, len - 2 := -2], [2])
  }

  lemma FreshInv(len: int)
    requires 8 <= len
    ensures Inv(Fresh(len), len)
  {
    var b := Fresh(len).blocks;
    assert End(b, 0) == 2 && End(b, 2) == len - 2 && End(b, len - 2) == len;
  }

  /** Once nothing is live, all the space is one available block again. */
  lemma NothingLiveIsFresh(s: HeapState, len: int)
    requires Inv(s, len) && 8 <= len
    requires forall h :: !Live(s.blocks, len, h)
    ensures s == Fresh(len)
  {
    var b := s.blocks;
    assert End(b, 0) == 2 && End(b, len - 2) == len;
    assert !Live(b, len, 2);
    var e := End(b, 2);
    assert e in b && !Live(b, len, e);
    forall g | g in b
      ensures g == 0 || g == 2 || g == len - 2
    {
      assert End(b, g) <= len;
    }
    assert b == Fresh(len).blocks;
    var k :| 0 <= k < |s.free| && s.free[k] == 2;
    assert s.free[0] in s.free && s.free[|s.free| - 1] in s.free;
    assert s.free[0] == s.free[k] && s.free[|s.free| - 1] == s.free[k];
  }

  /** The neighbours of a block just carved, in the blocks there were before. */
  lemma CarvedNeighbours(s: HeapState, len: int, h: int, ints: int, l: int)
    requires Inv(s, len) && h in s.free && 4 <= ints <= s.blocks[h] && h != 0
    requires Tiles(Carve(s, h, ints).blocks, len) && h in Carve(s, h, ints).blocks && l in Carve(s, h, ints).blocks
    requires End(Carve(s, h, ints).blocks, l) == h
    ensures
      var b, c := s.blocks, Carve(s, h, ints).blocks;
      && l in b && l != h && c[l] == b[l] && b[l] < 0
      && if 4 <= b[h] - ints then h + ints !in b && h + ints in c && End(c, h) == h + ints
         else End(c, h) == End(b, h) && End(b, h) in b && b[End(b, h)] < 0
  {
    var b := s.blocks;
    assert End(b, h) in b && l != h && l != h + ints;
    if 4 <= b[h] - ints {
      SplitTiles(b, len, h, -ints, b[h] - ints);
    }
    assert End(b, l) == h;
  }

  lemma MergedBack(b: Blocks, h: int, ints: int, l: int)
    requires h in b && l in b && l != h && b[l] < 0 && 4 <= ints <= b[h]
    ensures 4 <= b[h] - ints && h + ints !in b && l != h + ints ==>
      Merged(b[h := -ints][h + ints := b[h] - ints], l, h) == b
    ensures b[h] - ints < 4 && h + b[h] in b && h + b[h] != h && b[h + b[h]] < 0 ==> Merged(b[h := -b[h]], l, h) == b
  {
  }

  /** Freeing a block just carved restores the blocks exactly; only its place in
      the free list can have changed. */
  lemma FreeUndoesMalloc(s: HeapState, len: int, h: int, ints: int)
    requires Inv(s, len) && h in s.free && 4 <= ints <= s.blocks[h]
    ensures Inv(Carve(s, h, ints), len) && Live(Carve(s, h, ints).blocks, len, h)
    ensures Release(Carve(s, h, ints), len, h) == HeapState(s.blocks, [h] + Without(s.free, h))
  {
    hide Inv, Merged, Live, Without;
    var l := CarvedBack(s, len, h, ints);
    var t := Carve(s, h, ints);
    if 4 <= s.blocks[h] - ints {
      WithoutHead(h + ints, Without(s.free, h));
    }
  }

  lemma WithoutHead(x: int, s: seq<int>)
    ensures Without([x] + s, x) == s
  {
    assert ([x] + s)[1..] == s;
  }

  lemma CarvedBack(s: HeapState, len: int, h: int, ints: int) returns (l: int)
    requires Inv(s, len) && h in s.free && 4 <= ints <= s.blocks[h]
    ensures h in s.blocks
    ensures
      var c := Carve(s, h, ints).blocks;
      && Inv(Carve(s, h, ints), len) && Live(c, len, h) && Tiles(c, len) && h != 0 && l == LeftOf(c, len, h)
      && c[l] < 0 && End(c, h) in c && (0 < c[End(c, h)] <==> 4 <= s.blocks[h] - ints)
      && (4 <= s.blocks[h] - ints ==> End(c, h) == h + ints)
      && Merged(c, l, h) == s.blocks
  {
    CarveKeepsInv(s, len, h, ints);
    assert h in s.blocks && h != 0 && h != len - 2;
    l := LeftOf(Carve(s, h, ints).blocks, len, h);
    CarvedNeighbours(s, len, h, ints, l);
    MergedBack(s.blocks, h, ints, l);
    hide Tiles, Coalesced, ListsAvailable, Merged;
  }

  // ---------- whole runs ----------

  /** One completed call.  `Malloc` leaves open which available block of at least
      `ints` words is taken, so that it covers best-of-twenty and first-fit alike. */
  datatype Call = Malloc(ints: int, block: int) | Refused(ints: int) | Free(block: int)

  /** The blocks handed out and not yet given back, as the callers see it. */
  function Held(calls: seq<Call>): set<int> {
    if calls == [] then {}
    else
      var before := Held(calls[..|calls| - 1]);
      match calls[|calls| - 1]
      case Malloc(_, h) => before + {h}
      case Refused(_) => before
      case Free(h) => before - {h}
  }

  /** The state after a run in which every `Free` names a block the callers hold;
      `None` where the run is not one the heap and its callers can make. */
  datatype Outcome = None | Some(state: HeapState)

  ghost function After(len: int, calls: seq<Call>): (o: Outcome)
    requires 8 <= len
    ensures o.Some? ==> Inv(o.state, len)
    ensures o.Some? ==> forall h :: h in Held(calls) <==> Live(o.state.blocks, len, h)
  {
    if calls == [] then
      FreshInv(len);
      Some(Fresh(len))
    else
      var init := calls[..|calls| - 1];
      var before := After(len, init);
      if before.None? then None
      else
        var s := before.state;
        match calls[|calls| - 1]
        case Malloc(ints, h) =>
          if h in s.free && 4 <= ints <= s.blocks[h] then
            CarveKeepsInv(s, len, h, ints);
            CarveLive(s, len, h, ints);
            Some(Carve(s, h, ints))
          else None
        case Refused(ints) =>
          if forall h :: h in s.free ==> s.blocks[h] < ints then before else None
        case Free(h) =>
          if h in Held(init) then
            ReleaseKeepsInv(s, len, h);
            ReleaseLive(s, len, h);
            Some(Release(s, len, h))
          else None
  }

  lemma CarveLive(s: HeapState, len: int, h: int, ints: int)
    requires Inv(s, len) && h in s.free && 4 <= ints <= s.blocks[h]
    ensures forall g :: Live(Carve(s, h, ints).blocks, len, g) <==> Live(s.blocks, len, g) || g == h
  {
    var b := s.blocks;
    if 4 <= b[h] - ints {
      SplitTiles(b, len, h, -ints, b[h] - ints);
    }
  }

  /** Taking `ints` words of block `h` gives that block and at most three words more; what is left of it, if
      anything, is available and next on the list, and all other blocks are as they were. */
  lemma CarveGives(s: HeapState, len: int, h: int, ints: int)
    requires Inv(s, len) && h in s.free && 4 <= ints <= s.blocks[h]
    ensures
      var t, size := Carve(s, h, ints), s.blocks[h];
      && Live(t.blocks, len, h) && ints <= -t.blocks[h] <= ints + 3
      && (forall g :: g in s.blocks && g != h ==> g in t.blocks && t.blocks[g] == s.blocks[g])
      && (forall g :: g in t.blocks && g !in s.blocks ==> g == h + ints && t.blocks[g] == size - ints && t.free[..1] == [g])
  {
    assert h in s.blocks && h != 0 && h != len - 2;
    if 4 <= s.blocks[h] - ints {
      SplitTiles(s.blocks, len, h, -ints, s.blocks[h] - ints);
    }
    hide Inv, Without;
  }

  /** And the other available blocks stay on the list in their order. */
  lemma CarveKeepsOrder(s: HeapState, len: int, k: nat, ints: int)
    requires Inv(s, len) && k < |s.free|
    ensures
      var rest, free := s.free[..k] + s.free[k + 1..], Carve(s, s.free[k], ints).free;
      |rest| <= |free| <= |rest| + 1 && free[|free| - |rest|..] == rest
  {
    WithoutAt(s.free, k);
    hide Inv, Without;
  }

  lemma ReleaseLive(s: HeapState, len: int, h: int)
    requires Inv(s, len) && Live(s.blocks, len, h)
    ensures forall g :: Live(Release(s, len, h).blocks, len, g) <==> Live(s.blocks, len, g) && g != h
    ensures forall g :: Live(s.blocks, len, g) && g != h ==> Release(s, len, h).blocks[g] == s.blocks[g]
  {
    var b := s.blocks;
    assert End(b, h) in b;
  }

  /** The calls so far are a run, and have led to `s`. */
  ghost predicate Ran(len: int, calls: seq<Call>, s: HeapState) {
    8 <= len && After(len, calls) == Some(s)
  }

  lemma NoCallsRan(len: int)
    requires 8 <= len
    ensures Ran(len, [], Fresh(len))
  {
  }

  /** The outcome of a call fits the state it is made in. */
  ghost predicate Follows(s: HeapState, len: int, call: Call) {
    && Inv(s, len)
    && match call
       case Malloc(ints, h) => h in s.free && 4 <= ints <= s.blocks[h]
       case Refused(ints) => forall h :: h in s.free ==> s.blocks[h] < ints
       case Free(h) => Live(s.blocks, len, h)
  }

  /** The state a call leads to. */
  ghost function Next(s: HeapState, len: int, call: Call): HeapState
    requires Follows(s, len, call)
  {
    match call
    case Malloc(ints, h) => Carve(s, h, ints)
    case Refused(_) => s
    case Free(h) => Release(s, len, h)
  }

  /** A run is one call longer exactly when the call's outcome fits the state, and leads to the next one. */
  lemma CallExtendsRun(len: int, calls: seq<Call>, s: HeapState, call: Call)
    requires Ran(len, calls, s)
    ensures Inv(s, len)
    ensures After(len, calls + [call]).Some? <==> Follows(s, len, call)
    ensures Follows(s, len, call) ==> Ran(len, calls + [call], Next(s, len, call))
  {
    assert (calls + [call])[..|calls|] == calls;
    hide Inv, Carve, Release;
  }

  /** The payload of a block: what its holder may read and write. */
  predicate InPayload(b: Blocks, h: int, x: int) {
    h in b && h < x < End(b, h) - 1
  }

  /** At every point of every run, the payloads the callers hold are in bounds
      and disjoint, and giving everything back recovers the whole heap. */
  lemma RunsKeepPayloadsApart(len: int, calls: seq<Call>)
    requires 8 <= len && After(len, calls).Some?
    ensures
      var b := After(len, calls).state.blocks;
      && (forall h, x :: h in Held(calls) && InPayload(b, h, x) ==> 2 < x < len - 3)
      && (forall g, h, x :: g in Held(calls) && h in Held(calls) && InPayload(b, g, x) && InPayload(b, h, x) ==> g == h)
    ensures Held(calls) == {} ==> After(len, calls).state == Fresh(len)
  {
    var s := After(len, calls).state;
    var b := s.blocks;
    assert End(b, 0) == 2 && End(b, len - 2) == len;
    forall h, x | h in Held(calls) && InPayload(b, h, x)
      ensures 2 < x < len - 3
    {
      assert Live(b, len, h) && End(b, h) <= len;
      assert h < len - 2 ==> End(b, h) <= len - 2;
    }
    if Held(calls) == {} {
      NothingLiveIsFresh(s, len);
    }
  }
}
