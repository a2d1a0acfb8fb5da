/**
 The boundary-tag heap itself: one array of words, the blocks' sizes stored in
 their first and last word, and a doubly linked list threaded through words 1 and
 2 of every available block.  `Malloc` is the kernel's, `MallocFirstFit` and `Realloc`
 the user library's; the rest is common to both.

 Pointers are machine addresses: `base + 4 * i` is the address of word `i`, and 0
 is the null pointer.
 */
module Heap {
  import opened Basics
  import opened HeapBlocks
  import opened HeapMemory

  /** Words needed for a request, computed as the code does, in 32-bit unsigned arithmetic. */
  function WordsFor(bytes: nat): (ints: int)
    requires bytes < 0x1_0000_0000
    ensures 4 <= ints <= 0x4000_0001
  {
    var ints := (bytes + 3) % 0x1_0000_0000 / 4 + 2;
    if ints < 4 then 4 else ints
  }

  /** The payload of a block of `WordsFor(bytes)` words holds the request, except for the three largest
      requests, whose rounding wraps around; and no word is asked for in vain, beyond the smallest block. */
  lemma WordsForSuffices(bytes: nat)
    requires bytes < 0x1_0000_0000
    ensures bytes <= 4 * (WordsFor(bytes) - 2) <==> bytes + 3 < 0x1_0000_0000
    ensures WordsFor(bytes) == 4 || 4 * (WordsFor(bytes) - 3) < bytes
  {
    if bytes + 3 < 0x1_0000_0000 {
      assert (bytes + 3) % 0x1_0000_0000 == bytes + 3;
    } else {
      assert (bytes + 3) % 0x1_0000_0000 == bytes + 3 - 0x1_0000_0000;
    }
  }

  /** malloc's search after `i` blocks of the list, `seen` being those that fit. */
  ghost predicate Scanned(s: HeapState, ints: int, i: int, seen: seq<int>, it: int, mx: int) {
    && 0 <= i <= |s.free|
    && seen == Fits(s.blocks, s.free[..i], ints)
    && |seen| <= SCAN_LIMIT
    && (seen == [] ==> it == 0 && mx == 0x7FFF_FFFF)
    && (seen != [] ==> it != 0 && it == Smallest(s.blocks, seen) && mx == SizeOf(s.blocks, it))
  }

  lemma ScanStep(s: HeapState, ints: int, i: int, seen: seq<int>, it: int, mx: int)
    requires Scanned(s, ints, i, seen, it, mx) && i < |s.free| && s.free[i] != 0 && |seen| < SCAN_LIMIT
    requires SizeOf(s.blocks, s.free[i]) < 0x7FFF_FFFF
    ensures
      var p := s.free[i];
      var sz := SizeOf(s.blocks, p);
      if ints <= sz then Scanned(s, ints, i + 1, seen + [p], if sz < mx then p else it, if sz < mx then sz else mx)
      else Scanned(s, ints, i + 1, seen, it, mx)
  {
    FitsNext(s.blocks, s.free, i, ints);
    SmallestAppend(s.blocks, seen, s.free[i]);
  }

  lemma ScanDone(s: HeapState, ints: int, i: int, seen: seq<int>, it: int, mx: int)
    requires Scanned(s, ints, i, seen, it, mx) && (i == |s.free| || |seen| == SCAN_LIMIT)
    ensures it == KernelChoice(s, ints) && (it != 0 ==> mx == SizeOf(s.blocks, it))
  {
    FitsGrow(s.blocks, s.free, i, ints);
    if i == |s.free| {
      assert s.free[..i] == s.free;
    }
    assert Candidates(s.blocks, s.free, ints) == seen;
  }

  /** The heap after a call for `bytes` whose search settled on `it`. */
  function Allocated(s: HeapState, bytes: nat, it: int): HeapState
    requires bytes < 0x1_0000_0000
  {
    if bytes == 0 || it == 0 then s else Carve(s, it, WordsFor(bytes))
  }

  /** The calls so far, when another one for `bytes` has settled on `it`; a call for nothing does nothing. */
  function Logged(calls: seq<Call>, bytes: nat, it: int): seq<Call>
    requires bytes < 0x1_0000_0000
  {
    if bytes == 0 then calls else calls + [if it == 0 then Refused(WordsFor(bytes)) else Call.Malloc(WordsFor(bytes), it)]
  }

  /** The byte at address `a` belongs to a word of the payload of block `h`. */
  predicate ByteInPayload(base: nat, b: Blocks, h: int, a: int) {
    InPayload(b, h, (a - base) / 4)
  }

  /** `p` is the address of the payload of block `h`, which was available before and is live now; unless the
      rounding wrapped, the payload has room for all of the bytes. */
  ghost predicate HandsOutBlock(base: nat, len: int, s: HeapState, t: HeapState, bytes: nat, p: int, h: int) {
    && p == base + 4 * (h + 1)
    && h in s.free && !Live(s.blocks, len, h) && Live(t.blocks, len, h)
    && (bytes + 3 < 0x1_0000_0000 ==> forall a :: p <= a < p + bytes ==> ByteInPayload(base, t.blocks, h, a))
  }

  /** What a call for `bytes` returns, from heap `s` to heap `t`: the start of the array for no bytes, null
      when no available block is large enough, and else the payload of a block that was not live. */
  ghost predicate HandsOut(base: nat, len: int, s: HeapState, t: HeapState, bytes: nat, p: int)
    requires bytes < 0x1_0000_0000
  {
    && (p == base <==> bytes == 0)
    && (p == 0 <==> bytes != 0 && forall h :: h in s.free ==> SizeOf(s.blocks, h) < WordsFor(bytes))
    && (p != base && p != 0 ==> exists h :: HandsOutBlock(base, len, s, t, bytes, p, h))
  }

  lemma PointerIsPayload(base: nat, len: int, s: HeapState, t: HeapState, bytes: nat, it: int)
    requires 0 < base && Inv(s, len) && 0 < bytes < 0x1_0000_0000
    requires it in s.free && 0 < it && WordsFor(bytes) <= s.blocks[it]
    requires Live(t.blocks, len, it) && t.blocks[it] == Carve(s, it, WordsFor(bytes)).blocks[it]
    ensures HandsOut(base, len, s, t, bytes, base + 4 * (it + 1))
  {
    CarveGives(s, len, it, WordsFor(bytes));
    WordsForSuffices(bytes);
    assert !Live(s.blocks, len, it);
    var p := base + 4 * (it + 1);
    hide Inv, Carve, WordsFor;
    if bytes + 3 < 0x1_0000_0000 {
      forall a | p <= a < p + bytes
        ensures ByteInPayload(base, t.blocks, it, a)
      {
        assert it + 1 <= (a - base) / 4 < it + 1 + (bytes + 3) / 4;
      }
    }
    assert HandsOutBlock(base, len, s, t, bytes, p, it);
    assert SizeOf(s.blocks, it) >= WordsFor(bytes);
  }

  lemma TakenPointer(base: nat, len: int, s: HeapState, bytes: nat, it: int)
    requires 0 < base && Inv(s, len) && 0 < bytes < 0x1_0000_0000
    requires it in s.free && 0 < it && WordsFor(bytes) <= s.blocks[it]
    ensures HandsOut(base, len, s, Carve(s, it, WordsFor(bytes)), bytes, base + 4 * (it + 1))
  {
    CarveGives(s, len, it, WordsFor(bytes));
    hide Inv, Carve, WordsFor, HandsOut;
    PointerIsPayload(base, len, s, Carve(s, it, WordsFor(bytes)), bytes, it);
  }

  lemma NothingHandedOut(base: nat, len: int, s: HeapState, t: HeapState, bytes: nat)
    requires 0 < base && bytes < 0x1_0000_0000
    requires bytes == 0 || forall h :: h in s.free ==> SizeOf(s.blocks, h) < WordsFor(bytes)
    ensures HandsOut(base, len, s, t, bytes, if bytes == 0 then base else 0)
  {
    hide WordsFor;
  }

  // ---------- realloc ----------

  /** 256 to the power `r`: the low `r` bytes of a word are its value modulo this. */
  function ByteUnit(r: nat): (u: int)
    requires r < 4
    ensures 0 < u
  {
    [1, 0x100, 0x1_0000, 0x100_0000][r]
  }

  /** Replacing the low bytes of `x` by those of `y`. */
  lemma LowBytes(x: int, y: int, r: nat)
    requires 0 < r < 4
    ensures (x - x % ByteUnit(r) + y % ByteUnit(r)) % ByteUnit(r) == y % ByteUnit(r)
  {
    if r == 1 { LowOne(x, y); } else if r == 2 { LowTwo(x, y); } else { LowThree(x, y); }
  }

  lemma LowOne(x: int, y: int)
    ensures (x - x % 0x100 + y % 0x100) % 0x100 == y % 0x100
  {
    var q, t := x / 0x100, y % 0x100;
    assert (0x100 * q + t) % 0x100 == t;
  }

  lemma LowTwo(x: int, y: int)
    ensures (x - x % 0x1_0000 + y % 0x1_0000) % 0x1_0000 == y % 0x1_0000
  {
    var q, t := x / 0x1_0000, y % 0x1_0000;
    assert (0x1_0000 * q + t) % 0x1_0000 == t;
  }

  lemma LowThree(x: int, y: int)
    ensures (x - x % 0x100_0000 + y % 0x100_0000) % 0x100_0000 == y % 0x100_0000
  {
    var q, t := x / 0x100_0000, y % 0x100_0000;
    assert (0x100_0000 * q + t) % 0x100_0000 == t;
  }

  /** The `n` bytes of `c` from word `to` on are those of `a` from word `from` on. */
  ghost predicate SameBytes(a: seq<int>, from: int, c: seq<int>, to: int, n: nat) {
    && 0 <= from && from + (n + 3) / 4 <= |a| && 0 <= to && to + (n + 3) / 4 <= |c|
    && (forall x {:trigger c[x]} :: to <= x < to + n / 4 ==> c[x] == a[x - to + from])
    && (n % 4 != 0 ==> c[to + n / 4] % ByteUnit(n % 4) == a[from + n / 4] % ByteUnit(n % 4))
  }

  /** The first `k` bytes are the same still, when the words they are in have not changed since. */
  lemma SameBytesLater(a: seq<int>, a1: seq<int>, from: int, c: seq<int>, c1: seq<int>, to: int, n: nat, k: nat)
    requires SameBytes(a, from, c, to, n) && k <= n && (k == n || k % 4 == 0) && |a1| == |a| && |c1| == |c|
    requires forall x :: from <= x < from + (k + 3) / 4 ==> a1[x] == a[x]
    requires forall x :: to <= x < to + (k + 3) / 4 ==> c1[x] == c[x]
    ensures SameBytes(a1, from, c1, to, k)
  {
  }

  lemma LiveBounds(s: HeapState, len: int, h: int)
    requires Inv(s, len) && Live(s.blocks, len, h)
    ensures 2 <= h && 4 <= Abs(s.blocks[h]) && h + Abs(s.blocks[h]) <= len - 2
  {
    assert End(s.blocks, 0) == 2 && End(s.blocks, len - 2) == len && End(s.blocks, h) <= len;
  }

  /** A block just handed out, beside one that was live already. */
  lemma CarvedBeside(s: HeapState, len: int, it: int, ints: int, h: int)
    requires Inv(s, len) && it in s.free && 4 <= ints <= s.blocks[it] && Live(s.blocks, len, h)
    ensures
      var b := Carve(s, it, ints).blocks;
      && Live(b, len, h) && b[h] == s.blocks[h] && Live(b, len, it) && ints <= Abs(b[it])
      && 2 <= it && 2 <= h && it + Abs(b[it]) <= len - 2 && h + Abs(b[h]) <= len - 2
      && (it + Abs(b[it]) <= h || h + Abs(b[h]) <= it)
  {
    CarveLive(s, len, it, ints);
    BlocksAround(s, len, h);
    AvailableApart(s, len);
    LiveBounds(s, len, h);
    if 4 <= s.blocks[it] - ints {
      SplitTiles(s.blocks, len, it, -ints, s.blocks[it] - ints);
    }
  }

  /** Some block of at least `newSize` bytes, if there was one, now holds what `h` held, and `h` is given back. */
  ghost predicate Moved(s: HeapState, t: HeapState, a: seq<int>, c: seq<int>, h: int, newSize: nat)
    requires newSize < 0x1_0000_0000 && h in s.blocks
  {
    var it := FirstFitChoice(s, WordsFor(newSize));
    var s1 := Allocated(s, newSize, it);
    && Inv(s1, |a|) && Live(s1.blocks, |a|, h)
    && t == Release(s1, |a|, h)
    && PayloadsKept(a, c, s.blocks, h)
    && (it != 0 ==> SameBytes(a, h + 1, c, it + 1, Min(newSize, 4 * (Abs(s.blocks[h]) - 2))))
  }

  /** The words a call for `ints` words is given when it takes block `it`: up to three more. */
  function Given(s: HeapState, it: int, ints: int): nat {
    Abs(SizeOf(Carve(s, it, ints).blocks, it))
  }

  /** When realloc of live block `h` copies no more than its new block holds: the rounding of the size did
      not wrap, or the block given happens to be large enough for all of `h`.  Without a new block it copies
      nothing. */
  predicate CopyFits(s: HeapState, h: int, newSize: nat)
    requires newSize < 0x1_0000_0000
  {
    var ints := WordsFor(newSize);
    var it := FirstFitChoice(s, ints);
    newSize + 3 < 0x1_0000_0000 || it == 0 || Abs(SizeOf(s.blocks, h)) <= Given(s, it, ints) - 2
  }

  /** That is exact: what is copied fits the payload of the new block if and only if it holds. */
  lemma MoveFits(s: HeapState, len: int, h: int, newSize: nat)
    requires Inv(s, len) && Live(s.blocks, len, h) && 0 < newSize < 0x1_0000_0000 && len < 0x4000_0000
    requires FirstFitChoice(s, WordsFor(newSize)) != 0
    ensures
      var ints := WordsFor(newSize);
      var given := Given(s, FirstFitChoice(s, ints), ints);
      (Min(newSize, 4 * Abs(s.blocks[h])) + 3) / 4 <= given - 2 <==> CopyFits(s, h, newSize)
  {
    var ints := WordsFor(newSize);
    LiveBounds(s, len, h);
    WordsForSuffices(newSize);
    FirstFitChoiceFits(s, len, ints);
    AvailableApart(s, len);
    CarvedBeside(s, len, FirstFitChoice(s, ints), ints, h);
    hide Inv, FirstFitChoice, Carve;
  }

  /** Of a block of `size` words at `h`, `n` bytes are copied into one of `given` words; `k` of them are payload. */
  predicate Room(n: int, k: int, h: int, size: int, given: int, len: int) {
    && 0 <= k <= n && (k == n || k % 4 == 0) && (k + 3) / 4 <= size - 2
    && (k + 3) / 4 <= (n + 3) / 4 <= given - 2 && (n + 3) / 4 <= size
    && h + 1 + (n + 3) / 4 <= len
  }

  /** Then the payload bytes a move keeps are among those it copies. */
  lemma MoveHasRoom(s: HeapState, len: int, h: int, newSize: nat)
    requires Inv(s, len) && Live(s.blocks, len, h) && 0 < newSize < 0x1_0000_0000 && len < 0x4000_0000
    requires FirstFitChoice(s, WordsFor(newSize)) != 0 && CopyFits(s, h, newSize)
    ensures
      var size, ints := Abs(s.blocks[h]), WordsFor(newSize);
      var copied, kept := Min(newSize, 4 * size), Min(newSize, 4 * (size - 2));
      Room(copied, kept, h, size, Given(s, FirstFitChoice(s, ints), ints), len)
  {
    LiveBounds(s, len, h);
    MoveFits(s, len, h, newSize);
    hide Inv, FirstFitChoice, Given, WordsFor, CopyFits;
  }

  /** Two heaps with one live block of four words, in which realloc to a size whose rounding wraps copies all
      four.  In the one of 15 words the new block has seven words, and the copy fits; in the one of 16 words
      it has the four asked for, and the copy runs over its end. */
  lemma WrappedMoves(len: int)
    requires 15 <= len <= 16
    ensures
      var s := Carve(Fresh(len), 2, 4);
      && Ran(len, [Malloc(WordsFor(8), 2)], s) && Live(s.blocks, len, 2) && s.blocks[2] == -4
      && FirstFitChoice(s, WordsFor(0xFFFF_FFFF)) == 6
      && (CopyFits(s, 2, 0xFFFF_FFFF) <==> len == 15)
  {
    assert WordsFor(8) == 4 && WordsFor(0xFFFF_FFFF) == 4;
    OneBlockTaken(len);
    hide Ran, Carve, FirstFitChoice;
  }

  lemma OneBlockTaken(len: int)
    requires 15 <= len <= 16
    ensures
      var s := Carve(Fresh(len), 2, 4);
      && Ran(len, [Malloc(4, 2)], s) && Live(s.blocks, len, 2) && s.blocks[2] == -4
      && FirstFitChoice(s, 4) == 6 && Given(s, 6, 4) == (if len == 15 then 7 else 4)
  {
    var s := Carve(Fresh(len), 2, 4);
    NoCallsRan(len);
    CallExtendsRun(len, [], Fresh(len), Malloc(4, 2));
    assert [] + [Malloc(4, 2)] == [Malloc(4, 2)];
    assert s.free == [6] && s.blocks[6] == len - 8;
    assert Fits(s.blocks, [], 4) == [];
    assert [6][..0] == [];
    assert Fits(s.blocks, [6], 4) == [6];
  }

  /** From words `a` over `a1` to `a2`: `it`, if any, was taken, and filled with `n` bytes of `h`. */
  ghost predicate Refilled(s: HeapState, s1: HeapState, a: seq<int>, a1: seq<int>, a2: seq<int>, h: int,
          it: int, n: nat) {
    && |a1| == |a| && |a2| == |a|
    && PayloadsKept(a, a1, s.blocks, it) && PayloadsKept(a1, a2, s1.blocks, it)
    && (it != 0 ==> SameBytes(a1, h + 1, a2, it + 1, n))
  }

  predicate TookSome(s: HeapState, s1: HeapState, it: int, ints: int) {
    if it == 0 then s1 == s else it in s.free && 4 <= ints <= SizeOf(s.blocks, it) && s1 == Carve(s, it, ints)
  }

  /** The payloads across the three steps of a move: `it` taken, filled, `h` given back. */
  lemma MovePayloads(s: HeapState, s1: HeapState, a: seq<int>, a1: seq<int>, a2: seq<int>, a3: seq<int>,
          h: int, it: int, ints: int, n: nat)
    requires Inv(s, |a|) && Live(s.blocks, |a|, h) && TookSome(s, s1, it, ints)
    requires Refilled(s, s1, a, a1, a2, h, it, n) && PayloadsKept(a2, a3, s1.blocks, h)
    ensures PayloadsKept(a, a3, s.blocks, h)
  {
    hide Inv, SameBytes;
    forall g, x | Live(s.blocks, |a|, g) && g != h && InPayload(s.blocks, g, x) && 0 <= x < |a|
      ensures a3[x] == a[x]
    {
      if it != 0 { CarvedBeside(s, |a|, it, ints, g); }
      hide Carve;
      assert Live(s1.blocks, |a|, g) && InPayload(s1.blocks, g, x) && g != it;
    }
  }

  lemma MoveBytes(s: HeapState, s1: HeapState, a: seq<int>, a1: seq<int>, a2: seq<int>, a3: seq<int>, h: int,
          it: int, ints: int, n: nat, k: nat)
    requires Inv(s, |a|) && Live(s.blocks, |a|, h) && it in s.free && 4 <= ints <= s.blocks[it]
    requires s1 == Carve(s, it, ints)
    requires Refilled(s, s1, a, a1, a2, h, it, n) && it != 0 && PayloadsKept(a2, a3, s1.blocks, h)
    requires Room(n, k, h, Abs(s.blocks[h]), Given(s, it, ints), |a|)
    ensures SameBytes(a, h + 1, a3, it + 1, k)
  {
    CarvedBeside(s, |a|, it, ints, h);
    hide Inv, Carve, SameBytes;
    forall x | h + 1 <= x < h + 1 + (k + 3) / 4
      ensures a[x] == a1[x]
    {
      assert InPayload(s.blocks, h, x);
    }
    forall x | it + 1 <= x < it + 1 + (k + 3) / 4
      ensures a3[x] == a2[x]
    {
      assert InPayload(s1.blocks, it, x);
    }
    SameBytesLater(a1, a, h + 1, a2, a3, it + 1, n, k);
  }

  lemma StoresInv(m: Mem, s: HeapState)
    requires Stores(m, s)
    ensures Inv(s, |m.a|)
  {
    hide Inv;
  }

  lemma ChoiceMade(m: Mem, s: HeapState, ints: int)
    requires Stores(m, s)
    ensures Inv(s, |m.a|)
    ensures var it := FirstFitChoice(s, ints); it == 0 || (0 < it < |m.a| && it in s.free && ints <= s.blocks[it])
  {
    FirstFitChoiceFits(s, |m.a|, ints);
    hide Chain, Linked, FirstFitChoice;
  }

  lemma AllKept(a: seq<int>, b: Blocks, it: int)
    ensures PayloadsKept(a, a, b, it)
  {
  }

  lemma RefilledBy(s: HeapState, s1: HeapState, a: seq<int>, a1: seq<int>, a2: seq<int>, h: int, it: int, n: nat)
    requires PayloadsKept(a, a1, s.blocks, it) && PayloadsKept(a1, a2, s1.blocks, it)
    requires it != 0 ==> SameBytes(a1, h + 1, a2, it + 1, n)
    ensures Refilled(s, s1, a, a1, a2, h, it, n)
  {
  }

  lemma StillLive(s: HeapState, len: int, h: int, newSize: nat)
    requires Inv(s, len) && Live(s.blocks, len, h) && newSize < 0x1_0000_0000
    ensures Live(Allocated(s, newSize, FirstFitChoice(s, WordsFor(newSize))).blocks, len, h)
  {
    var ints := WordsFor(newSize);
    FirstFitChoiceFits(s, len, ints);
    var it := FirstFitChoice(s, ints);
    hide FirstFitChoice, Inv, WordsFor;
    if it != 0 { CarvedBeside(s, len, it, ints, h); }
  }

  lemma AllocatedIs(s: HeapState, len: int, newSize: nat, it: int)
    requires Inv(s, len) && 0 < newSize < 0x1_0000_0000 && it == FirstFitChoice(s, WordsFor(newSize))
    ensures if it == 0 then Allocated(s, newSize, it) == s
      else it in s.free && 4 <= WordsFor(newSize) <= s.blocks[it] && Allocated(s, newSize, it) == Carve(s, it, WordsFor(newSize))
  {
    FirstFitChoiceFits(s, len, WordsFor(newSize));
  }

  lemma MoveDone(s: HeapState, s1: HeapState, a: seq<int>, a1: seq<int>, a2: seq<int>, a3: seq<int>, h: int,
          it: int, newSize: nat)
    requires 0 < newSize < 0x1_0000_0000 && |a| < 0x4000_0000 && CopyFits(s, h, newSize)
    requires Inv(s, |a|) && Live(s.blocks, |a|, h) && Inv(s1, |a|) && Live(s1.blocks, |a|, h)
    requires it == FirstFitChoice(s, WordsFor(newSize)) && s1 == Allocated(s, newSize, it)
    requires Refilled(s, s1, a, a1, a2, h, it, Min(newSize, 4 * Abs(s.blocks[h]))) && PayloadsKept(a2, a3, s1.blocks, h)
    ensures Moved(s, Release(s1, |a|, h), a, a3, h, newSize)
  {
    assert h in s.blocks;
    hide FirstFitChoice, WordsFor, Inv, PayloadsKept, SameBytes, Carve, Release, Refilled, Room;
    hide Allocated, Live, Moved, CopyFits, Given;
    var ints, n, k := WordsFor(newSize), Min(newSize, 4 * Abs(s.blocks[h])), Min(newSize, 4 * (Abs(s.blocks[h]) - 2));
    AllocatedIs(s, |a|, newSize, it);
    MovePayloads(s, s1, a, a1, a2, a3, h, it, ints, n);
    if it != 0 {
      MoveHasRoom(s, |a|, h, newSize);
      MoveBytes(s, s1, a, a1, a2, a3, h, it, ints, n, k);
    }
    MovedBy(s, s1, a, a3, h, it, newSize);
  }

  lemma MovedBy(s: HeapState, s1: HeapState, a: seq<int>, a3: seq<int>, h: int, it: int, newSize: nat)
    requires newSize < 0x1_0000_0000 && h in s.blocks && Inv(s1, |a|) && Live(s1.blocks, |a|, h)
    requires it == FirstFitChoice(s, WordsFor(newSize)) && s1 == Allocated(s, newSize, it)
    requires PayloadsKept(a, a3, s.blocks, h)
    requires it != 0 ==> SameBytes(a, h + 1, a3, it + 1, Min(newSize, 4 * (Abs(s.blocks[h]) - 2)))
    ensures Moved(s, Release(s1, |a|, h), a, a3, h, newSize)
  {
  }

  /** The pointer realloc returns, once `h` is given back. */
  lemma MovedPointer(base: nat, s: HeapState, t: HeapState, a: seq<int>, c: seq<int>, h: int, newSize: nat)
    requires 0 < base && Inv(s, |a|) && Live(s.blocks, |a|, h) && 0 < newSize < 0x1_0000_0000
    requires Moved(s, t, a, c, h, newSize)
    ensures
      var it := FirstFitChoice(s, WordsFor(newSize));
      HandsOut(base, |a|, s, t, newSize, if it == 0 then 0 else base + 4 * (it + 1))
  {
    var it := FirstFitChoice(s, WordsFor(newSize));
    AllocatedIs(s, |a|, newSize, it);
    if it == 0 {
      FirstFitChoiceFits(s, |a|, WordsFor(newSize));
      NothingHandedOut(base, |a|, s, t, newSize);
    } else {
      CarvedBeside(s, |a|, it, WordsFor(newSize), h);
      ReleaseLive(Carve(s, it, WordsFor(newSize)), |a|, h);
      hide Carve, WordsFor, HandsOut, Release, FirstFitChoice, PayloadsKept, SameBytes;
      PointerIsPayload(base, |a|, s, t, newSize, it);
    }
  }

  /** `state` is the heap's value, and `calls` the run of calls that has led to it. */
  class Heap {
    const base: nat
    const cells: array<int>
    var avail: int
    ghost var state: HeapState
    ghost var calls: seq<Call>

    ghost function Memory(): (m: Mem)
      reads this`avail, cells
    {
      Mem(cells[..], avail)
    }

    ghost predicate Valid()
      reads this, cells
    {
      && 0 < base
      && 8 <= cells.Length < 0x4000_0000
      && Stores(Memory(), state)
      && Ran(cells.Length, calls, state)
    }

    /** The address of word `i`. */
    function Address(i: int): int {
      base + 4 * i
    }

    /** `p` points at the payload of block `h`. */
    predicate PointsAt(p: int, h: int) {
      p == Address(h + 1)
    }

    function Size(i: int): int
      requires 0 <= i < cells.Length
      reads cells
    {
      Abs(cells[i])
    }

    function HeaderFromFooter(i: int): int
      requires 0 <= i < cells.Length
      reads cells
    {
      i - Size(i) + 1
    }

    function FooterFromHeader(i: int): int
      requires 0 <= i < cells.Length
      reads cells
    {
      i + Size(i) - 1
    }

    /** heapInit in the kernel: `cells` is the memory range the heap is given.  Its lock is the
        first object on the heap; when there is no place for it the call is refused, and the kernel panics. */
    constructor (base: nat, cells: array<int>, lockBytes: nat)
      requires 0 < base && 8 <= cells.Length < 0x4000_0000 && 0 < lockBytes < 0x1_0000_0000
      modifies cells
      ensures Valid() && this.base == base && this.cells == cells
      ensures
        var it := KernelChoice(Fresh(cells.Length), WordsFor(lockBytes));
        && state == Allocated(Fresh(cells.Length), lockBytes, it)
        && calls == Logged([], lockBytes, it)
    {
      this.base := base;
      this.cells := cells;
      avail := 0;
      state := Fresh(cells.Length);
      calls := [];
      new;
      Lay();
      var theLock := Malloc(lockBytes);
    }

    /** heap_init in the user library. */
    constructor ForUser(base: nat, cells: array<int>)
      requires 0 < base && 8 <= cells.Length < 0x4000_0000
      modifies cells
      ensures Valid() && this.base == base && this.cells == cells
      ensures state == Fresh(cells.Length) && calls == []
    {
      this.base := base;
      this.cells := cells;
      avail := 0;
      state := Fresh(cells.Length);
      calls := [];
      new;
      Lay();
    }

    /** One available block between two taken sentinels. */
    method Lay()
      requires 0 < base && 8 <= cells.Length < 0x4000_0000
      requires avail == 0 && state == Fresh(cells.Length) && calls == []
      modifies this`avail, cells
      ensures Valid()
    {
      hide Inv, Chain, Tagged, PutTaken, PutAvail, Fresh, Ran;
      NoCallsRan(cells.Length);
      ghost var m := Memory();
      MakeTaken(0, 2);
      MakeAvail(2, cells.Length - 4);
      MakeTaken(cells.Length - 2, 2);
      FreshStores(m);
    }

    /** Whatever calls have been made on this heap: its live blocks are those the callers hold, their
        payloads are in bounds and disjoint, and with none held all the space is one block. */
    lemma HeldBlocksAreApart()
      requires Valid()
      ensures forall h :: h in Held(calls) <==> Live(state.blocks, cells.Length, h)
      ensures forall h, x :: h in Held(calls) && InPayload(state.blocks, h, x) ==> 2 < x < cells.Length - 3
      ensures forall g, h, x :: g in Held(calls) && h in Held(calls) ==>
        (InPayload(state.blocks, g, x) && InPayload(state.blocks, h, x) ==> g == h)
      ensures Held(calls) == {} ==> state == Fresh(cells.Length)
    {
      hide Stores, Inv, Live, InPayload, Fresh, Held;
      RunsKeepPayloadsApart(cells.Length, calls);
    }

    method MakeTaken(i: int, ints: int)
      requires 0 <= i && 2 <= ints && i + ints <= cells.Length
      modifies cells
      ensures Memory() == PutTaken(old(Memory()), i, ints)
    {
      cells[i] := -ints;
      cells[FooterFromHeader(i)] := -ints;
    }

    method MakeAvail(i: int, ints: int)
      requires 0 < i && 4 <= ints && i + ints <= cells.Length
      requires avail == 0 || 0 < avail < cells.Length - 2
      modifies this`avail, cells
      ensures Memory() == PutAvail(old(Memory()), i, ints)
    {
      cells[i] := ints;
      cells[FooterFromHeader(i)] := ints;
      cells[i + 1] := avail;
      cells[i + 2] := 0;
      if avail != 0 {
        cells[avail + 2] := i;
      }
      avail := i;
    }

    method Remove(i: int, ghost free: seq<int>)
      requires Linked(Memory(), free) && i in free
      modifies this`avail, cells
      ensures Memory() == Unlink(old(Memory()), i)
    {
      ghost var k :| 0 <= k < |free| && free[k] == i;
      ChainAt(cells[..], 0, free, k);
      ChainBounds(cells[..], 0, free);
      var prevIndex := cells[i + 2];
      var nextIndex := cells[i + 1];
      if prevIndex == 0 {
        avail := nextIndex;
      } else {
        cells[prevIndex + 1] := nextIndex;
      }
      if nextIndex != 0 {
        cells[nextIndex + 2] := prevIndex;
      }
    }

    /** malloc's search: best fit among the first twenty blocks that fit. */
    method Scan(ints: int) returns (it: int, mx: int)
      requires Valid()
      ensures it == KernelChoice(state, ints)
      ensures it != 0 ==> mx == SizeOf(state.blocks, it)
    {
      hide Inv, Tagged, Ran;
      ghost var s := state;
      AvailableTags(Memory(), s);
      ghost var i, seen := 0, [];
      mx, it := 0x7FFF_FFFF, 0;
      var countDown := 20;
      var p := avail;
      assert Scanned(s, ints, i, seen, it, mx);
      hide Scanned, Chain, KernelChoice;
      while p != 0
        invariant Scanned(s, ints, i, seen, it, mx)
        invariant 0 <= i <= |s.free| && p == Head(s.free[i..])
        invariant countDown == SCAN_LIMIT - |seen| && 0 < countDown
        decreases |s.free| - i
      {
        var sz := Size(p);
        ScanStep(s, ints, i, seen, it, mx);
        if sz >= ints {
          if sz < mx {
            mx := sz;
            it := p;
          }
          countDown := countDown - 1;
          seen := seen + [p];
          if countDown == 0 {
            i := i + 1;
            break;
          }
        }
        ChainAt(cells[..], 0, s.free, i);
        p := cells[p + 1];
        i := i + 1;
      }
      ScanDone(s, ints, i, seen, it, mx);
    }

    /** The part of malloc common to both heaps: hand out `ints` words of block `it`. */
    method Take(it: int, size: int, ints: int)
      requires Valid() && it in state.free && state.blocks[it] == size && 4 <= ints <= size
      modifies this`avail, this`state, this`calls, cells
      ensures Valid() && state == Carve(old(state), it, ints) && calls == old(calls) + [Call.Malloc(ints, it)]
      ensures PayloadsKept(old(cells[..]), cells[..], old(state.blocks), it)
    {
      hide Stores, Linked, Ran, Inv, Carve, TakeMem, PayloadsKept, Unlink;
      TakeReady(Memory(), state, it, ints);
      CallExtendsRun(cells.Length, calls, state, Call.Malloc(ints, it));
      Cut(it, size, ints, state.free);
      state, calls := Carve(state, it, ints), calls + [Call.Malloc(ints, it)];
    }

    method Cut(it: int, size: int, ints: int, ghost free: seq<int>)
      requires Linked(Memory(), free) && it in free && 0 < it && 4 <= ints <= size && it + size <= cells.Length
      requires var f := Unlink(Memory(), it).avail; f == 0 || 0 < f < cells.Length - 2
      modifies this`avail, cells
      ensures Memory() == TakeMem(old(Memory()), it, size, ints)
    {
      hide Linked, PutTaken, PutAvail, Unlink;
      Remove(it, free);
      var extra := size - ints;
      if extra >= 4 {
        MakeTaken(it, ints);
        MakeAvail(it + ints, extra);
      } else {
        MakeTaken(it, size);
      }
    }

    /** A call that finds no block changes nothing but the log. */
    ghost method Refuse(ints: int)
      requires Valid() && forall h :: h in state.free ==> state.blocks[h] < ints
      modifies this`calls
      ensures Valid() && calls == old(calls) + [Refused(ints)]
    {
      CallExtendsRun(cells.Length, calls, state, Refused(ints));
      hide Stores, Ran;
      calls := calls + [Refused(ints)];
    }

    /** The pointer a call for `bytes` returns when the search settles on `it`. */
    function Result(bytes: nat, it: int): int {
      if bytes == 0 then base else if it == 0 then 0 else Address(it + 1)
    }

    /** What a call for `bytes` does when its search settles on `it`, and returns. */
    twostate predicate Got(bytes: nat, it: int, p: int)
      reads this, cells
    {
      && bytes < 0x1_0000_0000
      && p == Result(bytes, it)
      && state == Allocated(old(state), bytes, it)
      && calls == Logged(old(calls), bytes, it)
      && PayloadsKept(old(cells[..]), cells[..], old(state.blocks), it)
    }

    /** What giving back live block `h` does. */
    twostate predicate Gave(h: int)
      reads this, cells
    {
      && old(Valid()) && Live(old(state.blocks), cells.Length, h)
      && state == Release(old(state), cells.Length, h)
      && calls == old(calls) + [Call.Free(h)]
      && PayloadsKept(old(cells[..]), cells[..], old(state.blocks), h)
    }

    twostate predicate Untouched()
      reads this, cells
    {
      state == old(state) && calls == old(calls) && Memory() == old(Memory())
    }

    /** malloc in the kernel. */
    method Malloc(bytes: nat) returns (p: int)
      requires Valid() && bytes < 0x1_0000_0000
      modifies this`avail, this`state, this`calls, cells
      ensures Valid()
      ensures Got(bytes, KernelChoice(old(state), WordsFor(bytes)), p)
      ensures HandsOut(base, cells.Length, old(state), state, bytes, p)
    {
      ghost var s := state;
      hide Ran, Carve, PayloadsKept, Chain, Tagged, KernelChoice, HandsOut;
      AllKept(cells[..], state.blocks, KernelChoice(state, WordsFor(bytes)));
      if bytes == 0 {
        NothingHandedOut(base, cells.Length, s, state, bytes);
        return base;
      }
      var ints := WordsFor(bytes);
      ghost var _ := KernelChoiceIsBest(state, cells.Length, ints);
      var it, mx := Scan(ints);
      p := 0;
      if it != 0 {
        Take(it, mx, ints);
        p := Address(it + 1);
        TakenPointer(base, cells.Length, s, bytes, it);
      } else {
        Refuse(ints);
        NothingHandedOut(base, cells.Length, s, state, bytes);
      }
    }

    /** malloc in the user library. */
    method MallocFirstFit(bytes: nat) returns (p: int)
      requires Valid() && bytes < 0x1_0000_0000
      modifies this`avail, this`state, this`calls, cells
      ensures Valid()
      ensures Got(bytes, FirstFitChoice(old(state), WordsFor(bytes)), p)
      ensures HandsOut(base, cells.Length, old(state), state, bytes, p)
    {
      ghost var s := state;
      hide Ran, Carve, PayloadsKept, Chain, Tagged, FirstFitChoice, HandsOut;
      AllKept(cells[..], state.blocks, FirstFitChoice(state, WordsFor(bytes)));
      if bytes == 0 {
        NothingHandedOut(base, cells.Length, s, state, bytes);
        return base;
      }
      var ints := WordsFor(bytes);
      FirstFitChoiceFits(state, cells.Length, ints);
      var it := ScanFirst(ints);
      p := 0;
      if it != 0 {
        Take(it, Size(it), ints);
        p := Address(it + 1);
        TakenPointer(base, cells.Length, s, bytes, it);
      } else {
        Refuse(ints);
        NothingHandedOut(base, cells.Length, s, state, bytes);
      }
    }

    /** The user library's search: the first block that fits. */
    method ScanFirst(ints: int) returns (p: int)
      requires Valid()
      ensures p == FirstFitChoice(state, ints)
      ensures p != 0 ==> 0 < p < cells.Length && cells[p] == SizeOf(state.blocks, p)
    {
      hide Inv, Tagged, Ran;
      AvailableTags(Memory(), state);
      ghost var b, free := state.blocks, state.free;
      ghost var i := 0;
      p := avail;
      while p != 0
        invariant 0 <= i <= |free| && Fits(b, free[..i], ints) == []
        invariant p == Head(free[i..])
        decreases |free| - i
      {
        FitsNext(b, free, i, ints);
        if Size(p) >= ints {
          FitsGrow(b, free, i + 1, ints);
          return;
        }
        ChainAt(cells[..], 0, free, i);
        p := cells[p + 1];
        i := i + 1;
      }
      assert free[..i] == free;
    }

    /** A block other than the sentinels, live or available. */
    ghost predicate Inner(h: int)
      reads this`state
    {
      h in state.blocks && 0 < h < cells.Length - 2
    }

    /** What free does with the payload of block `h`. */
    twostate predicate Freed(h: int, panicked: bool)
      reads this, cells
    {
      && old(Inner(h))
      && if 0 < old(state.blocks)[h] then panicked && Untouched() else !panicked && Gave(h)
    }

    method Free(p: int) returns (panicked: bool)
      requires Valid()
      requires p == 0 || p == base || exists h :: PointsAt(p, h) && Inner(h)
      modifies this`avail, this`state, this`calls, cells
      ensures Valid()
      ensures p == 0 || p == base ==> !panicked && Untouched()
      ensures forall h :: p != 0 && PointsAt(p, h) && old(Inner(h)) ==> Freed(h, panicked)
    {
      hide Stores, Ran, Release, PayloadsKept, Inv;
      if p == 0 || p == base {
        return false;
      }
      var idx := (p - base) / 4 - 1;
      var taken := Taken(idx);
      if !taken {
        return true;
      }
      Give(idx);
      return false;
    }

    /** isTaken, of a block. */
    method Taken(h: int) returns (taken: bool)
      requires Valid() && Inner(h)
      ensures h < cells.Length && Inv(state, cells.Length)
      ensures if taken then Live(state.blocks, cells.Length, h) else 0 < state.blocks[h]
    {
      hide Ran, Chain;
      taken := cells[h] < 0;
    }

    method Give(h: int)
      requires Valid() && Live(state.blocks, cells.Length, h)
      modifies this`avail, this`state, this`calls, cells
      ensures Valid() && Gave(h)
    {
      hide Ran, Release, Inv, Stores, PayloadsKept, Readable, GiveMem;
      ghost var s := state;
      ghost var l, r := GiveReady(Memory(), s, h);
      CallExtendsRun(cells.Length, calls, s, Call.Free(h));
      state, calls := Release(s, cells.Length, h), calls + [Call.Free(h)];
      Coalesce(h, s, l, r);
    }

    /** The steps of free after its checks. */
    method Coalesce(h: int, ghost s: HeapState, ghost l: int, ghost r: int)
      requires Readable(Memory(), s.blocks, s.free, l, h, r)
      modifies this`avail, cells
      ensures Memory() == GiveMem(old(Memory()), h)
    {
      hide Chain, Unlink, PutAvail, Without;
      ghost var m, b := Memory(), s.blocks;
      var idx := h;
      var sz := Size(idx);
      var leftIndex := HeaderFromFooter(idx - 1);
      var rightIndex := idx + Size(idx);
      if cells[leftIndex] > 0 {
        Remove(leftIndex, s.free);
        idx := leftIndex;
        sz := sz + Size(leftIndex);
      }
      if cells[rightIndex] > 0 {
        Remove(rightIndex, if 0 < b[l] then Without(s.free, l) else s.free);
        sz := sz + Size(rightIndex);
      }
      MakeAvail(idx, sz);
    }

    method CopyWords(to: int, from: int, n: nat)
      requires 0 <= from && from + n <= cells.Length && 0 <= to && to + n <= cells.Length
      requires to + n <= from || from + n <= to
      modifies cells
      ensures forall x :: 0 <= x < cells.Length ==> cells[x] == if to <= x < to + n then old(cells[x - to + from]) else old(cells[x])
    {
      var k := 0;
      while k < n
        invariant 0 <= k <= n
        invariant forall x {:trigger cells[x]} :: 0 <= x < cells.Length ==>
          cells[x] == if to <= x < to + k then old(cells[x - to + from]) else old(cells[x])
      {
        cells[to + k] := cells[from + k];
        k := k + 1;
      }
    }

    /** memcpy of `n` bytes from word `from` to word `to`, where the two ranges are apart. */
    method CopyBytes(to: int, from: int, n: nat)
      requires 0 <= from && from + (n + 3) / 4 <= cells.Length && 0 <= to && to + (n + 3) / 4 <= cells.Length
      requires to + (n + 3) / 4 <= from || from + (n + 3) / 4 <= to
      modifies cells
      ensures forall x :: 0 <= x < cells.Length && !(to <= x < to + (n + 3) / 4) ==> cells[x] == old(cells[x])
      ensures SameBytes(old(cells[..]), from, cells[..], to, n)
    {
      var words, rest := n / 4, n % 4;
      CopyWords(to, from, words);
      if rest != 0 {
        var x, y := cells[to + words], cells[from + words];
        LowBytes(x, y, rest);
        cells[to + words] := x - x % ByteUnit(rest) + y % ByteUnit(rest);
      }
      hide ByteUnit;
    }

    /** Copy `n` bytes from the words after `from` into the payload of live block `it`. */
    method Fill(it: int, from: int, n: nat)
      requires Valid() && Live(state.blocks, cells.Length, it) && (n + 3) / 4 <= Abs(state.blocks[it]) - 2
      requires 0 <= from && from + (n + 3) / 4 <= cells.Length
      requires it + 1 + (n + 3) / 4 <= from || from + (n + 3) / 4 <= it + 1
      modifies cells
      ensures Valid()
      ensures PayloadsKept(old(cells[..]), cells[..], state.blocks, it)
      ensures SameBytes(old(cells[..]), from, cells[..], it + 1, n)
    {
      ghost var m := Memory();
      LiveBounds(state, cells.Length, it);
      hide Inv, Tagged, Chain, SameBytes, Keeps, Linked;
      CopyBytes(it + 1, from, n);
      PayloadWriteStores(m, state, cells[..], it);
      KeepsPayloads(m.a, cells[..], state.blocks, it);
    }

    method LiveSize(h: int) returns (size: nat)
      requires Valid() && Live(state.blocks, cells.Length, h)
      ensures size == Abs(state.blocks[h])
    {
      LiveReadable(Memory(), state, LeftOf(state.blocks, cells.Length, h), h, End(state.blocks, h));
      size := Size(h);
    }

    /** realloc's first half: a new block, if there is one, gets what it is to keep of `h`. */
    method Refill(h: int, newSize: nat) returns (q: int, ghost a1: seq<int>)
      requires Valid() && Live(state.blocks, cells.Length, h) && 0 < newSize < 0x1_0000_0000 && CopyFits(state, h, newSize)
      modifies this`avail, this`state, this`calls, cells
      ensures Valid()
      ensures
        var it := FirstFitChoice(old(state), WordsFor(newSize));
        && q == Result(newSize, it)
        && state == Allocated(old(state), newSize, it) && calls == Logged(old(calls), newSize, it)
        && Refilled(old(state), state, old(cells[..]), a1, cells[..], h, it, Min(newSize, 4 * Abs(old(state.blocks)[h])))
    {
      hide Stores, Ran, FirstFitChoice, WordsFor, Carve, PayloadsKept, SameBytes, Inv, Live, Refilled, Allocated, Logged, Result;
      hide CopyFits;
      ghost var s, it := state, FirstFitChoice(state, WordsFor(newSize));
      var size := LiveSize(h);
      var sz := size * 4;
      ChoiceMade(Memory(), s, WordsFor(newSize));
      ghost var a := cells[..];
      q := MallocFirstFit(newSize);
      a1 := cells[..];
      FillFrom(s, q, it, h, newSize, sz);
      RefilledBy(s, state, a, a1, cells[..], h, it, Min(newSize, sz));
    }

    /** The copy in realloc, if there is a new block. */
    method FillFrom(ghost s: HeapState, q: int, ghost it: int, h: int, newSize: nat, sz: nat)
      requires Inv(s, cells.Length) && Live(s.blocks, cells.Length, h) && sz == 4 * Abs(s.blocks[h])
      requires 0 < newSize < 0x1_0000_0000 && q == Result(newSize, it) && CopyFits(s, h, newSize)
      requires it == FirstFitChoice(s, WordsFor(newSize))
      requires it == 0 || (0 < it && it in s.free && WordsFor(newSize) <= s.blocks[it])
      requires Valid() && state == Allocated(s, newSize, it)
      modifies cells
      ensures Valid() && PayloadsKept(old(cells[..]), cells[..], state.blocks, it)
      ensures it != 0 ==> SameBytes(old(cells[..]), h + 1, cells[..], it + 1, Min(newSize, sz))
    {
      hide Stores, WordsFor, Carve, PayloadsKept, SameBytes, Inv, Live, FirstFitChoice, CopyFits;
      if q != 0 {
        CarvedBeside(s, cells.Length, it, WordsFor(newSize), h);
        MoveHasRoom(s, cells.Length, h, newSize);
        Fill((q - base) / 4 - 1, h + 1, if newSize > sz then sz else newSize);
      } else {
        AllKept(cells[..], state.blocks, it);
      }
    }

    /** realloc of live block `h` to a nonzero size. */
    method Move(h: int, newSize: nat) returns (q: int)
      requires Valid() && Live(state.blocks, cells.Length, h) && 0 < newSize < 0x1_0000_0000 && CopyFits(state, h, newSize)
      modifies this`avail, this`state, this`calls, cells
      ensures Valid()
      ensures Moved(old(state), state, old(cells[..]), cells[..], h, newSize)
      ensures
        var it := FirstFitChoice(old(state), WordsFor(newSize));
        q == Result(newSize, it) && calls == Logged(old(calls), newSize, it) + [Call.Free(h)]
    {
      ghost var s, a, it := state, cells[..], FirstFitChoice(state, WordsFor(newSize));
      ghost var a1;
      hide Stores, FirstFitChoice, WordsFor, Carve, Release, PayloadsKept, SameBytes, Inv, Refilled, Allocated, Live, Moved, Min;
      hide CopyFits, HandsOut, Ran, Logged;
      StoresInv(Memory(), s);
      StillLive(s, |a|, h, newSize);
      q, a1 := Refill(h, newSize);
      ghost var s1, a2 := state, cells[..];
      StoresInv(Memory(), s1);
      Give(h);
      MoveDone(s, s1, a, a1, a2, cells[..], h, it, newSize);
    }

    /** What realloc does with the payload of block `h`. */
    twostate predicate Reallocated(h: int, newSize: nat, q: int)
      reads this, cells
    {
      && old(Inner(h)) && newSize < 0x1_0000_0000
      && if 0 < old(state.blocks)[h] then q == 0 && Untouched()
         else if newSize == 0 then q == 0 && Gave(h)
         else
           var it := FirstFitChoice(old(state), WordsFor(newSize));
           && q == Result(newSize, it)
           && calls == Logged(old(calls), newSize, it) + [Call.Free(h)]
           && Moved(old(state), state, old(cells[..]), cells[..], h, newSize)
           && HandsOut(base, cells.Length, old(state), state, newSize, q)
    }

    /** realloc in the user library.  The old block goes back to the heap even when no new
        block is found; a pointer to a free block is refused. */
    method Realloc(p: int, newSize: nat) returns (q: int)
      requires Valid() && newSize < 0x1_0000_0000
      requires forall h :: p != 0 && newSize != 0 && PointsAt(p, h) && Live(state.blocks, cells.Length, h) ==>
        CopyFits(state, h, newSize)
      requires p == 0 || (p == base && newSize == 0) || exists h :: PointsAt(p, h) && Inner(h)
      modifies this`avail, this`state, this`calls, cells
      ensures Valid()
      ensures p == 0 ==> Got(newSize, FirstFitChoice(old(state), WordsFor(newSize)), q)
      ensures p == 0 ==> HandsOut(base, cells.Length, old(state), state, newSize, q)
      ensures p == base ==> q == 0 && Untouched()
      ensures forall h :: p != 0 && PointsAt(p, h) && old(Inner(h)) ==> Reallocated(h, newSize, q)
    {
      hide Stores, Ran, FirstFitChoice, WordsFor, Inv, Moved, Logged, PayloadsKept, Carve, Release, Allocated;
      hide CopyFits, HandsOut;
      if p == 0 {
        q := MallocFirstFit(newSize);
        return;
      }
      if newSize == 0 {
        var _ := Free(p);
        return 0;
      }
      var idx := (p - base) / 4 - 1;
      var taken := Taken(idx);
      if !taken {
        return 0;
      }
      ghost var s, a := state, cells[..];
      q := Move(idx, newSize);
      MovedPointer(base, s, state, a, cells[..], idx, newSize);
    }
  }
}
