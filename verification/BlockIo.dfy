/**
 Byte reads on top of whole-block reads, for devices and files alike.
 */
module BlockIo {
  import opened Basics

  /** Something that can be read by blocks: a device or a file.  The last block may reach past the end. */
  datatype Store = Store(size: nat, blockSize: nat, blocks: seq<seq<Byte>>)

  predicate Valid(s: Store) {
    && 0 < s.blockSize && s.size < 0x1_0000_0000
    && s.size <= |s.blocks| * s.blockSize
    && forall k :: 0 <= k < |s.blocks| ==> |s.blocks[k]| == s.blockSize
  }

  function Concat(blocks: seq<seq<Byte>>): seq<Byte> {
    if blocks == [] then [] else Concat(blocks[..|blocks| - 1]) + blocks[|blocks| - 1]
  }

  lemma Rows(k: nat, n: nat, size: nat)
    requires k < n
    ensures 0 <= k * size && k * size + size <= n * size
  {
    assert (n - 1 - k) * size >= 0;
    assert n * size == (n - 1 - k) * size + k * size + size;
  }

  lemma {:induction false} ConcatLength(blocks: seq<seq<Byte>>, size: nat)
    requires forall k :: 0 <= k < |blocks| ==> |blocks[k]| == size
    ensures |Concat(blocks)| == |blocks| * size
  {
    if blocks != [] {
      ConcatLength(blocks[..|blocks| - 1], size);
      assert |blocks| * size == (|blocks| - 1) * size + size;
    }
  }

  /** Block `k` is where it should be. */
  lemma {:induction false} ConcatAt(blocks: seq<seq<Byte>>, size: nat, k: nat)
    requires forall i :: 0 <= i < |blocks| ==> |blocks[i]| == size
    requires k < |blocks|
    ensures 0 <= k * size && k * size + size <= |Concat(blocks)|
    ensures Concat(blocks)[k * size..k * size + size] == blocks[k]
  {
    ConcatLength(blocks, size);
    Rows(k, |blocks|, size);
    var init := blocks[..|blocks| - 1];
    ConcatLength(init, size);
    if k < |init| {
      ConcatAt(init, size, k);
      PrefixSlice(Concat(init), blocks[|blocks| - 1], k * size, k * size + size);
    }
  }

  lemma PrefixSlice(c: seq<Byte>, d: seq<Byte>, lo: nat, hi: nat)
    requires lo <= hi <= |c|
    ensures (c + d)[lo..hi] == c[lo..hi]
  {
  }

  /** What the store holds: its blocks in order, up to its size. */
  function Contents(s: Store): (c: seq<Byte>)
    requires Valid(s)
    ensures |c| == s.size
  {
    ConcatLength(s.blocks, s.blockSize);
    Concat(s.blocks)[..s.size]
  }

  lemma BlockBounds(s: Store, offset: nat)
    requires Valid(s) && offset < s.size
    ensures offset / s.blockSize < |s.blocks|
    ensures offset == offset / s.blockSize * s.blockSize + offset % s.blockSize
  {
    if offset / s.blockSize >= |s.blocks| {
      MulMono(|s.blocks|, offset / s.blockSize, s.blockSize);
    }
  }

  lemma MulMono(a: nat, b: nat, c: nat)
    requires a <= b
    ensures a * c <= b * c
  {
  }

  lemma SubSlice(c: seq<Byte>, size: nat, lo: nat, hi: nat, j: nat, n: nat)
    requires lo <= hi <= |c| && lo + j + n <= hi && lo + j + n <= size <= |c|
    ensures c[lo..hi][j..j + n] == c[..size][lo + j..lo + j + n]
  {
    var a, b := c[lo..hi][j..j + n], c[..size][lo + j..lo + j + n];
    assert forall i :: 0 <= i < n ==> a[i] == c[lo + j + i] == b[i];
  }

  /** A piece of one block is a piece of the contents. */
  lemma PieceOfBlock(s: Store, k: nat, j: nat, n: nat)
    requires Valid(s) && k < |s.blocks| && j + n <= s.blockSize && k * s.blockSize + j + n <= s.size
    ensures |s.blocks[k]| == s.blockSize && 0 <= k * s.blockSize
    ensures s.blocks[k][j..j + n] == Contents(s)[k * s.blockSize + j..k * s.blockSize + j + n]
  {
    var c, base := Concat(s.blocks), k * s.blockSize;
    ConcatAt(s.blocks, s.blockSize, k);
    ConcatLength(s.blocks, s.blockSize);
    assert Contents(s) == c[..s.size];
    hide Contents, Concat;
    SubSlice(c, s.size, base, base + s.blockSize, j, n);
    assert s.blocks[k][j..j + n] == c[..s.size][base + j..base + j + n];
  }

  /** Writing a piece into a buffer. */
  method Copy(piece: seq<Byte>, buffer: array<Byte>, at: nat)
    requires at + |piece| <= buffer.Length
    modifies buffer
    ensures buffer[..] == old(buffer[..at]) + piece + old(buffer[at + |piece|..])
  {
    forall i | 0 <= i < |piece| {
      buffer[at + i] := piece[i];
    }
    assert buffer[..at] == old(buffer[..at]);
    assert buffer[at..at + |piece|] == piece;
    assert buffer[at + |piece|..] == old(buffer[at + |piece|..]);
    assert buffer[..] == buffer[..at] + buffer[at..at + |piece|] + buffer[at + |piece|..];
  }

  /** How many bytes one read gives. */
  function ReadCount(s: Store, offset: nat, desired: nat): int
    requires s.blockSize > 0
  {
    if offset > s.size then -1 else Min(Min(desired, s.size - offset), s.blockSize - offset % s.blockSize)
  }

  /** A read stops as soon as it has what was asked for, or meets the end of the contents or of a block, and no
      sooner; past the end it gives -1. */
  lemma ReadStops(s: Store, offset: nat, desired: nat)
    requires s.blockSize > 0
    ensures
      var cnt := ReadCount(s, offset, desired);
      if offset > s.size then cnt == -1 else
        && 0 <= cnt <= desired && offset + cnt <= s.size && offset % s.blockSize + cnt <= s.blockSize
        && (cnt == desired || offset + cnt == s.size || offset % s.blockSize + cnt == s.blockSize)
  {
  }

  lemma ReadCountFacts(s: Store, offset: nat, desired: nat)
    requires s.blockSize > 0
    ensures var cnt := ReadCount(s, offset, desired);
      && (cnt < 0 <==> offset > s.size) && cnt <= desired
      && (cnt >= 0 ==> offset + cnt <= s.size)
      && (cnt == 0 && desired > 0 ==> offset == s.size)
  {
  }

  /** read: up to `desired` bytes, but not past the end of a block. */
  method Read(s: Store, offset: nat, desired: nat, buffer: array<Byte>, at: nat) returns (cnt: int)
    requires Valid(s) && at + desired <= buffer.Length
    modifies buffer
    ensures cnt == ReadCount(s, offset, desired)
    ensures buffer[..] == if cnt <= 0 then old(buffer[..]) else
      old(buffer[..at]) + Contents(s)[offset..offset + cnt] + old(buffer[at + cnt..])
  {
    if offset > s.size {
      return -1;
    }
    if offset == s.size {
      return 0;
    }
    var n := Min(desired, s.size - offset);
    var block := offset / s.blockSize;
    var inBlock := offset % s.blockSize;
    cnt := Min(s.blockSize - inBlock, n);
    BlockBounds(s, offset);
    PieceOfBlock(s, block, inBlock, cnt);
    Copy(s.blocks[block][inBlock..inBlock + cnt], buffer, at);
  }

  /** The first bytes of the buffer are those of the contents from `start` to `offset`. */
  ghost predicate Done(s: Store, start: nat, offset: nat, was: seq<Byte>, now: seq<Byte>)
    requires Valid(s)
  {
    if start < offset <= s.size then offset - start <= |was| && now == Contents(s)[start..offset] + was[offset - start..]
    else now == was
  }

  /** read_all: as many bytes as there are, across blocks.  Nothing is checked when none are asked for. */
  method ReadAll(s: Store, start: nat, desired: nat, buffer: array<Byte>) returns (total: int)
    requires Valid(s) && desired <= buffer.Length
    modifies buffer
    ensures desired == 0 ==> total == 0
    ensures desired > 0 && start > s.size ==> total == -1
    ensures desired > 0 && start <= s.size ==> total == Min(desired, s.size - start)
    ensures Done(s, start, start + if total > 0 then total else 0, old(buffer[..]), buffer[..])
  {
    total := 0;
    ghost var was := buffer[..];
    assert Done(s, start, start, was, was) && s.blockSize > 0;
    hide Contents, Done, Valid, ReadCount;
    var offset: nat, n: nat, at: nat := start, desired, 0;
    while n > 0
      invariant n + at == desired && total == at && offset == start + at
      invariant at > 0 ==> start <= offset <= s.size
      invariant Done(s, start, offset, was, buffer[..])
      decreases n
    {
      ghost var before := buffer[..];
      var cnt := Read(s, offset, n, buffer, at);
      ReadCountFacts(s, offset, n);
      if cnt < 0 {
        return cnt;
      }
      if cnt == 0 {
        return total;
      }
      DoneMore(s, start, offset, cnt, was, before, buffer[..]);
      total := total + cnt;
      offset := offset + cnt;
      n := n - cnt;
      at := at + cnt;
    }
  }

  lemma DoneMore(s: Store, start: nat, offset: nat, cnt: nat, was: seq<Byte>, before: seq<Byte>, now: seq<Byte>)
    requires Valid(s) && start <= offset && 0 < cnt && offset + cnt <= s.size
    requires offset - start + cnt <= |was| == |before|
    requires Done(s, start, offset, was, before)
    requires now == before[..offset - start] + Contents(s)[offset..offset + cnt] + before[offset - start + cnt..]
    ensures Done(s, start, offset + cnt, was, now)
  {
    var c := Contents(s);
    hide Contents;
    assert c[start..offset] + c[offset..offset + cnt] == c[start..offset + cnt];
    if start < offset {
      assert before[..offset - start] == c[start..offset];
    }
    assert before[offset - start + cnt..] == was[offset - start + cnt..];
  }
}
