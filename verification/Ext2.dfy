/**
 Files and directories of the ext2 file system: the blocks of a file and the records of a
 directory.  A failed assertion or `Debug::panic` stops the machine; it
 is a result of its own here.
 */
module Ext2 {
  import opened Basics
  import opened BlockIo

  datatype Option<T> = None | Some(value: T)

  // ---------- blocks of a file ----------

  /** The fields of an i-node that reading uses: `direct` are the first twelve block pointers. */
  datatype Inode = Inode(size: nat, sectors: nat, direct: seq<nat>, indirect: nat)

  predicate ValidInode(ino: Inode) {
    |ino.direct| == 12 && ino.size < 0x1_0000_0000
  }

  /** `n` bytes of a store, if it has them.  Offsets are 32-bit sums. */
  function Piece(s: Store, offset: nat, n: nat): Option<seq<Byte>>
    requires Valid(s)
  {
    if n == 0 then Some([])
    else if offset + n <= s.size then Some(Contents(s)[offset..offset + n]) else None
  }

  /** Where pointer number `index` of a file is in the device, for the singly indirect ones. */
  function IndirectAt(ino: Inode, blockSize: nat, index: nat): nat
    requires index >= 12
  {
    (ino.indirect * blockSize + (index - 12) * 4) % 0x1_0000_0000
  }

  /** The device block that holds block `index` of a file. */
  function Pointer(dev: Store, ino: Inode, blockSize: nat, index: nat): Option<nat>
    requires Valid(dev) && ValidInode(ino) && blockSize >= 1024
  {
    if index >= ino.sectors / (blockSize / 512) then None
    else if index < 12 then Some(ino.direct[index])
    else if index < 12 + blockSize / 4 then
      match Piece(dev, IndirectAt(ino, blockSize, index), 4)
      case Some(b) => Some(Le32(b))
      case None => None
    else None
  }

  function FileBlock(dev: Store, ino: Inode, blockSize: nat, index: nat): (b: Option<seq<Byte>>)
    requires Valid(dev) && ValidInode(ino) && blockSize >= 1024
    ensures b.Some? ==> |b.value| == blockSize
  {
    match Pointer(dev, ino, blockSize, index)
    case Some(p) => Piece(dev, p * blockSize % 0x1_0000_0000, blockSize)
    case None => None
  }

  /** The template `read` of a fixed number of bytes, which must all be there. */
  method ReadExactly(s: Store, offset: nat, n: nat, buffer: array<Byte>) returns (ok: bool)
    requires Valid(s) && n <= buffer.Length && n > 0
    modifies buffer
    ensures ok <==> Piece(s, offset, n).Some?
    ensures ok ==> buffer[..n] == Piece(s, offset, n).value
  {
    ghost var was := buffer[..];
    var cnt := ReadAll(s, offset, n, buffer);
    ok := cnt == n;
    if ok {
      assert offset < offset + n <= s.size;
      assert buffer[..] == Contents(s)[offset..offset + n] + was[n..];
    }
  }

  /** Node::read_block. */
  method ReadBlock(dev: Store, ino: Inode, blockSize: nat, index: nat, buffer: array<Byte>) returns (ok: bool)
    requires Valid(dev) && ValidInode(ino) && blockSize >= 1024 && blockSize <= buffer.Length
    modifies buffer
    ensures ok <==> FileBlock(dev, ino, blockSize, index).Some?
    ensures ok ==> buffer[..blockSize] == FileBlock(dev, ino, blockSize, index).value
  {
    if index >= ino.sectors / (blockSize / 512) {
      return false;
    }
    var blockIndex: nat;
    if index < 12 {
      blockIndex := ino.direct[index];
    } else if index < 12 + blockSize / 4 {
      var word := new Byte[4];
      ok := ReadExactly(dev, IndirectAt(ino, blockSize, index), 4, word);
      if !ok {
        return;
      }
      blockIndex := Le32(word[..4]);
    } else {
      return false;
    }
    ok := ReadExactly(dev, blockIndex * blockSize % 0x1_0000_0000, blockSize, buffer);
  }

  function BlockCount(size: nat, blockSize: nat): nat
    requires blockSize > 0
  {
    (size + blockSize - 1) / blockSize
  }

  /** A file as something to be read by blocks.  A read that touches one of the blocks in `gaps` fails an
      assertion; the store has anything in their place. */
  datatype File = File(store: Store, gaps: set<nat>)

  function FileOf(dev: Store, ino: Inode, blockSize: nat): (f: File)
    requires Valid(dev) && ValidInode(ino) && blockSize >= 1024
    ensures Valid(f.store) && f.store.size == ino.size && f.store.blockSize == blockSize
  {
    CeilingCovers(ino.size, blockSize);
    var count := BlockCount(ino.size, blockSize);
    File(
      Store(ino.size, blockSize, seq(count, i requires 0 <= i < count =>
        match FileBlock(dev, ino, blockSize, i) case Some(b) => b case None => seq(blockSize, _ => 0))),
      set i: nat | i < count && FileBlock(dev, ino, blockSize, i) == None)
  }

  /** Block `i` holds one of the `n` bytes at `offset`. */
  predicate Touches(i: nat, blockSize: nat, offset: nat, n: nat) {
    i * blockSize < offset + n && offset < (i + 1) * blockSize
  }

  /** No gap holds one of these bytes. */
  predicate Clear(f: File, offset: nat, n: nat)
    requires Valid(f.store)
  {
    forall i: nat :: i in f.gaps ==> !Touches(i, f.store.blockSize, offset, n)
  }

  /** `n` bytes of a file, if it has them and they can be read. */
  function FilePiece(f: File, offset: nat, n: nat): Option<seq<Byte>>
    requires Valid(f.store)
  {
    if n == 0 then Some([]) else if Clear(f, offset, n) then Piece(f.store, offset, n) else None
  }

  /** A piece of a file is there exactly when each of its bytes is, and consists of them. */
  lemma PieceIsBytes(f: File, offset: nat, n: nat)
    requires Valid(f.store) && n > 0
    ensures FilePiece(f, offset, n).Some? <==> forall i: nat :: i < n ==> ByteAt(f, offset, i).Some?
    ensures FilePiece(f, offset, n).Some? ==>
      |FilePiece(f, offset, n).value| == n && forall i: nat :: i < n ==> ByteAt(f, offset, i) == Some([FilePiece(f, offset, n).value[i]])
  {
    ClearIsEach(f, offset, n);
    hide Clear, Valid, Contents;
    if Clear(f, offset, n) && offset + n <= f.store.size {
      forall i: nat | i < n
        ensures ByteAt(f, offset, i) == Some([FilePiece(f, offset, n).value[i]])
      {
        assert Contents(f.store)[offset + i..offset + i + 1] == [Contents(f.store)[offset..offset + n][i]];
      }
    } else if Clear(f, offset, n) {
      assert ByteAt(f, offset, n - 1) == None;
    } else {
      var i: nat :| i < n && !ClearByte(f, offset, i);
      assert ByteAt(f, offset, i) == None;
    }
  }

  function ByteAt(f: File, offset: nat, i: nat): Option<seq<Byte>>
    requires Valid(f.store)
  {
    FilePiece(f, offset + i, 1)
  }

  lemma ClearIsEach(f: File, offset: nat, n: nat)
    requires Valid(f.store) && n > 0
    ensures Clear(f, offset, n) <==> forall i: nat :: i < n ==> ClearByte(f, offset, i)
  {
    if Clear(f, offset, n) {
      forall i: nat | i < n
        ensures ClearByte(f, offset, i)
      {
        forall k: nat | k in f.gaps
          ensures !Touches(k, f.store.blockSize, offset + i, 1)
        {
          assert !Touches(k, f.store.blockSize, offset, n);
        }
      }
    } else {
      var k: nat :| k in f.gaps && Touches(k, f.store.blockSize, offset, n);
      SomeByteTouches(k, f.store.blockSize, offset, n);
      var i: nat :| i < n && TouchesByte(k, f.store.blockSize, offset, i);
      assert !ClearByte(f, offset, i);
    }
  }

  predicate ClearByte(f: File, offset: nat, i: nat)
    requires Valid(f.store)
  {
    Clear(f, offset + i, 1)
  }

  predicate TouchesByte(k: nat, blockSize: nat, offset: nat, i: nat) {
    Touches(k, blockSize, offset + i, 1)
  }

  lemma SomeByteTouches(k: nat, blockSize: nat, offset: nat, n: nat)
    requires n > 0 && blockSize > 0
    ensures Touches(k, blockSize, offset, n) <==> exists i: nat :: i < n && TouchesByte(k, blockSize, offset, i)
  {
    var lo, hi := k * blockSize, (k + 1) * blockSize;
    assert hi == lo + blockSize;
    if Touches(k, blockSize, offset, n) {
      var i: nat := if lo <= offset then 0 else lo - offset;
      assert i < n && TouchesByte(k, blockSize, offset, i);
    }
  }

  lemma CeilingCovers(size: nat, blockSize: nat)
    requires blockSize > 0
    ensures size <= BlockCount(size, blockSize) * blockSize
  {
    var q := BlockCount(size, blockSize);
    assert size + blockSize - 1 == q * blockSize + (size + blockSize - 1) % blockSize;
  }

  /** Reads of a file, stacked on reads of the device, give the bytes of the blocks its pointers name: every
      byte of the file is in a gap, or is the byte of the device in its place in that block. */
  lemma FileByte(dev: Store, ino: Inode, blockSize: nat, k: nat, j: nat)
    requires Valid(dev) && ValidInode(ino) && blockSize >= 1024 && j < blockSize && k * blockSize + j < ino.size
    ensures k < BlockCount(ino.size, blockSize) && 0 <= k * blockSize
    ensures
      var f := FileOf(dev, ino, blockSize);
      if FileBlock(dev, ino, blockSize, k) == None then k in f.gaps && FilePiece(f, k * blockSize + j, 1) == None
      else
        && Pointer(dev, ino, blockSize, k).Some?
        && var at := Pointer(dev, ino, blockSize, k).value * blockSize % 0x1_0000_0000;
        && k !in f.gaps && at + j < dev.size
        && FilePiece(f, k * blockSize + j, 1) == Some([Contents(dev)[at + j]])
  {
    var f := FileOf(dev, ino, blockSize);
    CeilingCovers(ino.size, blockSize);
    if k >= |f.store.blocks| { MulMono(|f.store.blocks|, k, blockSize); }
    InOneBlock(f, k, j);
    if FileBlock(dev, ino, blockSize, k).Some? {
      assert f.store.blocks[k] == FileBlock(dev, ino, blockSize, k).value;
      BlockByte(dev, ino, blockSize, k, j);
      hide FileOf, FileBlock, Pointer, Clear, Valid;
      StoreByte(f.store, k, j);
    }
  }

  lemma BlockByte(dev: Store, ino: Inode, blockSize: nat, k: nat, j: nat)
    requires Valid(dev) && ValidInode(ino) && blockSize >= 1024 && j < blockSize
    requires FileBlock(dev, ino, blockSize, k).Some?
    ensures Pointer(dev, ino, blockSize, k).Some?
    ensures
      var at := Pointer(dev, ino, blockSize, k).value * blockSize % 0x1_0000_0000;
      at + j < dev.size && FileBlock(dev, ino, blockSize, k).value[j] == Contents(dev)[at + j]
  {
  }

  lemma StoreByte(s: Store, k: nat, j: nat)
    requires Valid(s) && k < |s.blocks| && j < s.blockSize && k * s.blockSize + j < s.size
    ensures 0 <= k * s.blockSize && Piece(s, k * s.blockSize + j, 1) == Some([s.blocks[k][j]])
  {
    PieceOfBlock(s, k, j, 1);
    assert s.blocks[k][j..j + 1] == [s.blocks[k][j]];
  }

  /** One byte touches one block. */
  lemma InOneBlock(f: File, k: nat, j: nat)
    requires Valid(f.store) && j < f.store.blockSize
    ensures 0 <= k * f.store.blockSize && (Clear(f, k * f.store.blockSize + j, 1) <==> k !in f.gaps)
  {
    var at: nat := k * f.store.blockSize + j;
    forall i: nat
      ensures Touches(i, f.store.blockSize, at, 1) <==> i == k
    {
      TouchesOne(i, k, f.store.blockSize, j);
    }
    hide Touches;
  }

  lemma TouchesOne(i: nat, k: nat, blockSize: nat, j: nat)
    requires j < blockSize
    ensures 0 <= k * blockSize && (Touches(i, blockSize, k * blockSize + j, 1) <==> i == k)
  {
    assert (i + 1) * blockSize == i * blockSize + blockSize;
    if i < k {
      MulMono(i + 1, k, blockSize);
    } else if k < i {
      MulMono(k + 1, i, blockSize);
      assert (k + 1) * blockSize == k * blockSize + blockSize;
    }
  }

  lemma OneByte(b: seq<Byte>, c: seq<Byte>, j: nat, at: nat)
    requires j + 1 <= |b| && at + 1 <= |c| && b[j..j + 1] == c[at..at + 1]
    ensures b[j] == c[at]
  {
    assert b[j] == b[j..j + 1][0];
  }

  /** Block number `n` of the device, with its offset in 32 bits. */
  function DeviceBlock(dev: Store, blockSize: nat, n: nat): Option<seq<Byte>>
    requires Valid(dev)
  {
    var at := n * blockSize % 0x1_0000_0000;
    if at + blockSize <= dev.size then Some(Contents(dev)[at..at + blockSize]) else None
  }

  /** Which block of the device holds block `index` of a file: the first twelve are named by the i-node, the
      others by the words of the indirect block, in order; there are no more, and none past the sectors. */
  lemma BlockIsNamed(dev: Store, ino: Inode, blockSize: nat, index: nat)
    requires Valid(dev) && ValidInode(ino) && blockSize >= 1024
    ensures
      var block := FileBlock(dev, ino, blockSize, index);
      if index >= ino.sectors / (blockSize / 512) || index >= 12 + blockSize / 4 then block == None
      else if index < 12 then block == DeviceBlock(dev, blockSize, ino.direct[index])
      else
        0 <= ino.indirect * blockSize && (ino.indirect * blockSize + blockSize <= dev.size ==>
          var table := Contents(dev)[ino.indirect * blockSize..][..blockSize];
          block == DeviceBlock(dev, blockSize, Le32(table[4 * (index - 12)..4 * (index - 12) + 4])))
  {
    hide IndirectAt, Contents, Valid;
    if 12 <= index < 12 + blockSize / 4 {
      IndirectWord(dev, ino, blockSize, index);
    }
  }

  lemma IndirectWord(dev: Store, ino: Inode, blockSize: nat, index: nat)
    requires Valid(dev) && 12 <= index < 12 + blockSize / 4
    ensures 0 <= ino.indirect * blockSize
    ensures ino.indirect * blockSize + blockSize <= dev.size ==>
      var table := Contents(dev)[ino.indirect * blockSize..][..blockSize];
      Piece(dev, IndirectAt(ino, blockSize, index), 4) == Some(table[4 * (index - 12)..4 * (index - 12) + 4])
  {
    var base, i := ino.indirect * blockSize, 4 * (index - 12);
    hide Contents, Valid;
    assert i + 4 <= blockSize;
    if base + blockSize <= dev.size {
      InsideDevice(dev);
      assert IndirectAt(ino, blockSize, index) == base + i;
      assert Contents(dev)[base..][..blockSize][i..i + 4] == Contents(dev)[base + i..base + i + 4];
    }
  }

  lemma InsideDevice(dev: Store)
    requires Valid(dev)
    ensures dev.size < 0x1_0000_0000
  {
  }

  // ---------- holes ----------

  predicate AllZero(b: seq<Byte>) {
    forall j :: 0 <= j < |b| ==> b[j] == 0
  }

  /** A block of a file is a hole when its pointer, or the pointer to the block its pointer should be in,
      is null; the format wants it to read as zeros. */
  predicate IsHole(dev: Store, ino: Inode, blockSize: nat, index: nat)
    requires Valid(dev) && ValidInode(ino) && blockSize >= 1024
  {
    if index < 12 then ino.direct[index] == 0
    else index < 12 + blockSize / 4 && (ino.indirect == 0 || NullWord(dev, ino, blockSize, index))
  }

  predicate NullWord(dev: Store, ino: Inode, blockSize: nat, index: nat)
    requires Valid(dev) && index >= 12
  {
    match Piece(dev, IndirectAt(ino, blockSize, index), 4)
    case Some(b) => Le32(b) == 0
    case None => false
  }

  /** The device block a hole is read from: the first, or, when the indirect block is the null one, the block
      named by that word of the first. */
  function HoleBlock(dev: Store, ino: Inode, index: nat): Option<nat>
    requires Valid(dev)
  {
    if index < 12 || ino.indirect != 0 then Some(0)
    else
      match Piece(dev, 4 * (index - 12), 4)
      case Some(b) => Some(Le32(b))
      case None => None
  }

  /** Bytes `at` to `at + n` of a store are there, and zero. */
  predicate ZeroAt(s: Store, at: nat, n: nat)
    requires Valid(s)
  {
    at + n <= s.size && forall j :: at <= j < at + n ==> Contents(s)[j] == 0
  }

  lemma ZeroPiece(s: Store, at: nat, n: nat)
    requires Valid(s) && n > 0
    ensures (Piece(s, at, n).Some? && AllZero(Piece(s, at, n).value)) <==> ZeroAt(s, at, n)
  {
    if at + n <= s.size {
      var p := Contents(s)[at..at + n];
      assert forall j :: 0 <= j < n ==> p[j] == Contents(s)[at + j];
      assert forall j :: at <= j < at + n ==> Contents(s)[j] == p[j - at];
    }
  }

  lemma WithinOneBlock(index: nat, blockSize: nat)
    requires 12 <= index < 12 + blockSize / 4 && blockSize < 0x1_0000_0000
    ensures (0 * blockSize + (index - 12) * 4) % 0x1_0000_0000 == 4 * (index - 12)
  {
  }

  /** A hole reads as zeros exactly when its index is within the file's sectors, whose count leaves holes
      out, and the device block it is read from is there and zero. */
  lemma HoleReadsAsZeros(dev: Store, ino: Inode, blockSize: nat, index: nat)
    requires Valid(dev) && ValidInode(ino) && 1024 <= blockSize < 0x1_0000_0000 && IsHole(dev, ino, blockSize, index)
    ensures
      (FileBlock(dev, ino, blockSize, index).Some? && AllZero(FileBlock(dev, ino, blockSize, index).value)) <==>
        && index < ino.sectors / (blockSize / 512)
        && HoleBlock(dev, ino, index).Some?
        && ZeroAt(dev, HoleBlock(dev, ino, index).value * blockSize % 0x1_0000_0000, blockSize)
  {
    if index >= 12 && ino.indirect == 0 {
      WithinOneBlock(index, blockSize);
    }
    if index < ino.sectors / (blockSize / 512) {
      assert Pointer(dev, ino, blockSize, index) == HoleBlock(dev, ino, index);
      match HoleBlock(dev, ino, index)
      case Some(p) => ZeroPiece(dev, p * blockSize % 0x1_0000_0000, blockSize);
      case None =>
    }
  }

  /** A device of two blocks: the first starts with byte 1, and all else is zero. */
  function SmallDevice(): (s: Store)
    ensures Valid(s) && s.size == 2048
  {
    Store(2048, 1024, [seq(1024, i => if i == 0 then 1 else 0), seq(1024, _ => 0)])
  }

  function SparseInode(sectors: nat): Inode {
    Inode(13 * 1024, sectors, seq(12, _ => 0), 0)
  }

  lemma SmallBytes()
    ensures Contents(SmallDevice())[0] == 1
    ensures forall j :: 1 <= j < 2048 ==> Contents(SmallDevice())[j] == 0
  {
    var s := SmallDevice();
    forall j | 0 <= j < 2048
      ensures Contents(s)[j] == if j == 0 then 1 else 0
    {
      PieceOfBlock(s, j / 1024, j % 1024, 1);
      OneByte(s.blocks[j / 1024], Contents(s), j % 1024, j / 1024 * 1024 + j % 1024);
    }
  }

  /** One file on that device, all of it holes: its first block does not read as zeros; the block found
      through the null indirect pointer does, though the device's first block is not zero; and with the
      sectors counted as the format does, no block can be read at all. */
  lemma HolesThatFail()
    ensures forall i: nat :: i < 13 ==> IsHole(SmallDevice(), SparseInode(26), 1024, i)
    ensures var b := FileBlock(SmallDevice(), SparseInode(26), 1024, 0); b.Some? && !AllZero(b.value)
    ensures var b := FileBlock(SmallDevice(), SparseInode(26), 1024, 12); b.Some? && AllZero(b.value)
    ensures forall i: nat :: i < 13 ==> IsHole(SmallDevice(), SparseInode(0), 1024, i)
    ensures forall i: nat :: i < 13 ==> FileBlock(SmallDevice(), SparseInode(0), 1024, i) == None
  {
    var dev, ino := SmallDevice(), SparseInode(26);
    SmallBytes();
    assert Piece(dev, 0, 1024).value[0] == Contents(dev)[0];
    var first := Piece(dev, 0, 4).value;
    assert first[0] == Contents(dev)[0] && first[1] == Contents(dev)[1];
    assert first[2] == Contents(dev)[2] && first[3] == Contents(dev)[3];
    assert Le32(first) == 1;
    HoleReadsAsZeros(dev, ino, 1024, 12);
  }

  // ---------- directories ----------

  /** A record of the "Linked List Directory" format. */
  datatype Record = Record(inode: nat, name: seq<Byte>)

  /** A scan of a directory lists its records, fails an assertion, or meets a record of size zero and
      goes round for ever. */
  datatype Listing = Records(records: seq<Record>) | Fails | Endless

  /** The record at `offset` and the distance to the next. */
  function RecordAt(dir: File, offset: nat): Option<(Record, nat)>
    requires Valid(dir.store)
  {
    match (FilePiece(dir, offset, 4), FilePiece(dir, offset + 4, 2), FilePiece(dir, offset + 6, 1))
    case (Some(inode), Some(total), Some(length)) =>
      (match FilePiece(dir, offset + 8, length[0])
       case Some(name) => Some((Record(Le32(inode), name), Le16(total)))
       case None => None)
    case _ => None
  }

  function Scan(dir: File, offset: nat): Listing
    requires Valid(dir.store)
    decreases dir.store.size - offset
  {
    if offset >= dir.store.size then Records([])
    else
      match RecordAt(dir, offset)
      case None => Fails
      case Some((record, total)) =>
        if total == 0 then Endless else Prepend([record], Scan(dir, offset + total))
  }

  function Prepend(records: seq<Record>, l: Listing): Listing {
    match l
    case Records(more) => Records(records + more)
    case _ => l
  }

  /** A C string is what comes before its first zero byte. */
  function CString(s: seq<Byte>): seq<Byte> {
    if s == [] || s[0] == 0 then [] else [s[0]] + CString(s[1..])
  }

  lemma {:induction false} CStringIsPrefix(s: seq<Byte>)
    ensures CString(s) <= s && 0 !in CString(s) && (CString(s) == s || s[|CString(s)|] == 0)
  {
    if s != [] && s[0] != 0 {
      CStringIsPrefix(s[1..]);
      assert s == [s[0]] + s[1..];
    }
  }

  predicate Matches(record: Record, name: seq<Byte>) {
    CString(record.name) == CString(name)
  }

  /** The number the last record with that name has; zero if there is none. */
  function LastMatch(records: seq<Record>, name: seq<Byte>): nat {
    if records == [] then 0
    else
      var last := records[|records| - 1];
      if Matches(last, name) then last.inode else LastMatch(records[..|records| - 1], name)
  }

  lemma {:induction false} LastMatchIsLast(records: seq<Record>, name: seq<Byte>) returns (i: int)
    ensures -1 <= i < |records|
    ensures i == -1 ==> LastMatch(records, name) == 0
    ensures i >= 0 ==> Matches(records[i], name) && records[i].inode == LastMatch(records, name)
    ensures forall j :: i < j < |records| ==> !Matches(records[j], name)
  {
    i := |records| - 1;
    if i >= 0 && !Matches(records[i], name) {
      i := LastMatchIsLast(records[..i], name);
    }
  }

  lemma SameFrom(a: seq<Byte>, b: seq<Byte>, i: nat)
    requires i < |a| && i < |b|
    ensures a[i] != b[i] ==> CString(a[i..]) != CString(b[i..])
    ensures a[i] == b[i] ==>
      (CString(a[i..]) == CString(b[i..]) <==> a[i] == 0 || CString(a[i + 1..]) == CString(b[i + 1..]))
  {
    CStringFrom(a, i);
    CStringFrom(b, i);
  }

  lemma CStringFrom(a: seq<Byte>, i: nat)
    requires i < |a|
    ensures a[i] == 0 ==> CString(a[i..]) == []
    ensures a[i] != 0 ==> CString(a[i..]) != [] && CString(a[i..])[0] == a[i] && CString(a[i..])[1..] == CString(a[i + 1..])
    ensures a[i] != 0 ==> CString(a[i..]) == [a[i]] + CString(a[i + 1..])
  {
    assert a[i..][0] == a[i] && a[i..][1..] == a[i + 1..];
  }

  /** K::streq, on strings that end with a zero byte. */
  method StrEq(a: seq<Byte>, b: seq<Byte>) returns (same: bool)
    requires a != [] && a[|a| - 1] == 0 && b != [] && b[|b| - 1] == 0
    ensures same <==> CString(a) == CString(b)
  {
    var i := 0;
    assert a[0..] == a && b[0..] == b;
    while true
      invariant 0 <= i < |a| && i < |b|
      invariant CString(a[i..]) == CString(b[i..]) <==> CString(a) == CString(b)
      decreases |a| - i
    {
      SameFrom(a, b, i);
      hide CString;
      var x, y := a[i], b[i];
      if x != y {
        return false;
      }
      if x == 0 {
        return true;
      }
      i := i + 1;
    }
  }

  datatype Lookup = Number(n: nat) | Failed | Stuck

  /** What looking a name up in a directory gives. */
  function LookupIn(dir: File, name: seq<Byte>): Lookup
    requires Valid(dir.store)
  {
    match Scan(dir, 0)
    case Records(records) => Number(LastMatch(records, name))
    case Fails => Failed
    case Endless => Stuck
  }

  /** The same of a file, whose blocks must all be readable. */
  method ReadFile(f: File, offset: nat, n: nat, buffer: array<Byte>) returns (ok: bool)
    requires Valid(f.store) && n <= buffer.Length && n > 0
    modifies buffer
    ensures ok <==> FilePiece(f, offset, n).Some?
    ensures ok ==> buffer[..n] == FilePiece(f, offset, n).value
  {
    if !Clear(f, offset, n) {
      return false;
    }
    ok := ReadExactly(f.store, offset, n, buffer);
  }

  method ReadRecord(dir: File, offset: nat) returns (r: Option<(Record, nat)>)
    requires Valid(dir.store)
    ensures r == RecordAt(dir, offset)
  {
    var word, half, byte := new Byte[4], new Byte[2], new Byte[1];
    var ok := ReadFile(dir, offset, 4, word);
    if !ok { return None; }
    ok := ReadFile(dir, offset + 4, 2, half);
    if !ok { return None; }
    ok := ReadFile(dir, offset + 6, 1, byte);
    if !ok { return None; }
    var length := byte[0];
    assert byte[..1][0] == length;
    var name := [];
    if length > 0 {
      var buffer := new Byte[length];
      ok := ReadFile(dir, offset + 8, length, buffer);
      if !ok { return None; }
      name := buffer[..length];
    }
    r := Some((Record(Le32(word[..4]), name), Le16(half[..2])));
  }

  lemma ScanNext(dir: File, seen: seq<Record>, offset: nat)
    requires Valid(dir.store) && offset < dir.store.size
    ensures
      match RecordAt(dir, offset)
      case None => Scan(dir, offset) == Fails
      case Some((entry, total)) =>
        if total == 0 then Scan(dir, offset) == Endless
        else Prepend(seen, Scan(dir, offset)) == Prepend(seen + [entry], Scan(dir, offset + total))
  {
    hide RecordAt;
    match RecordAt(dir, offset)
    case None =>
    case Some((entry, total)) => if total != 0 { PrependTwice(seen, [entry], Scan(dir, offset + total)); }
  }

  /** What the rest of a scan says about the lookup. */
  lemma LookupFinds(dir: File, name: seq<Byte>, seen: seq<Record>, rest: Listing)
    requires Valid(dir.store) && Scan(dir, 0) == Prepend(seen, rest)
    ensures rest == Fails ==> LookupIn(dir, name) == Failed
    ensures rest == Endless ==> LookupIn(dir, name) == Stuck
    ensures rest == Records([]) ==> LookupIn(dir, name) == Number(LastMatch(seen, name))
  {
    hide Scan;
    assert seen + [] == seen;
  }

  lemma ScanDone(dir: File, offset: nat)
    requires Valid(dir.store) && offset >= dir.store.size
    ensures Scan(dir, offset) == Records([])
  {
  }

  lemma LastMatchAppend(seen: seq<Record>, entry: Record, name: seq<Byte>)
    ensures LastMatch(seen + [entry], name) == if Matches(entry, name) then entry.inode else LastMatch(seen, name)
  {
    assert (seen + [entry])[..|seen|] == seen;
  }

  method MatchesName(entry: Record, name: seq<Byte>) returns (same: bool)
    ensures same <==> Matches(entry, name)
  {
    same := StrEq(entry.name + [0], name + [0]);
    CStringOfTerminated(entry.name);
    CStringOfTerminated(name);
  }

  /** A lookup that has seen `seen`, stands at `offset` and would answer `out`. */
  ghost predicate Seen(dir: File, name: seq<Byte>, seen: seq<Record>, offset: nat, out: nat)
    requires Valid(dir.store)
  {
    Scan(dir, 0) == Prepend(seen, Scan(dir, offset)) && out == LastMatch(seen, name)
  }

  lemma NothingSeen(dir: File, name: seq<Byte>)
    requires Valid(dir.store)
    ensures Seen(dir, name, [], 0, 0)
  {
    PrependNothing(Scan(dir, 0));
    NoMatchYet(name);
  }

  lemma SeeNext(dir: File, name: seq<Byte>, seen: seq<Record>, offset: nat, out: nat)
    requires Valid(dir.store) && offset < dir.store.size && Seen(dir, name, seen, offset, out)
    ensures
      match RecordAt(dir, offset)
      case None => LookupIn(dir, name) == Failed
      case Some((entry, total)) =>
        if total == 0 then LookupIn(dir, name) == Stuck
        else Seen(dir, name, seen + [entry], offset + total, if Matches(entry, name) then entry.inode else out)
  {
    hide Scan, Prepend, LookupIn, LastMatch, Matches, RecordAt, Valid;
    ScanNext(dir, seen, offset);
    LookupFinds(dir, name, seen, Scan(dir, offset));
    if RecordAt(dir, offset).Some? { LastMatchAppend(seen, RecordAt(dir, offset).value.0, name); }
  }

  lemma AllSeen(dir: File, name: seq<Byte>, seen: seq<Record>, offset: nat, out: nat)
    requires Valid(dir.store) && offset >= dir.store.size && Seen(dir, name, seen, offset, out)
    ensures LookupIn(dir, name) == Number(out)
  {
    hide Prepend, LookupIn, LastMatch, RecordAt;
    ScanDone(dir, offset);
    LookupFinds(dir, name, seen, Records([]));
  }

  /** Node::find: every record is looked at, and the last match wins. */
  method FindIn(dir: File, name: seq<Byte>) returns (r: Lookup)
    requires Valid(dir.store)
    ensures r == LookupIn(dir, name)
  {
    hide Seen, LookupIn, Matches, RecordAt, Valid;
    var offset: nat, out: nat := 0, 0;
    ghost var seen: seq<Record> := [];
    NothingSeen(dir, name);
    while offset < dir.store.size
      invariant Seen(dir, name, seen, offset, out)
      decreases dir.store.size - offset
    {
      SeeNext(dir, name, seen, offset, out);
      var record := ReadRecord(dir, offset);
      match record {
        case None => return Failed;
        case Some((entry, total)) =>
          var same := MatchesName(entry, name);
          if same {
            out := entry.inode;
          }
          if total == 0 {
            return Stuck;
          }
          seen := seen + [entry];
          offset := offset + total;
      }
    }
    AllSeen(dir, name, seen, offset, out);
    r := Number(out);
  }

  lemma NoMatchYet(name: seq<Byte>)
    ensures LastMatch([], name) == 0
  {
  }

  lemma PrependNothing(l: Listing)
    ensures Prepend([], l) == l
  {
    if l.Records? {
      assert [] + l.records == l.records;
    }
  }

  lemma PrependTwice(a: seq<Record>, b: seq<Record>, l: Listing)
    ensures Prepend(a, Prepend(b, l)) == Prepend(a + b, l)
  {
    if l.Records? {
      assert a + (b + l.records) == a + b + l.records;
    }
  }

  lemma {:induction false} CStringOfTerminated(s: seq<Byte>)
    ensures CString(s + [0]) == CString(s)
  {
    if s != [] {
      assert (s + [0])[1..] == s[1..] + [0];
      CStringOfTerminated(s[1..]);
    }
  }

  // ---------- the format of a directory ----------

  /** A record as it is laid out: `kind` is the type byte, and `pad` fills it up to the next record. */
  datatype Entry = Entry(inode: nat, name: seq<Byte>, kind: Byte, pad: seq<Byte>)

  function EntrySize(e: Entry): nat {
    8 + |e.name| + |e.pad|
  }

  predicate ValidEntry(e: Entry) {
    e.inode < 0x1_0000_0000 && |e.name| < 0x100 && EntrySize(e) < 0x1_0000
  }

  /** Its fields in the order and widths of the format: inode, record size, name length, type, name. */
  function EntryBytes(e: Entry): (b: seq<Byte>)
    requires ValidEntry(e)
    ensures |b| == EntrySize(e)
  {
    Bytes32(e.inode) + Bytes16(EntrySize(e)) + [|e.name|] + [e.kind] + e.name + e.pad
  }

  predicate ValidEntries(es: seq<Entry>) {
    forall i :: 0 <= i < |es| ==> ValidEntry(es[i])
  }

  function DirectoryBytes(es: seq<Entry>): seq<Byte>
    requires ValidEntries(es)
  {
    if es == [] then [] else EntryBytes(es[0]) + DirectoryBytes(es[1..])
  }

  function RecordsOf(es: seq<Entry>): (r: seq<Record>) {
    seq(|es|, i requires 0 <= i < |es| => Record(es[i].inode, es[i].name))
  }

  lemma EntryFields(e: Entry, rest: seq<Byte>)
    requires ValidEntry(e)
    ensures
      var b := EntryBytes(e) + rest;
      && b[0..4] == Bytes32(e.inode) && b[4..6] == Bytes16(EntrySize(e)) && b[6] == |e.name|
      && b[8..8 + |e.name|] == e.name && b[EntrySize(e)..] == rest
  {
    var head := Bytes32(e.inode) + Bytes16(EntrySize(e)) + [|e.name|] + [e.kind];
    hide Bytes32, Bytes16;
    assert |head| == 8 && EntryBytes(e) == head + e.name + e.pad;
    assert EntryBytes(e) + rest == head + (e.name + (e.pad + rest));
    assert (head + (e.name + (e.pad + rest)))[8..] == e.name + (e.pad + rest);
  }

  /** Reading a record gives back what was laid out. */
  lemma RecordRoundTrip(f: File, offset: nat, e: Entry, rest: seq<Byte>)
    requires Valid(f.store) && f.gaps == {} && ValidEntry(e) && offset <= f.store.size
    requires Contents(f.store)[offset..] == EntryBytes(e) + rest
    ensures RecordAt(f, offset) == Some((Record(e.inode, e.name), EntrySize(e)))
    ensures offset + EntrySize(e) <= f.store.size && Contents(f.store)[offset + EntrySize(e)..] == rest
  {
    var c, b := Contents(f.store), EntryBytes(e) + rest;
    EntryFields(e, rest);
    BytesSpell(e.inode);
    BytesSpell(EntrySize(e));
    assert |b| == f.store.size - offset;
    hide EntryBytes, Bytes32, Bytes16, Le32, Le16, Contents, Valid;
    SliceOfRest(c, offset, b, 0, 4);
    SliceOfRest(c, offset, b, 4, 6);
    SliceOfRest(c, offset, b, 6, 7);
    SliceOfRest(c, offset, b, 8, 8 + |e.name|);
    assert b[6..7] == [|e.name|];
    assert c[offset + EntrySize(e)..] == b[EntrySize(e)..];
  }

  lemma SliceOfRest(c: seq<Byte>, offset: nat, b: seq<Byte>, lo: nat, hi: nat)
    requires offset <= |c| && c[offset..] == b && lo <= hi <= |b|
    ensures c[offset + lo..offset + hi] == b[lo..hi]
  {
    assert c[offset + lo..offset + hi] == c[offset..][lo..hi];
  }

  lemma ScanEntry(f: File, offset: nat, e: Entry, rest: seq<Byte>)
    requires Valid(f.store) && f.gaps == {} && ValidEntry(e) && offset <= f.store.size
    requires Contents(f.store)[offset..] == EntryBytes(e) + rest
    ensures offset + EntrySize(e) <= f.store.size && Contents(f.store)[offset + EntrySize(e)..] == rest
    ensures Scan(f, offset) == Prepend([Record(e.inode, e.name)], Scan(f, offset + EntrySize(e)))
  {
    RecordRoundTrip(f, offset, e, rest);
    hide RecordAt, EntryBytes, Valid, Contents, Prepend;
  }

  /** The scan of a directory lists the entries that were laid out, in order, and then whatever follows them. */
  lemma {:induction false} DirectoryRoundTrip(f: File, offset: nat, es: seq<Entry>, rest: seq<Byte>)
    requires Valid(f.store) && f.gaps == {} && ValidEntries(es) && offset <= f.store.size
    requires Contents(f.store)[offset..] == DirectoryBytes(es) + rest
    ensures |rest| <= f.store.size && Contents(f.store)[f.store.size - |rest|..] == rest
    ensures Scan(f, offset) == Prepend(RecordsOf(es), Scan(f, f.store.size - |rest|))
    decreases es
  {
    hide Scan, EntryBytes, Valid, Contents, RecordsOf, Prepend;
    assert |Contents(f.store)[offset..]| == |DirectoryBytes(es) + rest|;
    if es == [] {
      assert DirectoryBytes(es) + rest == rest;
      NoRecords();
      PrependNothing(Scan(f, offset));
    } else {
      assert DirectoryBytes(es) + rest == EntryBytes(es[0]) + (DirectoryBytes(es[1..]) + rest);
      ScanEntry(f, offset, es[0], DirectoryBytes(es[1..]) + rest);
      DirectoryRoundTrip(f, offset + EntrySize(es[0]), es[1..], rest);
      FirstRecord(es);
      PrependTwice([Record(es[0].inode, es[0].name)], RecordsOf(es[1..]), Scan(f, f.store.size - |rest|));
    }
  }

  /** A directory that consists of entries is listed in full; one that ends within a record's fixed fields fails an
      assertion; and one with a record of size zero is scanned for ever. */
  lemma DirectoryEnds(f: File, es: seq<Entry>, rest: seq<Byte>)
    requires Valid(f.store) && f.gaps == {} && ValidEntries(es) && Contents(f.store) == DirectoryBytes(es) + rest
    ensures rest == [] ==> Scan(f, 0) == Records(RecordsOf(es))
    ensures 0 < |rest| < 7 ==> Scan(f, 0) == Fails
    ensures |rest| >= 8 && |rest| >= 8 + rest[6] as int && rest[4] == rest[5] == 0 ==> Scan(f, 0) == Endless
  {
    hide EntryBytes, Valid, Contents, RecordsOf, DirectoryBytes;
    assert Contents(f.store)[0..] == Contents(f.store);
    DirectoryRoundTrip(f, 0, es, rest);
    var at := f.store.size - |rest|;
    if rest == [] {
      ScanDone(f, at);
      assert RecordsOf(es) + [] == RecordsOf(es);
    } else if |rest| >= 7 {
      SliceOfRest(Contents(f.store), at, rest, 0, 4);
      SliceOfRest(Contents(f.store), at, rest, 4, 6);
      SliceOfRest(Contents(f.store), at, rest, 6, 7);
    }
  }

  lemma NoRecords()
    ensures RecordsOf([]) == []
  {
  }

  lemma FirstRecord(es: seq<Entry>)
    requires es != []
    ensures RecordsOf(es) == [Record(es[0].inode, es[0].name)] + RecordsOf(es[1..])
  {
  }
}
