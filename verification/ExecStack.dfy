/**
 The stack a new program starts with: argc and argv, the pointer table, and the strings
 it points to, laid out upwards from the stack pointer.
 */
module ExecStack {
  import opened Basics

  /** What the new program's stack pointer will be. */
  const USER_ESP := 0xefff_e000

  /** A C string with what follows its terminator in the buffer it is copied from, up to a multiple of four. */
  predicate Padded(arg: seq<Byte>, buffer: seq<Byte>) {
    && 0 !in arg && |buffer| == 4 * Words(arg)
    && buffer[..|arg|] == arg && buffer[|arg|] == 0
  }

  /** How many words a string takes with its terminator. */
  function Words(arg: seq<Byte>): (n: nat)
    ensures |arg| < 4 * n <= |arg| + 4
  {
    (|arg| + 1 + 3) / 4
  }

  function TotalWords(args: seq<seq<Byte>>): nat {
    if args == [] then 0 else TotalWords(args[..|args| - 1]) + Words(args[|args| - 1])
  }

  /** The size computed in exec: argc, argv, the table with its null, and the strings. */
  method BytesNeeded(args: seq<seq<Byte>>) returns (bytes: nat, lens: seq<nat>)
    ensures bytes == 4 + 4 * (|args| + 1) + 4 + 4 * TotalWords(args)
    ensures |lens| == |args| && forall i :: 0 <= i < |args| ==> lens[i] == Words(args[i])
  {
    bytes := 4 + 4 * (|args| + 1) + 4;
    lens := [];
    for i := 0 to |args|
      invariant bytes == 4 + 4 * (|args| + 1) + 4 + 4 * TotalWords(args[..i])
      invariant |lens| == i && forall k :: 0 <= k < i ==> lens[k] == Words(args[k])
    {
      var length := |args[i]| + 1;
      var aligned := (length + 3) / 4 * 4;
      lens := lens + [aligned / 4];
      bytes := bytes + aligned;
      assert args[..i + 1][..i] == args[..i];
    }
    assert args[..|args|] == args;
  }

  // ---------- memory ----------

  /** A word, least significant byte first. */
  function Word(m: seq<Byte>, at: nat): int {
    if at + 4 <= |m| then Le32(m[at..at + 4]) else 0
  }

  lemma BytesOfWord(v: int)
    requires 0 <= v < 0x1_0000_0000
    ensures Word(Bytes32(v), 0) == v
  {
  }

  /** The C string at an offset. */
  function StringAt(m: seq<Byte>, at: nat): seq<Byte>
    decreases |m| - at
  {
    if at >= |m| || m[at] == 0 then [] else [m[at]] + StringAt(m, at + 1)
  }

  /** Memory from the stack pointer up, and what a program decodes from it. */
  predicate Decodes(m: seq<Byte>, args: seq<seq<Byte>>) {
    && Word(m, 0) == |args|
    && Word(m, 4) == 0xefff_e008
    && Word(m, 8 + 4 * |args|) == 0
    && forall i :: 0 <= i < |args| ==> PointsTo(m, i, args[i])
  }

  predicate PointsTo(m: seq<Byte>, i: nat, arg: seq<Byte>) {
    var p := Word(m, 8 + 4 * i) - 0xefff_e000;
    0 <= p < |m| && StringAt(m, p) == arg
  }

  // ---------- the layout ----------

  /** Where string `i` goes, counted from the stack pointer. */
  function StringOffset(args: seq<seq<Byte>>, i: nat): nat
    requires i <= |args|
  {
    12 + 4 * |args| + 4 * TotalWords(args[..i])
  }

  lemma NextOffset(args: seq<seq<Byte>>, i: nat)
    requires i < |args|
    ensures StringOffset(args, i + 1) == StringOffset(args, i) + 4 * Words(args[i])
  {
    assert args[..i + 1][..i] == args[..i];
  }

  lemma {:induction false} OffsetsGrow(args: seq<seq<Byte>>, i: nat, k: nat)
    requires i < k <= |args|
    ensures StringOffset(args, i) + 4 * Words(args[i]) <= StringOffset(args, k)
    decreases k - i
  {
    NextOffset(args, k - 1);
    if i < k - 1 {
      OffsetsGrow(args, i, k - 1);
    }
  }

  lemma {:induction false} StringIs(m: seq<Byte>, at: nat, arg: seq<Byte>)
    requires at + |arg| < |m| && m[at..at + |arg|] == arg && m[at + |arg|] == 0 && 0 !in arg
    ensures StringAt(m, at) == arg
    decreases |arg|
  {
    if arg != [] {
      assert m[at] == m[at..at + |arg|][0] == arg[0];
      assert m[at + 1..at + |arg|] == arg[1..];
      StringIs(m, at + 1, arg[1..]);
    }
  }

  /** One string is in place and its address recorded. */
  predicate Placed(m: seq<Byte>, offset: nat, buffer: seq<Byte>) {
    offset + |buffer| <= |m| && m[offset..offset + |buffer|] == buffer
  }

  /** What lies outside [lo, hi) is the same. */
  predicate SameOutside(was: seq<Byte>, now: seq<Byte>, lo: nat, hi: nat) {
    |now| == |was| && forall k :: 0 <= k < |was| && (k < lo || hi <= k) ==> now[k] == was[k]
  }

  lemma PlacedKept(was: seq<Byte>, now: seq<Byte>, lo: nat, hi: nat, offset: nat, buffer: seq<Byte>)
    requires SameOutside(was, now, lo, hi) && Placed(was, offset, buffer) && (hi <= offset || offset + |buffer| <= lo)
    ensures Placed(now, offset, buffer)
  {
    assert forall k :: offset <= k < offset + |buffer| ==> now[k] == was[k];
  }

  lemma WordKept(was: seq<Byte>, now: seq<Byte>, lo: nat, hi: nat, at: nat)
    requires SameOutside(was, now, lo, hi) && at + 4 <= |was| && (hi <= at || at + 4 <= lo)
    ensures Word(now, at) == Word(was, at)
  {
  }

  method Store(mem: array<Byte>, at: nat, v: int)
    requires at + 4 <= mem.Length && 0 <= v < 0x1_0000_0000
    modifies mem
    ensures Word(mem[..], at) == v && SameOutside(old(mem[..]), mem[..], at, at + 4)
  {
    BytesOfWord(v);
    var b := Bytes32(v);
    hide Bytes32;
    mem[at], mem[at + 1], mem[at + 2], mem[at + 3] := b[0], b[1], b[2], b[3];
  }

  method CopyIn(mem: array<Byte>, at: nat, buffer: seq<Byte>)
    requires at + |buffer| <= mem.Length
    modifies mem
    ensures Placed(mem[..], at, buffer) && SameOutside(old(mem[..]), mem[..], at, at + |buffer|)
  {
    forall k | 0 <= k < |buffer| {
      mem[at + k] := buffer[k];
    }
  }

  /** The pages mapped for the stack, all zero: enough for what goes there and one word more, and no
      page too many. */
  method NewStack(bytesNeeded: nat) returns (mem: array<Byte>)
    ensures fresh(mem) && mem.Length % 4096 == 0 && bytesNeeded + 4 <= mem.Length < bytesNeeded + 4100
    ensures forall i :: 0 <= i < mem.Length ==> mem[i] == 0
  {
    var mapped := 0;
    while mapped < bytesNeeded + 4
      invariant mapped % 4096 == 0 && mapped < bytesNeeded + 4100
      decreases bytesNeeded + 4 - mapped
    {
      mapped := mapped + 4096;
    }
    mem := new Byte[mapped](_ => 0);
  }

  // ---------- building it ----------

  predicate Arguments(args: seq<seq<Byte>>, buffers: seq<seq<Byte>>) {
    |buffers| == |args| && forall i :: 0 <= i < |args| ==> Padded(args[i], buffers[i])
  }

  /** The strings from number `i` on are in place. */
  ghost predicate StringsPlaced(m: seq<Byte>, args: seq<seq<Byte>>, buffers: seq<seq<Byte>>, i: nat)
    requires |buffers| == |args|
  {
    forall k :: i <= k < |args| ==> Placed(m, StringOffset(args, k), buffers[k])
  }

  /** The strings, last first; `addrs` is where they are. */
  method PlaceStrings(mem: array<Byte>, args: seq<seq<Byte>>, buffers: seq<seq<Byte>>, lens: seq<nat>, esp0: nat)
      returns (addrs: seq<nat>, esp: nat)
    requires Arguments(args, buffers) && |lens| == |args| && forall i :: 0 <= i < |args| ==> lens[i] == Words(args[i])
    requires esp0 == StringOffset(args, |args|) <= mem.Length
    modifies mem
    ensures esp == 12 + 4 * |args| && StringsPlaced(mem[..], args, buffers, 0)
    ensures |addrs| == |args| && forall k :: 0 <= k < |args| ==> addrs[k] == StringOffset(args, k)
  {
    esp := esp0;
    addrs := seq(|args|, _ => 0);
    var i := |args|;
    while i > 0
      invariant 0 <= i <= |args| && esp == StringOffset(args, i) <= mem.Length && |addrs| == |args|
      invariant forall k :: i <= k < |args| ==> addrs[k] == StringOffset(args, k)
      invariant StringsPlaced(mem[..], args, buffers, i)
    {
      i := i - 1;
      ghost var was := mem[..];
      NextOffset(args, i);
      assert Padded(args[i], buffers[i]);
      esp := esp - 4 * lens[i];
      addrs := addrs[i := esp];
      CopyIn(mem, esp, buffers[i]);
      forall k | i < k < |args|
        ensures Placed(mem[..], StringOffset(args, k), buffers[k])
      {
        OffsetsGrow(args, i, k);
        PlacedKept(was, mem[..], esp, esp + |buffers[i]|, StringOffset(args, k), buffers[k]);
      }
    }
    assert args[..0] == [];
  }

  /** The pointer table from entry `i` on, and its null. */
  ghost predicate TablePlaced(m: seq<Byte>, args: seq<seq<Byte>>, i: nat) {
    && Word(m, 8 + 4 * |args|) == 0
    && forall k {:trigger StringOffset(args, k)} :: i <= k < |args| ==> Word(m, 8 + 4 * k) == USER_ESP + StringOffset(args, k)
  }

  lemma StringsKept(was: seq<Byte>, now: seq<Byte>, args: seq<seq<Byte>>, buffers: seq<seq<Byte>>, lo: nat)
    requires |buffers| == |args| && StringsPlaced(was, args, buffers, 0)
    requires SameOutside(was, now, lo, lo + 4) && lo + 4 <= 12 + 4 * |args|
    ensures StringsPlaced(now, args, buffers, 0)
  {
    forall k | 0 <= k < |args|
      ensures Placed(now, StringOffset(args, k), buffers[k])
    {
      PlacedKept(was, now, lo, lo + 4, StringOffset(args, k), buffers[k]);
    }
  }

  lemma TableKept(was: seq<Byte>, now: seq<Byte>, args: seq<seq<Byte>>, i: nat, lo: nat)
    requires TablePlaced(was, args, i) && 12 + 4 * |args| <= |was|
    requires SameOutside(was, now, lo, lo + 4) && lo + 4 <= 8 + 4 * i <= 8 + 4 * |args|
    ensures TablePlaced(now, args, i)
  {
    WordKept(was, now, lo, lo + 4, 8 + 4 * |args|);
    forall k | i <= k < |args|
      ensures Word(now, 8 + 4 * k) == Word(was, 8 + 4 * k)
    {
      WordKept(was, now, lo, lo + 4, 8 + 4 * k);
    }
  }

  lemma TableGrows(m: seq<Byte>, args: seq<seq<Byte>>, i: nat)
    requires i < |args| && TablePlaced(m, args, i + 1) && Word(m, 8 + 4 * i) == USER_ESP + StringOffset(args, i)
    ensures TablePlaced(m, args, i)
  {
    hide Word, StringOffset;
  }

  /** The null, then the addresses, last first. */
  method PlaceTable(mem: array<Byte>, args: seq<seq<Byte>>, ghost buffers: seq<seq<Byte>>, addrs: seq<nat>, esp0: nat)
      returns (esp: nat)
    requires |buffers| == |args| && StringsPlaced(mem[..], args, buffers, 0) && esp0 == 12 + 4 * |args| <= mem.Length
    requires |addrs| == |args| && forall k :: 0 <= k < |args| ==> addrs[k] == StringOffset(args, k)
    requires USER_ESP + StringOffset(args, |args|) <= 0x1_0000_0000
    modifies mem
    ensures esp == 8 && StringsPlaced(mem[..], args, buffers, 0) && TablePlaced(mem[..], args, 0)
  {
    esp := esp0 - 4;
    ghost var was := mem[..];
    Store(mem, esp, 0);
    StringsKept(was, mem[..], args, buffers, esp);
    var i := |args|;
    assert TablePlaced(mem[..], args, |args|);
    hide StringsPlaced, TablePlaced, Word;
    while i > 0
      invariant 0 <= i <= |args| && esp == 8 + 4 * i
      invariant StringsPlaced(mem[..], args, buffers, 0) && TablePlaced(mem[..], args, i)
    {
      i := i - 1;
      esp := esp - 4;
      was := mem[..];
      OffsetsGrow(args, i, |args|);
      Store(mem, esp, USER_ESP + addrs[i]);
      StringsKept(was, mem[..], args, buffers, esp);
      TableKept(was, mem[..], args, i + 1, esp);
      TableGrows(mem[..], args, i);
    }
  }

  /** setup_exec_stack: offsets here are from the stack pointer the program will have. */
  method SetupExecStack(args: seq<seq<Byte>>, buffers: seq<seq<Byte>>, bytesNeeded: nat, lens: seq<nat>)
      returns (mem: array<Byte>, esp: nat)
    requires Arguments(args, buffers) && |lens| == |args| && forall i :: 0 <= i < |args| ==> lens[i] == Words(args[i])
    requires bytesNeeded == 4 + 4 * (|args| + 1) + 4 + 4 * TotalWords(args)
    requires USER_ESP + bytesNeeded + 4100 <= 0x1_0000_0000
    ensures fresh(mem) && esp == 0 && mem.Length % 4096 == 0 && bytesNeeded + 4 <= mem.Length < bytesNeeded + 4100
    ensures Decodes(mem[..], args)
    ensures forall i :: 0 <= i < |args| ==> PointedAt(mem[..], i, StringOffset(args, i))
  {
    mem := NewStack(bytesNeeded);
    assert args[..|args|] == args;
    assert StringOffset(args, |args|) == bytesNeeded && 12 + 4 * |args| <= bytesNeeded && |buffers| == |args|;
    hide PointedAt, StringOffset, StringsPlaced, TablePlaced, Word, Decodes, Arguments, TotalWords, Words;
    var addrs;
    addrs, esp := PlaceStrings(mem, args, buffers, lens, bytesNeeded);
    esp := PlaceTable(mem, args, buffers, addrs, esp);
    esp := PlaceHeader(mem, args, buffers, esp);
    PlacedDecodes(mem[..], args, buffers);
    PointersPlaced(mem[..], args);
  }

  /** Entry `i` of the table is the address of what lies `offset` above the stack pointer. */
  predicate PointedAt(m: seq<Byte>, i: nat, offset: nat) {
    Word(m, 8 + 4 * i) == 0xefff_e000 + offset
  }

  lemma PointersPlaced(m: seq<Byte>, args: seq<seq<Byte>>)
    requires TablePlaced(m, args, 0)
    ensures forall i :: 0 <= i < |args| ==> PointedAt(m, i, StringOffset(args, i))
  {
    hide Word, StringOffset;
  }

  /** The strings follow the table and one another without a gap: argc, argv, the table and its null are before
      the first, each takes its length and terminator rounded up to words, and the last ends the layout. */
  lemma OffsetsAreContiguous(args: seq<seq<Byte>>, i: nat)
    requires i < |args|
    ensures StringOffset(args, 0) == 4 + 4 + 4 * |args| + 4
    ensures StringOffset(args, i + 1) == StringOffset(args, i) + (|args[i]| + 1 + 3) / 4 * 4
  {
    assert args[..i + 1][..i] == args[..i];
  }

  /** The pointer to the table, and argc. */
  method PlaceHeader(mem: array<Byte>, args: seq<seq<Byte>>, ghost buffers: seq<seq<Byte>>,
          esp0: nat) returns (esp: nat)
    requires |buffers| == |args| && StringsPlaced(mem[..], args, buffers, 0) && TablePlaced(mem[..], args, 0)
    requires esp0 == 8 && 12 + 4 * |args| <= mem.Length && |args| < 0x1_0000_0000
    modifies mem
    ensures esp == 0 && StringsPlaced(mem[..], args, buffers, 0) && TablePlaced(mem[..], args, 0)
    ensures Word(mem[..], 0) == |args| && Word(mem[..], 4) == USER_ESP + 8
  {
    hide StringsPlaced, TablePlaced, Word;
    esp := esp0 - 4;
    ghost var was := mem[..];
    Store(mem, esp, USER_ESP + esp + 4);
    StringsKept(was, mem[..], args, buffers, esp);
    TableKept(was, mem[..], args, 0, esp);
    esp := esp - 4;
    was := mem[..];
    Store(mem, esp, |args|);
    StringsKept(was, mem[..], args, buffers, esp);
    TableKept(was, mem[..], args, 0, esp);
    WordKept(was, mem[..], 0, 4, 4);
  }

  lemma PlacedDecodes(m: seq<Byte>, args: seq<seq<Byte>>, buffers: seq<seq<Byte>>)
    requires Arguments(args, buffers) && StringsPlaced(m, args, buffers, 0) && TablePlaced(m, args, 0)
    requires Word(m, 0) == |args| && Word(m, 4) == USER_ESP + 8
    ensures Decodes(m, args)
  {
    forall i | 0 <= i < |args|
      ensures PointsTo(m, i, args[i])
    {
      var p := StringOffset(args, i);
      assert Padded(args[i], buffers[i]) && Placed(m, p, buffers[i]);
      assert m[p..p + |args[i]|] == buffers[i][..|args[i]|];
      assert m[p + |args[i]|] == m[p..p + |buffers[i]|][|args[i]|];
      StringIs(m, p, args[i]);
    }
  }

  /** Memory decodes to one list of strings only. */
  lemma DecodingIsUnique(m: seq<Byte>, args: seq<seq<Byte>>, others: seq<seq<Byte>>)
    requires Decodes(m, args) && Decodes(m, others)
    ensures args == others
  {
    assert forall i :: 0 <= i < |args| ==> PointsTo(m, i, args[i]) && PointsTo(m, i, others[i]) && args[i] == others[i];
  }
}
