/**
 Path lookup on a volume: i-nodes read from the device, directories read through their
 block pointers, and the components of a path looked up one after the other.
 */
module Paths {
  import opened Basics
  import opened BlockIo
  import opened Ext2

  // ---------- components of a path ----------

  const SLASH: Byte := 47

  /** How long the name at the head of a path is. */
  function NameLength(path: seq<Byte>): (n: nat)
    ensures n <= |path|
    ensures forall i :: 0 <= i < n ==> path[i] != SLASH
    ensures n < |path| ==> path[n] == SLASH
  {
    if path == [] || path[0] == SLASH then 0 else 1 + NameLength(path[1..])
  }

  /** The names between the slashes of a path. */
  function Components(path: seq<Byte>): seq<seq<Byte>> {
    if path == [] then []
    else if path[0] == SLASH then Components(path[1..])
    else [path[..NameLength(path)]] + Components(path[NameLength(path)..])
  }

  // ---------- i-nodes ----------

  /** A mounted volume: the device, and what the super block and the group table say.  `tables` holds the
      first block of each group's i-node table. */
  datatype Volume = Volume(
    dev: Store, blockSize: nat, nodes: nat, blocks: nat, nodesPerGroup: nat, nodeSize: nat, tables: seq<nat>)

  /** How many bytes of an i-node are read. */
  const NODE_BYTES := 128

  /** What an i-node says: its mode, and what reading its data uses. */
  datatype Node = Node(mode: nat, data: Inode)

  predicate IsDir(node: Node) {
    node.mode / 0x1000 == 4
  }

  function Field(b: seq<Byte>, at: nat): nat
    requires at + 4 <= |b|
  {
    Le32(b[at..at + 4])
  }

  function Decode(b: seq<Byte>): (n: Node)
    requires |b| == NODE_BYTES
    ensures ValidInode(n.data)
  {
    LittleEndianRange(b[4..8]);
    Node(Le16(b[0..2]), Inode(Field(b, 4), Field(b, 28), seq(12, i requires 0 <= i < 12 => Field(b, 40 + 4 * i)), Field(b, 88)))
  }

  lemma LittleEndianRange(b: seq<Byte>)
    requires |b| == 4
    ensures Le32(b) < 0x1_0000_0000
  {
  }

  predicate Mounted(v: Volume) {
    Valid(v.dev) && v.blockSize >= 1024 && v.nodesPerGroup > 0
  }

  /** Where an i-node is on the device, in 32-bit arithmetic; nowhere if an assertion fails. */
  function NodeOffset(v: Volume, number: nat): Option<nat>
    requires Mounted(v)
  {
    if number == 0 || number > v.nodes || (number - 1) / v.nodesPerGroup >= |v.tables| then None
    else
      var base := v.tables[(number - 1) / v.nodesPerGroup];
      if base > v.blocks then None
      else Some((base * v.blockSize + (number - 1) % v.nodesPerGroup * v.nodeSize) % 0x1_0000_0000)
  }

  /** The i-node with that number, as the device holds it. */
  function NodeAt(v: Volume, number: nat): (n: Option<Node>)
    requires Mounted(v)
    ensures n.Some? ==> ValidInode(n.value.data)
  {
    match NodeOffset(v, number)
    case None => None
    case Some(offset) =>
      match Piece(v.dev, offset, NODE_BYTES)
      case Some(b) => Some(Decode(b))
      case None => None
  }

  /** Ext2::get_node. */
  method GetNode(v: Volume, number: nat) returns (r: Option<Node>)
    requires Mounted(v)
    ensures r == NodeAt(v, number)
  {
    if !(number > 0) || !(number <= v.nodes) {
      return None;
    }
    var index := number - 1;
    var group := index / v.nodesPerGroup;
    if !(group < |v.tables|) {
      return None;
    }
    var base := v.tables[group];
    if !(base <= v.blocks) {
      return None;
    }
    var offset := (base * v.blockSize + index % v.nodesPerGroup * v.nodeSize) % 0x1_0000_0000;
    var buffer := new Byte[NODE_BYTES];
    var ok := ReadExactly(v.dev, offset, NODE_BYTES, buffer);
    if !ok {
      return None;
    }
    assert buffer[..] == buffer[..NODE_BYTES];
    r := Some(Decode(buffer[..]));
  }

  /** An i-node as it is laid out: all fields of the format, `rest` being what follows the indirect pointer. */
  datatype RawNode = RawNode(
    mode: nat, uid: nat, size: nat, times: seq<nat>, gid: nat, links: nat, sectors: nat, flags: nat, os: nat,
    direct: seq<nat>, indirect: nat, rest: seq<Byte>)

  predicate AllWords(s: seq<nat>) {
    forall i :: 0 <= i < |s| ==> s[i] < 0x1_0000_0000
  }

  predicate ValidRaw(r: RawNode) {
    && r.mode < 0x1_0000 && r.uid < 0x1_0000 && r.gid < 0x1_0000 && r.links < 0x1_0000
    && r.size < WORD && r.sectors < WORD && r.flags < WORD && r.os < WORD && r.indirect < WORD
    && AllWords(r.times) && AllWords(r.direct)
    && |r.times| == 4 && |r.direct| == 12 && |r.rest| == 36
  }

  function WordBytes(s: seq<nat>): (b: seq<Byte>)
    requires AllWords(s)
    ensures |b| == 4 * |s|
  {
    if s == [] then [] else Bytes32(s[0]) + WordBytes(s[1..])
  }

  /** Modes and owners and counts are half words, all else are words. */
  function NodeHead(r: RawNode): (b: seq<Byte>)
    requires ValidRaw(r)
    ensures |b| == 28
  {
    Bytes16(r.mode) + Bytes16(r.uid) + Bytes32(r.size) + WordBytes(r.times) + Bytes16(r.gid) + Bytes16(r.links)
  }

  function NodeTail(r: RawNode): (b: seq<Byte>)
    requires ValidRaw(r)
    ensures |b| == 100
  {
    Bytes32(r.sectors) + Bytes32(r.flags) + Bytes32(r.os) + WordBytes(r.direct) + Bytes32(r.indirect) + r.rest
  }

  lemma {:induction false} WordAt(s: seq<nat>, i: nat)
    requires AllWords(s) && i < |s|
    ensures WordBytes(s)[4 * i..4 * i + 4] == Bytes32(s[i])
    decreases s
  {
    hide Bytes32;
    assert WordBytes(s) == Bytes32(s[0]) + WordBytes(s[1..]);
    if i > 0 {
      WordAt(s[1..], i - 1);
      AfterFour(Bytes32(s[0]), WordBytes(s[1..]), 4 * (i - 1));
    }
  }

  lemma AfterFour(a: seq<Byte>, b: seq<Byte>, at: nat)
    requires |a| == 4 && at + 4 <= |b|
    ensures (a + b)[at + 4..at + 8] == b[at..at + 4]
  {
  }

  lemma HeadFields(r: RawNode)
    requires ValidRaw(r)
    ensures NodeHead(r)[0..2] == Bytes16(r.mode) && NodeHead(r)[4..8] == Bytes32(r.size)
  {
    hide Bytes16, Bytes32, WordBytes;
  }

  lemma TailFields(r: RawNode)
    requires ValidRaw(r)
    ensures NodeTail(r)[0..4] == Bytes32(r.sectors) && NodeTail(r)[60..64] == Bytes32(r.indirect)
    ensures NodeTail(r)[12..60] == WordBytes(r.direct)
  {
    hide Bytes32, WordBytes;
  }

  /** Decoding gives back what was laid out. */
  lemma NodeRoundTrip(r: RawNode)
    requires ValidRaw(r)
    ensures Decode(NodeHead(r) + NodeTail(r)) == Node(r.mode, Inode(r.size, r.sectors, r.direct, r.indirect))
  {
    var b, head, tail := NodeHead(r) + NodeTail(r), NodeHead(r), NodeTail(r);
    HeadFields(r);
    TailFields(r);
    BytesSpell(r.mode);
    BytesSpell(r.size);
    BytesSpell(r.sectors);
    BytesSpell(r.indirect);
    hide NodeHead, NodeTail, Bytes16, Bytes32, Le16, Le32;
    assert b[0..2] == head[0..2] && b[4..8] == head[4..8];
    assert b[28..32] == tail[0..4] && b[88..92] == tail[60..64];
    forall i | 0 <= i < 12
      ensures Field(b, 40 + 4 * i) == r.direct[i]
    {
      WordAt(r.direct, i);
      BytesSpell(r.direct[i]);
      assert b[40 + 4 * i..44 + 4 * i] == tail[12..60][4 * i..4 * i + 4];
    }
  }

  /** get_node finds node `index` of a group at its place in the group's table, and decodes it. */
  lemma NodeInTable(v: Volume, group: nat, index: nat, r: RawNode)
    requires Mounted(v) && group < |v.tables| && index < v.nodesPerGroup && v.tables[group] <= v.blocks
    requires group * v.nodesPerGroup + index + 1 <= v.nodes && ValidRaw(r)
    requires
      var at := v.tables[group] * v.blockSize + index * v.nodeSize;
      0 <= at && at + 128 <= v.dev.size && Contents(v.dev)[at..at + 128] == NodeHead(r) + NodeTail(r)
    ensures 0 <= group * v.nodesPerGroup
    ensures
      NodeAt(v, group * v.nodesPerGroup + index + 1) == Some(Node(r.mode, Inode(r.size, r.sectors, r.direct, r.indirect)))
  {
    hide NodeHead, NodeTail, Decode, Contents, ValidRaw, NodeOffset, Valid;
    PlaceInTable(v, group, index);
    NodeRoundTrip(r);
  }

  lemma PlaceInTable(v: Volume, group: nat, index: nat)
    requires Mounted(v) && group < |v.tables| && index < v.nodesPerGroup && v.tables[group] <= v.blocks
    requires group * v.nodesPerGroup + index + 1 <= v.nodes
    requires var at := v.tables[group] * v.blockSize + index * v.nodeSize; 0 <= at < v.dev.size
    ensures 0 <= group * v.nodesPerGroup
    ensures NodeOffset(v, group * v.nodesPerGroup + index + 1) == Some(v.tables[group] * v.blockSize + index * v.nodeSize)
  {
    InsideDevice(v.dev);
    hide Valid;
    GroupAndIndex(group, index, v.nodesPerGroup);
  }

  lemma GroupAndIndex(group: nat, index: nat, n: nat)
    requires index < n
    ensures 0 <= group * n && (group * n + index) / n == group && (group * n + index) % n == index
  {
    var q, m := (group * n + index) / n, (group * n + index) % n;
    assert group * n + index == q * n + m;
    assert (q + 1) * n == q * n + n && (group + 1) * n == group * n + n;
    if q < group {
      MulMono(q + 1, group, n);
    } else if group < q {
      MulMono(group + 1, q, n);
    }
  }

  /** No other numbers name a node: not 0, none above the count, none of a group or table that is not there. */
  lemma NoSuchNode(v: Volume, number: nat)
    requires Mounted(v)
    ensures number == 0 || number > v.nodes ==> NodeAt(v, number) == None
    ensures
      var group := (number - 1) / v.nodesPerGroup;
      number > 0 && (group >= |v.tables| || v.tables[group] > v.blocks) ==> NodeAt(v, number) == None
  {
  }

  /** A directory is what has type 4 in the top four bits of its mode. */
  lemma TypeOfMode(m: bv16)
    ensures m >> 12 == 4 <==> 0x4000 <= m < 0x5000
  {
  }

  lemma DirectoriesByMode(node: Node)
    ensures IsDir(node) <==> 0x4000 <= node.mode < 0x5000
  {
  }

  // ---------- lookup ----------

  /** Where a lookup has got to: a node, nowhere, or the end of the machine. */
  datatype Place = At(number: nat) | Missing | Halted | Hung

  predicate Exists(v: Volume, p: Place) {
    Mounted(v) && (p.At? ==> NodeAt(v, p.number).Some?)
  }

  /** What the name gives in a directory, read block by block from the device. */
  ghost function LookupOn(v: Volume, dir: Node, name: seq<Byte>): Lookup
    requires Mounted(v) && ValidInode(dir.data)
  {
    LookupIn(FileOf(v.dev, dir.data, v.blockSize), name)
  }

  /** One name is looked up.  The buffer for it holds 256 characters. */
  ghost function Enter(v: Volume, p: Place, name: seq<Byte>): (r: Place)
    requires Exists(v, p)
    ensures Exists(v, r)
  {
    if !p.At? then p
    else
      var dir := NodeAt(v, p.number).value;
      if |name| > 256 || !IsDir(dir) then Halted
      else
        match LookupOn(v, dir, name)
        case Number(n) => if n == 0 then Missing else if NodeAt(v, n).Some? then At(n) else Halted
        case Failed => Halted
        case Stuck => Hung
  }

  ghost function Walk(v: Volume, p: Place, names: seq<seq<Byte>>): (r: Place)
    requires Exists(v, p)
    ensures Exists(v, r)
    decreases names
  {
    if names == [] then p else Walk(v, Enter(v, p, names[0]), names[1..])
  }

  /** Record `i` is the last with that name. */
  predicate LastNamed(records: seq<Record>, name: seq<Byte>, i: nat) {
    && i < |records| && CString(records[i].name) == CString(name)
    && forall j :: i < j < |records| ==> CString(records[j].name) != CString(name)
  }

  predicate NoneNamed(records: seq<Record>, name: seq<Byte>) {
    forall i :: 0 <= i < |records| ==> CString(records[i].name) != CString(name)
  }

  /** What a lookup of a name must give, when the scan of the directory gives `listing`: the last record with that
      name decides; without one, or with number 0 in it, there is no such file. */
  predicate Decided(v: Volume, listing: Listing, name: seq<Byte>, r: Place)
    requires Mounted(v)
  {
    match listing
    case Fails => r == Halted
    case Endless => r == Hung
    case Records(records) =>
      && (NoneNamed(records, name) ==> r == Missing)
      && forall i :: 0 <= i < |records| && LastNamed(records, name, i) ==> Names(v, records[i].inode, r)
  }

  predicate Names(v: Volume, number: nat, r: Place)
    requires Mounted(v)
  {
    if number == 0 then r == Missing else if NodeAt(v, number).Some? then r == At(number) else r == Halted
  }

  /** What looking one name up gives: only a directory with a listable scan gives anything. */
  lemma EnterFinds(v: Volume, number: nat, name: seq<Byte>)
    requires Exists(v, At(number))
    ensures
      var dir, r := NodeAt(v, number).value, Walk(v, At(number), [name]);
      if |name| > 256 || !(0x4000 <= dir.mode < 0x5000) then r == Halted
      else Decided(v, Scan(FileOf(v.dev, dir.data, v.blockSize), 0), name, r)
  {
    hide Decided, NodeAt, Scan, FileOf;
    WalkOne(v, At(number), name, []);
    assert [name] + [] == [name];
    var dir := NodeAt(v, number).value;
    var listing := Scan(FileOf(v.dev, dir.data, v.blockSize), 0);
    if |name| <= 256 && IsDir(dir) {
      if listing.Records? { LastDecides(v, listing.records, name); }
      DecidedElse(v, listing, name);
    }
  }

  lemma DecidedElse(v: Volume, listing: Listing, name: seq<Byte>)
    requires Mounted(v)
    ensures listing == Fails ==> Decided(v, listing, name, Halted)
    ensures listing == Endless ==> Decided(v, listing, name, Hung)
  {
  }

  lemma LastDecides(v: Volume, records: seq<Record>, name: seq<Byte>)
    requires Mounted(v)
    ensures
      var n := LastMatch(records, name);
      Decided(v, Records(records), name, if n == 0 then Missing else if NodeAt(v, n).Some? then At(n) else Halted)
  {
    hide NodeAt, CString, LastMatch;
    var i := LastMatchIsLast(records, name);
  }

  method SkipSlashes(path: seq<Byte>, from: nat) returns (idx: nat)
    requires from <= |path|
    ensures from <= idx <= |path| && (idx < |path| ==> path[idx] != SLASH)
    ensures Components(path[idx..]) == Components(path[from..])
  {
    idx := from;
    while idx < |path| && path[idx] == SLASH
      invariant from <= idx <= |path|
      invariant Components(path[idx..]) == Components(path[from..])
    {
      assert path[idx..][0] == SLASH && path[idx..][1..] == path[idx + 1..];
      idx := idx + 1;
    }
  }

  /** The name is copied into a buffer that holds 256 characters. */
  method TakeName(path: seq<Byte>, from: nat) returns (ok: bool, idx: nat, part: seq<Byte>)
    requires from < |path| && path[from] != SLASH
    ensures from <= idx <= |path| && part == path[from..idx] && |part| <= 256
    ensures forall i :: from <= i < idx ==> path[i] != SLASH
    ensures ok ==> from < idx && (idx < |path| ==> path[idx] == SLASH)
    ensures !ok ==> |part| == 256 && idx < |path| && path[idx] != SLASH
  {
    idx, part, ok := from, [], true;
    while idx < |path| && path[idx] != SLASH
      invariant from <= idx <= |path| && part == path[from..idx] && |part| <= 256
      invariant forall i :: from <= i < idx ==> path[i] != SLASH
    {
      if |part| >= 256 {
        ok := false;
        return;
      }
      part := part + [path[idx]];
      idx := idx + 1;
    }
  }

  /** Node::find in node `number`, and get_node of what it finds. */
  method EnterNode(v: Volume, number: nat, part: seq<Byte>) returns (r: Place)
    requires Exists(v, At(number)) && |part| <= 256
    ensures r == Enter(v, At(number), part)
  {
    var node := GetNode(v, number);
    if !IsDir(node.value) {
      return Halted;
    }
    var found := FindIn(FileOf(v.dev, node.value.data, v.blockSize), part);
    match found
    case Failed => r := Halted;
    case Stuck => r := Hung;
    case Number(n) =>
      if n == 0 {
        return Missing;
      }
      var next := GetNode(v, n);
      r := if next.Some? then At(n) else Halted;
  }

  /** Ext2::find. */
  method Find(v: Volume, start: Place, path: seq<Byte>) returns (current: Place)
    requires Exists(v, start)
    ensures current == Walk(v, start, Components(path))
  {
    var idx := 0;
    current := start;
    assert path[0..] == path;
    hide Components, Enter;
    while true
      invariant 0 <= idx <= |path| && Exists(v, current)
      invariant Walk(v, current, Components(path[idx..])) == Walk(v, start, Components(path))
      decreases |path| - idx
    {
      idx := SkipSlashes(path, idx);
      if !current.At? || idx == |path| {
        NoNames(path);
        WalkFromNowhere(v, current, Components(path[idx..]));
        return;
      }
      var ok, next, part := TakeName(path, idx);
      if !ok {
        TooLong(v, current, path, idx, next);
        return Halted;
      }
      NameAt(path, idx, next);
      WalkOne(v, current, part, Components(path[next..]));
      current := EnterNode(v, current.number, part);
      idx := next;
    }
  }

  lemma NoNames(path: seq<Byte>)
    ensures Components(path[|path|..]) == []
  {
  }

  lemma WalkOne(v: Volume, p: Place, name: seq<Byte>, names: seq<seq<Byte>>)
    requires Exists(v, p)
    ensures Walk(v, p, [name] + names) == Walk(v, Enter(v, p, name), names)
  {
    assert ([name] + names)[1..] == names;
  }

  lemma {:induction false} WalkFromNowhere(v: Volume, p: Place, names: seq<seq<Byte>>)
    requires Exists(v, p) && (!p.At? || names == [])
    ensures Walk(v, p, names) == p
    decreases names
  {
    if names != [] {
      WalkFromNowhere(v, p, names[1..]);
    }
  }

  lemma {:induction false} NameLengthIs(path: seq<Byte>, n: nat)
    requires n <= |path| && (forall i :: 0 <= i < n ==> path[i] != SLASH) && (n < |path| ==> path[n] == SLASH)
    ensures NameLength(path) == n
  {
    if n > 0 {
      NameLengthIs(path[1..], n - 1);
    }
  }

  lemma NameAt(path: seq<Byte>, from: nat, to: nat)
    requires from < to <= |path| && (forall i :: from <= i < to ==> path[i] != SLASH) && (to < |path| ==> path[to] == SLASH)
    ensures Components(path[from..]) == [path[from..to]] + Components(path[to..])
  {
    NameLengthIs(path[from..], to - from);
    assert path[from..][..to - from] == path[from..to] && path[from..][to - from..] == path[to..];
  }

  lemma TooLong(v: Volume, p: Place, path: seq<Byte>, from: nat, idx: nat)
    requires Exists(v, p) && p.At?
    requires from + 256 <= idx < |path| && forall i :: from <= i <= idx ==> path[i] != SLASH
    ensures Walk(v, p, Components(path[from..])) == Halted
  {
    var name := path[from..][..NameLength(path[from..])];
    assert |name| > 256;
    WalkFromNowhere(v, Halted, Components(path[from..][NameLength(path[from..])..]));
  }

  // ---------- laws of lookup ----------

  lemma SlashFirst(path: seq<Byte>)
    requires path != [] && path[0] == SLASH
    ensures Components(path) == Components(path[1..])
  {
  }

  lemma NameFirst(path: seq<Byte>, n: nat)
    requires path != [] && path[0] != SLASH && n <= |path|
    requires (forall i :: 0 <= i < n ==> path[i] != SLASH) && (n < |path| ==> path[n] == SLASH)
    ensures n > 0 && Components(path) == [path[..n]] + Components(path[n..])
  {
    NameLengthIs(path, n);
  }

  lemma {:induction false} ComponentsOfJoin(p: seq<Byte>, q: seq<Byte>)
    ensures Components(p + [SLASH] + q) == Components(p) + Components(q)
    decreases |p|
  {
    var all := p + [SLASH] + q;
    if p == [] {
      assert all[1..] == q;
    } else if p[0] == SLASH {
      SlashFirst(p);
      SlashFirst(all);
      hide Components;
      assert all[1..] == p[1..] + [SLASH] + q;
      ComponentsOfJoin(p[1..], q);
    } else {
      var n := NameLength(p);
      NameFirst(p, n);
      NameFirst(all, n);
      hide Components, NameLength;
      assert all[..n] == p[..n] && all[n..] == p[n..] + [SLASH] + q;
      ComponentsOfJoin(p[n..], q);
      assert ([p[..n]] + Components(p[n..])) + Components(q) == [p[..n]] + (Components(p[n..]) + Components(q));
    }
  }

  lemma {:induction false} WalkInTwo(v: Volume, p: Place, a: seq<seq<Byte>>, b: seq<seq<Byte>>)
    requires Exists(v, p)
    ensures Walk(v, p, a + b) == Walk(v, Walk(v, p, a), b)
    decreases a
  {
    if a == [] {
      assert a + b == b;
    } else {
      assert (a + b)[1..] == a[1..] + b;
      WalkInTwo(v, Enter(v, p, a[0]), a[1..], b);
    }
  }

  /** A lookup that comes to an end looks only into directories whose records can be listed. */
  lemma LookupStaysInDirectories(v: Volume, p: Place, names: seq<seq<Byte>>, k: nat)
    requires Exists(v, p) && k < |names|
    requires !Walk(v, p, names).Halted? && !Walk(v, p, names).Hung?
    ensures
      var at := Walk(v, p, names[..k]);
      at.At? ==>
        && IsDir(NodeAt(v, at.number).value) && |names[k]| <= 256
        && Scan(FileOf(v.dev, NodeAt(v, at.number).value.data, v.blockSize), 0).Records?
  {
    var at := Walk(v, p, names[..k]);
    assert names == names[..k] + ([names[k]] + names[k + 1..]);
    WalkInTwo(v, p, names[..k], [names[k]] + names[k + 1..]);
    WalkOne(v, at, names[k], names[k + 1..]);
    if !Enter(v, at, names[k]).At? {
      WalkFromNowhere(v, Enter(v, at, names[k]), names[k + 1..]);
    }
    hide Walk;
  }

  /** find(c, p + "/" + q) == find(find(c, p), q). */
  lemma FindComposes(v: Volume, c: Place, p: seq<Byte>, q: seq<Byte>)
    requires Exists(v, c)
    ensures Walk(v, c, Components(p + [SLASH] + q)) == Walk(v, Walk(v, c, Components(p)), Components(q))
  {
    ComponentsOfJoin(p, q);
    WalkInTwo(v, c, Components(p), Components(q));
  }

  /** A path made of names gives back the names. */
  function Joined(names: seq<seq<Byte>>): seq<Byte> {
    if names == [] then [] else if |names| == 1 then names[0] else names[0] + [SLASH] + Joined(names[1..])
  }

  lemma {:induction false} ComponentsOfJoined(names: seq<seq<Byte>>)
    requires forall i :: 0 <= i < |names| ==> names[i] != [] && SLASH !in names[i]
    ensures Components(Joined(names)) == names
    decreases names
  {
    if names != [] {
      var name := names[0];
      assert forall i :: 0 <= i < |name| ==> name[i] in name;
      NameFirst(name, |name|);
      NoNames(name);
      hide Components;
      assert name[..|name|] == name;
      assert Components(name) == [name];
      if |names| > 1 {
        ComponentsOfJoin(name, Joined(names[1..]));
        ComponentsOfJoined(names[1..]);
      }
    }
  }

  /** Repeated, leading and trailing slashes do not matter. */
  lemma SlashesDoNotMatter(p: seq<Byte>, q: seq<Byte>)
    ensures Components(p + [SLASH] + ([SLASH] + q)) == Components(p + [SLASH] + q)
    ensures Components(p + [SLASH]) == Components(p) && Components([SLASH] + p) == Components(p)
  {
    ComponentsOfJoin(p, [SLASH] + q);
    ComponentsOfJoin(p, q);
    ComponentsOfJoin(p, []);
    assert p + [SLASH] + [] == p + [SLASH];
    assert ([SLASH] + q)[1..] == q && ([SLASH] + p)[1..] == p;
  }
}
