/** Small definitions that several of the models share. */
module Basics {

  type Byte = b: int | 0 <= b < 256 witness 0

  /** One more than the largest 32-bit word. */
  const WORD := 0x1_0000_0000

  /** The number that bytes spell, least significant first. */
  function Le16(b: seq<Byte>): nat
    requires |b| == 2
  {
    b[0] as int + 0x100 * b[1] as int
  }

  function Le32(b: seq<Byte>): nat
    requires |b| == 4
  {
    b[0] as int + 0x100 * b[1] as int + 0x1_0000 * b[2] as int + 0x100_0000 * b[3] as int
  }

  /** The other way round: the bytes of a number. */
  function Bytes16(v: int): (b: seq<Byte>)
    requires 0 <= v < 0x1_0000
    ensures |b| == 2
  {
    [v % 0x100, v / 0x100]
  }

  function Bytes32(v: int): (b: seq<Byte>)
    requires 0 <= v < 0x1_0000_0000
    ensures |b| == 4
  {
    [v % 0x100, v / 0x100 % 0x100, v / 0x100 / 0x100 % 0x100, v / 0x100 / 0x100 / 0x100]
  }

  lemma BytesSpell(v: int)
    requires 0 <= v < 0x1_0000_0000
    ensures Le32(Bytes32(v)) == v && (v < 0x1_0000 ==> Le16(Bytes16(v)) == v)
    ensures v < 0x1_0000 ==> Bytes32(v) == Bytes16(v) + [0, 0]
    ensures v < 0x100 ==> Bytes16(v) == [v, 0]
  {
  }

  function Abs(x: int): nat {
    if x < 0 then -x else x
  }

  function Min(x: int, y: int): int {
    if x < y then x else y
  }

  ghost predicate Distinct<T>(s: seq<T>) {
    forall i, j :: 0 <= i < j < |s| ==> s[i] != s[j]
  }

  lemma AppendDistinct<T>(s: seq<T>, t: T)
    requires Distinct(s) && t !in s
    ensures Distinct(s + [t])
    ensures forall u :: u in s + [t] <==> u in s || u == t
  {
  }

  lemma TailDistinct<T>(s: seq<T>)
    requires Distinct(s) && s != []
    ensures Distinct(s[1..]) && s[0] !in s[1..]
    ensures forall t :: t in s[1..] <==> t in s && t != s[0]
  {
  }
}
