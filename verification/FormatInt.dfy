/** Integer conversion in printf: digits, sign and padding. */
module FormatInt {
  import opened Basics

  datatype Flags = Flags(minus: bool, plus: bool, space: bool, zero: bool, up: bool, unsigned: bool)

  predicate Base(base: int) {
    base == 8 || base == 10 || base == 16
  }

  function DigitChar(d: nat, caps: bool): char
    requires d < 16
  {
    if caps then "0123456789ABCDEF"[d] else "0123456789abcdef"[d]
  }

  /** The value of a digit in either case; 99 for anything else. */
  function DigitValue(c: char): nat {
    if '0' <= c <= '9' then c as int - '0' as int
    else if 'A' <= c <= 'F' then c as int - 'A' as int + 10
    else if 'a' <= c <= 'f' then c as int - 'a' as int + 10
    else 99
  }

  /** The digits of a number, least significant first, as the loop makes them. */
  function Digits(u: nat, base: nat, caps: bool): (d: string)
    requires Base(base)
    ensures d != []
    decreases u
  {
    [DigitChar(u % base, caps)] + if u / base == 0 then [] else Digits(u / base, base, caps)
  }

  function Reversed(s: string): (r: string)
    ensures |r| == |s|
  {
    if s == [] then [] else Reversed(s[1..]) + [s[0]]
  }

  function Repeat(c: char, n: int): (r: string)
    ensures |r| == if n < 0 then 0 else n
  {
    if n <= 0 then "" else [c] + Repeat(c, n - 1)
  }

  function Max(a: int, b: int): int {
    if a >= b then a else b
  }

  // ---------- what is printed ----------

  predicate IsLong(value: int) {
    -0x8000_0000 <= value < 0x8000_0000
  }

  function Magnitude(value: int, flags: Flags): nat
    requires IsLong(value)
  {
    if value >= 0 then value else if flags.unsigned then value + WORD else -value
  }

  function Sign(value: int, flags: Flags): (s: string)
    ensures |s| <= 1
  {
    if flags.unsigned then "" else if value < 0 then "-" else if flags.plus then "+" else if flags.space then " " else ""
  }

  /** The spaces and zeros that pad `place` digits. */
  function Pads(place: nat, sign: nat, min: int, precision: int, flags: Flags): (int, int) {
    var zeros := Max(precision - place, 0);
    var spaces := Max(min - Max(precision, place) - sign, 0);
    if flags.zero then (0, Max(zeros, spaces)) else (spaces, zeros)
  }

  function Formatted(value: int, base: nat, min: int, precision: int, flags: Flags): string
    requires IsLong(value) && Base(base)
  {
    var digits := Digits(Magnitude(value, flags), base, flags.up);
    var sign := Sign(value, flags);
    var (spaces, zeros) := Pads(|digits|, |sign|, min, Max(precision, 0), flags);
    (if flags.minus then "" else Repeat(' ', spaces))
    + sign + Repeat('0', zeros) + Reversed(digits)
    + (if flags.minus then Repeat(' ', spaces) else "")
  }

  // ---------- the method ----------

  lemma {:induction false} DigitsAreFew(u: nat, base: nat, caps: bool, n: nat, limit: nat)
    requires Base(base) && u < limit && limit <= Power8(n) && n > 0
    ensures |Digits(u, base, caps)| <= n
    decreases n
  {
    if u / base != 0 {
      assert Power8(n) == 8 * Power8(n - 1);
      assert u / base < Power8(n - 1) by {
        assert u / base <= u / 8;
      }
      DigitsAreFew(u / base, base, caps, n - 1, Power8(n - 1));
    }
  }

  function Power8(n: nat): nat {
    if n == 0 then 1 else 8 * Power8(n - 1)
  }

  /** Eleven digits are enough for 32 bits in any of the bases. */
  lemma FewerThanTwentyDigits(u: nat, base: nat, caps: bool)
    requires Base(base) && u < WORD
    ensures |Digits(u, base, caps)| <= 11
  {
    assert Power8(11) == 0x2_0000_0000 by {
      assert Power8(4) == 4096;
      assert Power8(8) == 4096 * 4096;
    }
    DigitsAreFew(u, base, caps, 11, WORD);
  }

  /** Stores the last digit of `u`: with the digits of what remains, the buffer says the same as before. */
  method PutDigit(convert: array<char>, place: nat, u: nat, base: nat, caps: bool)
    requires Base(base) && place < convert.Length
    modifies convert
    ensures u / base == 0 ==> convert[..place + 1] == old(convert[..place]) + Digits(u, base, caps)
    ensures u / base != 0 ==>
      && convert[..place + 1] + Digits(u / base, base, caps) == old(convert[..place]) + Digits(u, base, caps)
      && |Digits(u, base, caps)| == 1 + |Digits(u / base, base, caps)|
  {
    ghost var before := convert[..place];
    FirstDigit(u, base, caps, before);
    hide Digits, DigitChar;
    convert[place] := DigitChar(u % base, caps);
    assert convert[..place + 1] == before + [convert[place]];
  }

  /** The conversion loop; its buffer of twenty is never full. */
  method Convert(value: nat, base: nat, caps: bool) returns (convert: array<char>, place: nat)
    requires Base(base) && value < WORD
    ensures fresh(convert) && convert.Length == 20
    ensures place <= 11 && convert[..place] == Digits(value, base, caps)
  {
    convert := new char[20](_ => ' ');
    FewerThanTwentyDigits(value, base, caps);
    var uvalue: nat := value;
    place := 0;
    hide Digits, DigitChar, Power8;
    while true
      invariant place + |Digits(uvalue, base, caps)| <= 11
      invariant convert[..place] + Digits(uvalue, base, caps) == Digits(value, base, caps)
      decreases uvalue
    {
      Quotient(uvalue, base);
      PutDigit(convert, place, uvalue, base, caps);
      place := place + 1;
      uvalue := uvalue / base;
      if uvalue == 0 || place >= 20 {
        break;
      }
    }
    if place == 20 {
      assert false;  // the cutoff of the last digit: never reached
    }
    convert[place] := '\0';
  }

  lemma FirstDigit(u: nat, base: nat, caps: bool, before: string)
    requires Base(base) && u / base >= 0
    ensures u / base == 0 ==> Digits(u, base, caps) == [DigitChar(u % base, caps)]
    ensures u / base != 0 ==>
      && before + Digits(u, base, caps) == (before + [DigitChar(u % base, caps)]) + Digits(u / base, base, caps)
      && |Digits(u, base, caps)| == 1 + |Digits(u / base, base, caps)|
  {
    var q, c := u / base, DigitChar(u % base, caps);
    hide DigitChar;
    if q == 0 {
      assert Digits(u, base, caps) == [c] + [];
    } else {
      assert Digits(u, base, caps) == [c] + Digits(q, base, caps);
      Associates(before, [c], Digits(q, base, caps));
    }
  }

  lemma Associates(a: string, b: string, c: string)
    ensures a + (b + c) == (a + b) + c
  {
  }

  lemma Quotient(u: nat, base: nat)
    requires Base(base)
    ensures u / base >= 0 && (u > 0 ==> u / base < u)
  {
  }

  lemma RepeatMore(c: char, n: nat)
    ensures Repeat(c, n + 1) == Repeat(c, n) + [c]
  {
    if n > 0 {
      RepeatMore(c, n - 1);
    }
  }

  /** Emits one character `n` times. */
  method Emit(out: string, c: char, n: int) returns (r: string)
    ensures r == out + Repeat(c, n)
  {
    r := out;
    var left := n;
    ghost var done: nat := 0;
    while left > 0
      invariant r == out + Repeat(c, done) && (n > 0 ==> left + done == n && left >= 0) && (n <= 0 ==> done == 0 && left == n)
    {
      r := r + [c];
      RepeatMore(c, done);
      left := left - 1;
      done := done + 1;
    }
  }

  lemma Wrapped(value: int)
    requires IsLong(value)
    ensures (value + WORD) % WORD == if value >= 0 then value else value + WORD
  {
  }

  lemma RepeatNone(c: char, n: int)
    ensures n <= 0 ==> Repeat(c, n) == ""
    ensures n >= 0 ==> Repeat(c, -n) == ""
  {
  }

  method SignAndMagnitude(value: int, flags: Flags) returns (sign: string, uvalue: nat)
    requires IsLong(value)
    ensures sign == Sign(value, flags) && uvalue == Magnitude(value, flags) && uvalue < WORD
  {
    sign := "";
    Wrapped(value);
    uvalue := (value + WORD) % WORD;
    if !flags.unsigned {
      if value < 0 {
        sign := "-";
        uvalue := -value;
      } else if flags.plus {
        sign := "+";
      } else if flags.space {
        sign := " ";
      }
    }
  }

  /** How many spaces and zeros; spaces on the right count as negative. */
  method PadWidths(place: nat, sign: string, min: int, precision: int, flags: Flags) returns (spad: int, zpad: int)
    requires |sign| <= 1
    ensures var (spaces, zeros) := Pads(place, |sign|, min, precision, flags);
      zpad == zeros && spad == if flags.minus then -spaces else spaces
  {
    zpad := precision - place;
    spad := min - Max(precision, place) - (if sign != "" then 1 else 0);
    if zpad < 0 { zpad := 0; }
    if spad < 0 { spad := 0; }
    if flags.zero {
      zpad := Max(zpad, spad);
      spad := 0;
    }
    if flags.minus {
      spad := -spad;
    }
  }

  method FmtInt(value: int, base: nat, min: int, max: int, flags: Flags) returns (out: string)
    requires IsLong(value) && Base(base)
    ensures out == Formatted(value, base, min, max, flags)
    ensures exists left, sign, first, right :: LaidOut(out, value, base, min, max, flags, left, sign, first, right)
  {
    var precision := if max < 0 then 0 else max;
    var sign, uvalue := SignAndMagnitude(value, flags);
    var convert, place := Convert(uvalue, base, flags.up);
    var spad, zpad := PadWidths(place, sign, min, precision, flags);
    RepeatNone(' ', spad);
    PadsNonNegative(place, |sign|, min, precision, flags);
    hide Repeat, Reversed, Digits, Sign, Magnitude, Pads;
    out := EmitAll(convert, place, sign, zpad, spad);
    hide LaidOut;
    ghost var l, s, f, r := FormattedIsLaidOut(value, base, min, max, flags);
  }

  lemma PadsNonNegative(place: nat, sign: nat, min: int, precision: int, flags: Flags)
    ensures Pads(place, sign, min, precision, flags).0 >= 0
  {
  }

  /** Spaces, sign, zeros, digits, and spaces again. */
  method EmitAll(convert: array<char>, place: nat, sign: string, zpad: int, spad: int) returns (out: string)
    requires place <= convert.Length
    ensures out == Repeat(' ', spad) + sign + Repeat('0', zpad) + Reversed(convert[..place]) + Repeat(' ', -spad)
  {
    out := Emit("", ' ', spad);
    out := out + sign;
    out := Emit(out, '0', zpad);
    out := EmitDigits(out, convert, place);
    out := Emit(out, ' ', -spad);
  }

  /** The digits, last first. */
  method EmitDigits(prefix: string, convert: array<char>, place: nat) returns (out: string)
    requires place <= convert.Length
    ensures out == prefix + Reversed(convert[..place])
  {
    out := prefix;
    var left := place;
    while left > 0
      invariant 0 <= left <= place && out == prefix + Reversed(convert[left..place])
    {
      left := left - 1;
      assert convert[left..place] == [convert[left]] + convert[left + 1..place];
      out := out + [convert[left]];
    }
  }

  // ---------- what the output means ----------

  /** Reads digits, most significant first. */
  function Parse(s: string, base: nat): nat {
    if s == "" then 0 else Parse(s[..|s| - 1], base) * base + DigitValue(s[|s| - 1])
  }

  predicate AllDigits(s: string, base: nat) {
    forall i :: 0 <= i < |s| ==> DigitValue(s[i]) < base
  }

  lemma DigitBack(d: nat, caps: bool)
    requires d < 16
    ensures DigitValue(DigitChar(d, caps)) == d
  {
  }

  lemma {:induction false} ParseDigits(u: nat, base: nat, caps: bool)
    requires Base(base)
    ensures Parse(Reversed(Digits(u, base, caps)), base) == u && AllDigits(Reversed(Digits(u, base, caps)), base)
    decreases u
  {
    var d, q := Digits(u, base, caps), u / base;
    Quotient(u, base);
    DigitBack(u % base, caps);
    assert u == q * base + u % base;
    if q != 0 {
      ParseDigits(q, base, caps);
      assert d[1..] == Digits(q, base, caps);
    } else {
      assert d[1..] == "";
    }
    var r := Reversed(d);
    assert r == Reversed(d[1..]) + [d[0]];
    assert r[..|r| - 1] == Reversed(d[1..]) && r[|r| - 1] == d[0];
  }

  lemma {:induction false} ZerosDoNotCount(n: int, s: string, base: nat)
    requires Base(base) && AllDigits(s, base)
    ensures Parse(Repeat('0', n) + s, base) == Parse(s, base) && AllDigits(Repeat('0', n) + s, base)
    decreases |s|
  {
    var z := Repeat('0', n);
    RepeatIs('0', n);
    if s == "" {
      assert z + s == z;
      ParseZeros(z, base);
    } else {
      assert (z + s)[..|z + s| - 1] == z + s[..|s| - 1];
      ZerosDoNotCount(n, s[..|s| - 1], base);
    }
  }

  lemma {:induction false} RepeatIs(c: char, n: int)
    ensures forall i :: 0 <= i < |Repeat(c, n)| ==> Repeat(c, n)[i] == c
    decreases n
  {
    if n > 0 { RepeatIs(c, n - 1); }
  }

  lemma {:induction false} ParseZeros(z: string, base: nat)
    requires forall i :: 0 <= i < |z| ==> z[i] == '0'
    ensures Parse(z, base) == 0
  {
    if z != "" { ParseZeros(z[..|z| - 1], base); }
  }

  /** The output without its spaces. */
  function Stripped(s: string): string {
    if s == "" then "" else (if s[0] == ' ' then "" else [s[0]]) + Stripped(s[1..])
  }

  lemma {:induction false} StripJoin(a: string, b: string)
    ensures Stripped(a + b) == Stripped(a) + Stripped(b)
  {
    if a == "" {
      assert a + b == b;
    } else {
      assert (a + b)[1..] == a[1..] + b;
      StripJoin(a[1..], b);
    }
  }

  lemma {:induction false} StripSpaces(n: int)
    ensures Stripped(Repeat(' ', n)) == ""
    decreases n
  {
    if n > 0 {
      assert Repeat(' ', n)[1..] == Repeat(' ', n - 1);
      StripSpaces(n - 1);
    }
  }

  lemma {:induction false} StripNothing(s: string)
    requires forall i :: 0 <= i < |s| ==> s[i] != ' '
    ensures Stripped(s) == s
  {
    if s != "" { StripNothing(s[1..]); }
  }

  /** A number as a reader takes it: an optional sign and digits. */
  function ParseSigned(s: string, base: nat): int {
    if s != "" && s[0] == '-' then -(Parse(s[1..], base) as int)
    else if s != "" && s[0] == '+' then Parse(s[1..], base)
    else Parse(s, base)
  }

  /** Stripped of spaces, the output reads back as the value, in any base and with any padding. */
  lemma ReadsBack(value: int, base: nat, min: int, precision: int, flags: Flags)
    requires IsLong(value) && Base(base)
    ensures ParseSigned(Stripped(Formatted(value, base, min, precision, flags)), base) ==
      if flags.unsigned && value < 0 then value + WORD else value
  {
    var magnitude, sign := Magnitude(value, flags), Sign(value, flags);
    var digits := Digits(magnitude, base, flags.up);
    var (spaces, zeros) := Pads(|digits|, |sign|, min, Max(precision, 0), flags);
    var left := if flags.minus then "" else Repeat(' ', spaces);
    var right := if flags.minus then Repeat(' ', spaces) else "";
    var zeroString, digitString := Repeat('0', zeros), Reversed(digits);
    assert Formatted(value, base, min, precision, flags) == left + sign + zeroString + digitString + right;
    StripSpaces(spaces);
    hide Formatted, Pads;
    ParseDigits(magnitude, base, flags.up);
    ZerosDoNotCount(zeros, digitString, base);
    hide Digits, Repeat, Parse, Reversed;
    FiveParts(left, sign, zeroString, digitString, right);
    StripParts(left, sign, zeroString + digitString, right, base);
    SignReadsBack(value, flags, zeroString + digitString, base);
  }

  lemma FiveParts(a: string, b: string, c: string, d: string, e: string)
    ensures a + b + c + d + e == a + (b + ((c + d) + e))
  {
  }

  lemma SignReadsBack(value: int, flags: Flags, number: string, base: nat)
    requires IsLong(value) && Base(base) && AllDigits(number, base) && Parse(number, base) == Magnitude(value, flags)
    ensures ParseSigned(Stripped(Sign(value, flags)) + number, base) == if flags.unsigned && value < 0 then value + WORD else value
  {
    var s := Stripped(Sign(value, flags)) + number;
    if Sign(value, flags) == "-" || Sign(value, flags) == "+" {
      assert Stripped(Sign(value, flags)) == Sign(value, flags);
      assert s[0] == Sign(value, flags)[0] && s[1..] == number;
    } else {
      assert Stripped(Sign(value, flags)) == "";
      assert s == number;
      assert number != "" ==> DigitValue(number[0]) < base;
    }
  }

  lemma StripParts(left: string, sign: string, number: string, right: string, base: nat)
    requires Base(base) && Stripped(left) == "" && Stripped(right) == "" && |sign| <= 1 && AllDigits(number, base)
    ensures Stripped(left + (sign + (number + right))) == Stripped(sign) + number
  {
    StripJoin(left, sign + (number + right));
    StripJoin(sign, number + right);
    StripJoin(number, right);
    forall i | 0 <= i < |number| ensures number[i] != ' ' { assert DigitValue(number[i]) < base; }
    StripNothing(number);
    assert number + "" == number;
    assert "" + (Stripped(sign) + number) == Stripped(sign) + number;
  }

  // ---------- where everything goes ----------

  /** A digit of the base, in the case asked for. */
  predicate DigitOf(c: char, base: nat, up: bool) {
    ('0' <= c <= '9' || (if up then 'A' <= c <= 'F' else 'a' <= c <= 'f')) && DigitValue(c) < base
  }

  /** The sign that value and flags ask for. */
  predicate SignAsked(s: string, value: int, flags: Flags) {
    if flags.unsigned then s == ""
    else if value < 0 then s == "-"
    else if flags.plus then s == "+"
    else if flags.space then s == " "
    else s == ""
  }

  predicate All(s: string, c: char) {
    forall i :: 0 <= i < |s| ==> s[i] == c
  }

  /** Where the parts of the output are: spaces before `left`, the sign up to `sign`, zeros up to `first`, the
      digits without leading zeros up to `right`, and spaces from there. */
  predicate LaidOut(out: string, value: int, base: nat, min: int, max: int, flags: Flags,
                    left: nat, sign: nat, first: nat, right: nat) {
    && left <= sign <= first < right <= |out|
    && All(out[..left], ' ') && All(out[right..], ' ') && (if flags.minus then left == 0 else right == |out|)
    && SignAsked(out[left..sign], value, flags)
    && All(out[sign..first], '0') && (out[first] != '0' || right == first + 1)
    && (forall i :: sign <= i < right ==> DigitOf(out[i], base, flags.up))
    && Parse(out[first..right], base) == (if value >= 0 then value else if flags.unsigned then value + 0x1_0000_0000 else -value)
    && var digits, wanted := right - first, Max(max, 0);
    && var missing, spare := Max(wanted - digits, 0), Max(min - Max(wanted, digits) - (sign - left), 0);
    && first - sign == (if flags.zero then Max(missing, spare) else missing)
    && left + (|out| - right) == (if flags.zero then 0 else spare)
  }

  lemma {:induction false} FirstDigitCounts(u: nat, base: nat, caps: bool)
    requires Base(base)
    ensures var d := Digits(u, base, caps); d[|d| - 1] != '0' || |d| == 1
    ensures forall i :: 0 <= i < |Digits(u, base, caps)| ==> DigitOf(Digits(u, base, caps)[i], base, caps)
    decreases u
  {
    Quotient(u, base);
    DigitIsOf(u % base, base, caps);
    if u / base != 0 {
      FirstDigitCounts(u / base, base, caps);
      if |Digits(u / base, base, caps)| == 1 {
        DigitIsOf(u / base % base, base, caps);
      }
    }
  }

  lemma DigitIsOf(d: nat, base: nat, caps: bool)
    requires Base(base) && d < base
    ensures DigitOf(DigitChar(d, caps), base, caps) && (DigitChar(d, caps) == '0' <==> d == 0)
  {
  }

  lemma {:induction false} ReversedAt(s: string, i: nat)
    requires i < |s|
    ensures Reversed(s)[i] == s[|s| - 1 - i]
  {
    if i < |s| - 1 { ReversedAt(s[1..], i); }
  }

  lemma Parts(a: string, b: string, c: string, d: string, e: string)
    ensures
      var out, p, q, r := a + b + c + d + e, |a| + |b|, |a| + |b| + |c|, |a| + |b| + |c| + |d|;
      && out[..|a|] == a && out[|a|..p] == b && out[p..q] == c && out[q..r] == d && out[r..] == e
  {
  }

  /** The output of printf for an integer: the law says of every character what it is and where. */
  lemma FormattedIsLaidOut(value: int, base: nat, min: int, max: int, flags: Flags)
      returns (left: nat, sign: nat, first: nat, right: nat)
    requires IsLong(value) && Base(base)
    ensures LaidOut(Formatted(value, base, min, max, flags), value, base, min, max, flags, left, sign, first, right)
  {
    hide Pads, Sign, Magnitude, Digits, Repeat, Reversed, LaidOut, Max, RightParts;
    var digits, s := Digits(Magnitude(value, flags), base, flags.up), Sign(value, flags);
    var (spaces, zeros) := Pads(|digits|, |s|, min, Max(max, 0), flags);
    var a := if flags.minus then "" else Repeat(' ', spaces);
    var e := if flags.minus then Repeat(' ', spaces) else "";
    var c, d := Repeat('0', zeros), Reversed(digits);
    var out := Formatted(value, base, min, max, flags);
    assert out == a + s + c + d + e;
    left, sign, first, right := |a|, |a| + |s|, |a| + |s| + |c|, |a| + |s| + |c| + |d|;
    PartsAreRight(value, base, min, max, flags, a, s, c, d, e);
    hide Formatted;
    PartsAreLaidOut(out, value, base, min, max, flags, a, s, c, d, e);
  }

  ghost predicate RightParts(value: int, base: nat, min: int, max: int, flags: Flags,
                             a: string, s: string, c: string, d: string, e: string) {
    && All(a, ' ') && All(e, ' ') && (if flags.minus then a == "" else e == "")
    && SignAsked(s, value, flags) && All(c, '0')
    && d != "" && (d[0] != '0' || |d| == 1) && (forall i :: 0 <= i < |d| ==> DigitOf(d[i], base, flags.up))
    && Parse(d, base) == (if value >= 0 then value else if flags.unsigned then value + 0x1_0000_0000 else -value)
    && var wanted := Max(max, 0);
    && var missing, spare := Max(wanted - |d|, 0), Max(min - Max(wanted, |d|) - |s|, 0);
    && |c| == (if flags.zero then Max(missing, spare) else missing)
    && |a| + |e| == (if flags.zero then 0 else spare)
  }

  lemma PartsAreRight(value: int, base: nat, min: int, max: int, flags: Flags, a: string, s: string, c: string, d: string, e: string)
    requires IsLong(value) && Base(base)
    requires s == Sign(value, flags) && d == Reversed(Digits(Magnitude(value, flags), base, flags.up))
    requires
      var (spaces, zeros) := Pads(|d|, |s|, min, Max(max, 0), flags);
      && a == (if flags.minus then "" else Repeat(' ', spaces)) && e == (if flags.minus then Repeat(' ', spaces) else "")
      && c == Repeat('0', zeros)
    ensures RightParts(value, base, min, max, flags, a, s, c, d, e)
  {
    var u := Magnitude(value, flags);
    var digits := Digits(u, base, flags.up);
    var (spaces, zeros) := Pads(|d|, |s|, min, Max(max, 0), flags);
    RepeatIs(' ', spaces);
    RepeatIs('0', zeros);
    ParseDigits(u, base, flags.up);
    FirstDigitCounts(u, base, flags.up);
    forall i | 0 <= i < |d|
      ensures d[i] == digits[|digits| - 1 - i]
    {
      ReversedAt(digits, i);
    }
    hide Digits, Reversed, Repeat, Parse, DigitOf;
  }

  lemma PartsAreLaidOut(out: string, value: int, base: nat, min: int, max: int, flags: Flags,
                        a: string, s: string, c: string, d: string, e: string)
    requires out == a + s + c + d + e && RightParts(value, base, min, max, flags, a, s, c, d, e) && Base(base)
    ensures LaidOut(out, value, base, min, max, flags, |a|, |a| + |s|, |a| + |s| + |c|, |a| + |s| + |c| + |d|)
  {
    Parts(a, s, c, d, e);
    var p, q, r := |a| + |s|, |a| + |s| + |c|, |a| + |s| + |c| + |d|;
    assert out[q] == out[q..r][0];
    hide Parse, SignAsked;
    forall i | p <= i < r
      ensures DigitOf(out[i], base, flags.up)
    {
      if i < q {
        assert out[i] == out[p..q][i - p];
        assert DigitOf('0', base, flags.up);
      } else {
        assert out[i] == out[q..r][i - q];
      }
    }
  }

  /** The field is as wide as asked for exactly when zeros are not wanted both for the width and for the precision. */
  lemma WidthLaw(value: int, base: nat, min: int, precision: int, flags: Flags)
    requires IsLong(value) && Base(base)
    ensures
      var place, sign, digits := |Digits(Magnitude(value, flags), base, flags.up)|, |Sign(value, flags)|, Max(precision, 0);
      |Formatted(value, base, min, precision, flags)| == Max(min, sign + Max(digits, place)) <==>
        !(flags.zero && digits > place && min > sign + digits)
  {
  }
}
