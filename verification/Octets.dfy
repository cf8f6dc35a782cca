/** Byte strings and the fixed encodings every component reads: big- and
    little-endian integers, lowercase hex, decimal, and separator-split text.
    Go strings are byte strings, so one type serves both. */
module Octets {

  type Byte = b: int | 0 <= b < 256
  type Bytes = seq<Byte>
  type Bytes32 = b: Bytes | |b| == 32 witness seq(32, _ => 0)
  type Bytes48 = b: Bytes | |b| == 48 witness seq(48, _ => 0)

  datatype Option<+T> = None | Some(value: T)
  datatype Result<+T, +E> = Ok(value: T) | Err(error: E)

  function Zeros(n: nat): (r: Bytes)
    ensures |r| == n && forall i :: 0 <= i < n ==> r[i] == 0
  {
    seq(n, _ => 0)
  }

  /** The bytes of an ASCII literal. */
  function Ascii(s: string): (b: Bytes)
    requires forall i :: 0 <= i < |s| ==> s[i] as int < 128
    ensures |b| == |s| && forall i :: 0 <= i < |s| ==> b[i] == s[i] as int
  {
    seq(|s|, i requires 0 <= i < |s| => s[i] as int)
  }

  ghost predicate NoDup<T(!new)>(s: seq<T>) {
    forall i, j :: 0 <= i < j < |s| ==> s[i] != s[j]
  }

  function Elements<T>(s: seq<T>): (r: set<T>) {
    set x | x in s
  }

  lemma AnElement<T>(s: set<T>) returns (x: T)
    requires s != {}
    ensures x in s
  {
    x :| x in s;
  }

  /** Where x first stands in s. */
  function IndexOf<T(==)>(s: seq<T>, x: T): (i: nat)
    requires x in s
    ensures i < |s| && s[i] == x && forall k :: 0 <= k < i ==> s[k] != x
  {
    if s[0] == x then 0 else 1 + IndexOf(s[1..], x)
  }

  /** r lists what all mentions, each once, in order of first mention. */
  ghost predicate FirstMentions(r: seq<Bytes>, all: seq<Bytes>) {
    && NoDup(r)
    && (forall x :: x in r <==> x in all)
    && forall i, j :: 0 <= i < j < |r| ==> IndexOf(all, r[i]) < IndexOf(all, r[j])
  }

  lemma {:induction false} OrderUnique(a: seq<Bytes>, b: seq<Bytes>, all: seq<Bytes>)
    requires (forall x :: x in a <==> x in b) && (forall x :: x in a ==> x in all)
    requires forall i, j :: 0 <= i < j < |a| ==> IndexOf(all, a[i]) < IndexOf(all, a[j])
    requires forall i, j :: 0 <= i < j < |b| ==> IndexOf(all, b[i]) < IndexOf(all, b[j])
    ensures a == b
    decreases |a|
  {
    assert b != [] ==> b[0] in b;
    if a != [] {
      assert a[0] in a && a[0] in b && b[0] in a;
      var a', b' := a[1..], b[1..];
      assert a == [a[0]] + a' && b == [b[0]] + b';
      forall x ensures x in a' <==> x in b' {
        if x in a' { assert x in a; }
        if x in b' { assert x in b; }
      }
      OrderUnique(a', b', all);
    }
  }

  /** There is one list of first mentions. */
  lemma MentionsUnique(a: seq<Bytes>, b: seq<Bytes>, all: seq<Bytes>)
    requires FirstMentions(a, all) && FirstMentions(b, all)
    ensures a == b
  {
    OrderUnique(a, b, all);
  }

  lemma MentionSnoc(r: seq<Bytes>, all: seq<Bytes>, x: Bytes)
    requires FirstMentions(r, all)
    ensures FirstMentions(if x in r then r else r + [x], all + [x])
  {
    var r', all' := if x in r then r else r + [x], all + [x];
    forall y | y in all ensures IndexOf(all', y) == IndexOf(all, y) {
      assert all'[IndexOf(all, y)] == y;
    }
    forall i, j | 0 <= i < j < |r'| ensures IndexOf(all', r'[i]) < IndexOf(all', r'[j]) {
      assert r'[i] == r[i] && r[i] in all;
      if j < |r| { assert r[j] in all; }
    }
  }

  // ---------------------------------------------------------------- integers

  function Be16(n: nat): Bytes
    requires n < 0x1_0000
  {
    [n / 0x100, n % 0x100]
  }

  function Be32(n: nat): Bytes
    requires n < 0x1_0000_0000
  {
    Be16(n / 0x1_0000) + Be16(n % 0x1_0000)
  }

  function Le16(n: nat): Bytes
    requires n < 0x1_0000
  {
    [n % 0x100, n / 0x100]
  }

  function Le32(n: nat): Bytes
    requires n < 0x1_0000_0000
  {
    Le16(n % 0x1_0000) + Le16(n / 0x1_0000)
  }

  function ReadBe16(b: Bytes, off: nat): (n: nat)
    requires off + 2 <= |b|
    ensures n < 0x1_0000
  {
    b[off] as int * 0x100 + b[off + 1] as int
  }

  function ReadBe32(b: Bytes, off: nat): (n: nat)
    requires off + 4 <= |b|
    ensures n < 0x1_0000_0000
  {
    ReadBe16(b, off) * 0x1_0000 + ReadBe16(b, off + 2)
  }

  function ReadLe16(b: Bytes, off: nat): (n: nat)
    requires off + 2 <= |b|
    ensures n < 0x1_0000
  {
    b[off] as int + b[off + 1] as int * 0x100
  }

  function ReadLe32(b: Bytes, off: nat): (n: nat)
    requires off + 4 <= |b|
    ensures n < 0x1_0000_0000
  {
    ReadLe16(b, off) + ReadLe16(b, off + 2) * 0x1_0000
  }

  /** x stands in m at off. */
  ghost predicate At<T(!new)>(m: seq<T>, off: nat, x: seq<T>)
    decreases |x|
  {
    if x == [] then off <= |m| else off < |m| && m[off] == x[0] && At(m, off + 1, x[1..])
  }

  lemma {:induction false} AtSlice<T(!new)>(m: seq<T>, off: nat, x: seq<T>)
    ensures At(m, off, x) <==> off + |x| <= |m| && m[off..off + |x|] == x
    decreases |x|
  {
    if x != [] && off < |m| {
      AtSlice(m, off + 1, x[1..]);
      if off + |x| <= |m| {
        assert m[off..off + |x|] == [m[off]] + m[off + 1..off + |x|];
      }
      assert x == [x[0]] + x[1..];
    }
  }

  lemma AtSplit<T(!new)>(m: seq<T>, off: nat, a: seq<T>, b: seq<T>)
    requires At(m, off, a + b)
    ensures At(m, off, a) && At(m, off + |a|, b)
  {
    AtSlice(m, off, a + b);
    AtSlice(m, off, a);
    AtSlice(m, off + |a|, b);
    var w := m[off..off + |a + b|];
    assert m[off..off + |a|] == w[..|a|] == a;
    assert m[off + |a|..off + |a| + |b|] == w[|a|..] == b;
  }

  lemma AtPrefix<T(!new)>(x: seq<T>, trailing: seq<T>)
    ensures At(x + trailing, 0, x)
  {
    AtSlice(x + trailing, 0, x);
  }

  lemma AtJoin<T(!new)>(m: seq<T>, off: nat, a: seq<T>, b: seq<T>)
    requires At(m, off, a) && At(m, off + |a|, b)
    ensures At(m, off, a + b)
  {
    AtSlice(m, off, a);
    AtSlice(m, off + |a|, b);
    AtSlice(m, off, a + b);
    assert m[off..off + |a + b|] == m[off..off + |a|] + m[off + |a|..off + |a| + |b|];
  }

  /** Any range of a message stands where it was cut from. */
  lemma SliceAt<T(!new)>(m: seq<T>, off: nat, end: nat)
    requires off <= end <= |m|
    ensures At(m, off, m[off..end])
  {
    AtSlice(m, off, m[off..end]);
  }

  /** Any bytes read as an integer are that integer written. */
  lemma AtBe16(m: Bytes, off: nat)
    requires off + 2 <= |m|
    ensures At(m, off, Be16(ReadBe16(m, off)))
  {
    AtSlice(m, off, Be16(ReadBe16(m, off)));
  }

  lemma AtBe32(m: Bytes, off: nat)
    requires off + 4 <= |m|
    ensures At(m, off, Be32(ReadBe32(m, off)))
  {
    var high, low := ReadBe16(m, off), ReadBe16(m, off + 2);
    AtBe16(m, off);
    AtBe16(m, off + 2);
    AtJoin(m, off, Be16(high), Be16(low));
    assert ReadBe32(m, off) / 0x1_0000 == high && ReadBe32(m, off) % 0x1_0000 == low;
  }

  lemma AtLe16(m: Bytes, off: nat)
    requires off + 2 <= |m|
    ensures At(m, off, Le16(ReadLe16(m, off)))
  {
    AtSlice(m, off, Le16(ReadLe16(m, off)));
  }

  lemma AtLe32(m: Bytes, off: nat)
    requires off + 4 <= |m|
    ensures At(m, off, Le32(ReadLe32(m, off)))
  {
    var low, high := ReadLe16(m, off), ReadLe16(m, off + 2);
    AtLe16(m, off);
    AtLe16(m, off + 2);
    AtJoin(m, off, Le16(low), Le16(high));
    assert ReadLe32(m, off) / 0x1_0000 == high && ReadLe32(m, off) % 0x1_0000 == low;
  }

  /** Reading back a written field, anywhere in a message. */
  lemma Be16At(m: Bytes, off: nat, n: nat)
    requires n < 0x1_0000 && At(m, off, Be16(n))
    ensures off + 2 <= |m| && ReadBe16(m, off) == n
  {
    AtSlice(m, off, Be16(n));
    assert m[off] == m[off..off + 2][0] && m[off + 1] == m[off..off + 2][1];
  }

  lemma Be32At(m: Bytes, off: nat, n: nat)
    requires n < 0x1_0000_0000 && At(m, off, Be32(n))
    ensures off + 4 <= |m| && ReadBe32(m, off) == n
  {
    AtSplit(m, off, Be16(n / 0x1_0000), Be16(n % 0x1_0000));
    Be16At(m, off, n / 0x1_0000);
    Be16At(m, off + 2, n % 0x1_0000);
  }

  lemma Le16At(m: Bytes, off: nat, n: nat)
    requires n < 0x1_0000 && At(m, off, Le16(n))
    ensures off + 2 <= |m| && ReadLe16(m, off) == n
  {
    AtSlice(m, off, Le16(n));
    assert m[off] == m[off..off + 2][0] && m[off + 1] == m[off..off + 2][1];
  }

  lemma Le32At(m: Bytes, off: nat, n: nat)
    requires n < 0x1_0000_0000 && At(m, off, Le32(n))
    ensures off + 4 <= |m| && ReadLe32(m, off) == n
  {
    AtSplit(m, off, Le16(n % 0x1_0000), Le16(n / 0x1_0000));
    Le16At(m, off, n % 0x1_0000);
    Le16At(m, off + 2, n / 0x1_0000);
  }

  // --------------------------------------------------------------------- hex

  predicate IsLowerHex(c: Byte) {
    0x30 <= c <= 0x39 || 0x61 <= c <= 0x66
  }

  predicate AllLowerHex(s: Bytes) {
    forall i :: 0 <= i < |s| ==> IsLowerHex(s[i])
  }

  function HexDigit(n: nat): (c: Byte)
    requires n < 16
    ensures IsLowerHex(c) && HexValue(c) == n
  {
    if n < 10 then 0x30 + n else 0x57 + n
  }

  function HexValue(c: Byte): (n: nat)
    requires IsLowerHex(c)
    ensures n < 16
  {
    if c <= 0x39 then c - 0x30 else c - 0x57
  }

  function HexEncode(b: Bytes): (s: Bytes)
    ensures |s| == 2 * |b| && AllLowerHex(s)
  {
    seq(2 * |b|, i requires 0 <= i < 2 * |b| =>
      HexDigit(if i % 2 == 0 then b[i / 2] / 16 else b[i / 2] % 16))
  }

  function HexDecode(s: Bytes): (b: Bytes)
    requires |s| % 2 == 0 && AllLowerHex(s)
    ensures |b| == |s| / 2
  {
    seq(|s| / 2, i requires 0 <= i < |s| / 2 => 16 * HexValue(s[2 * i]) + HexValue(s[2 * i + 1]))
  }

  /** The one reader of every measurement value: exactly width bytes of lowercase hex. */
  function ParseDigest(s: Bytes, width: int): (r: Result<Bytes, ()>)
    ensures r.Ok? ==> |r.value| == width
  {
    if width <= 0 || |s| != 2 * width || !AllLowerHex(s) then Err(()) else Ok(HexDecode(s))
  }

  lemma HexDecodeEncode(b: Bytes)
    ensures HexDecode(HexEncode(b)) == b
  {
    var s := HexEncode(b);
    forall i | 0 <= i < |b| ensures HexDecode(s)[i] == b[i] {
      assert s[2 * i] == HexDigit(b[i] / 16);
      assert s[2 * i + 1] == HexDigit(b[i] % 16);
    }
  }

  lemma HexEncodeDecode(s: Bytes)
    requires |s| % 2 == 0 && AllLowerHex(s)
    ensures HexEncode(HexDecode(s)) == s
  {
    var b := HexDecode(s);
    forall i | 0 <= i < |s| ensures HexEncode(b)[i] == s[i] {
      var k := i / 2;
      assert b[k] == 16 * HexValue(s[2 * k]) + HexValue(s[2 * k + 1]);
      assert b[k] / 16 == HexValue(s[2 * k]) && b[k] % 16 == HexValue(s[2 * k + 1]);
      assert HexDigit(HexValue(s[i])) == s[i];
    }
  }

  /** ParseDigest accepts exactly the encodings of width-byte strings, one spelling each. */
  lemma ParseDigestExact(s: Bytes, width: int, b: Bytes)
    requires width > 0
    ensures ParseDigest(s, width) == Ok(b) <==> |b| == width && s == HexEncode(b)
  {
    if ParseDigest(s, width) == Ok(b) { HexEncodeDecode(s); }
    HexDecodeEncode(b);
  }

  lemma HexInjective(a: Bytes, b: Bytes)
    ensures HexEncode(a) == HexEncode(b) <==> a == b
  {
    HexDecodeEncode(a);
    HexDecodeEncode(b);
  }

  // ----------------------------------------------------------------- decimal

  /** The digits of n without a sign; "0" for zero. */
  function NatDigits(n: nat): (s: Bytes)
    ensures |s| > 0 && forall i :: 0 <= i < |s| ==> 0x30 <= s[i] <= 0x39
  {
    if n < 10 then [0x30 + n] else NatDigits(n / 10) + [0x30 + n % 10]
  }

  function NatValue(s: Bytes): (n: int)
  {
    if s == [] then 0 else NatValue(s[..|s| - 1]) * 10 + (s[|s| - 1] as int - 0x30)
  }

  lemma {:induction false} NatDigitsValue(n: nat)
    ensures NatValue(NatDigits(n)) == n
  {
    var s := NatDigits(n);
    if n >= 10 {
      NatDigitsValue(n / 10);
      assert s[..|s| - 1] == NatDigits(n / 10);
    } else {
      assert s[..0] == [];
    }
  }

  const MINUS: Byte := 0x2D

  /** Go's %d. */
  function Decimal(n: int): (s: Bytes)
    ensures |s| > 0 && (s[0] == MINUS || 0x30 <= s[0] <= 0x39)
    ensures forall i :: 0 <= i < |s| ==> s[i] == MINUS || 0x30 <= s[i] <= 0x39
  {
    if n < 0 then [MINUS] + NatDigits(-n) else NatDigits(n)
  }

  function DecimalValue(s: Bytes): int {
    if s != [] && s[0] == MINUS then -NatValue(s[1..]) else NatValue(s)
  }

  lemma DecimalRoundTrip(n: int)
    ensures DecimalValue(Decimal(n)) == n
  {
    if n < 0 {
      NatDigitsValue(-n);
      assert Decimal(n)[1..] == NatDigits(-n);
    } else {
      NatDigitsValue(n);
    }
  }

  // ---------------------------------------------------- separator-split text

  /** Go's strings.Split on one separator byte: always at least one piece. */
  function Split(s: Bytes, sep: Byte): (r: seq<Bytes>)
    ensures |r| > 0
    decreases |s|
  {
    if sep !in s then [s] else
      var i := IndexOf(s, sep);
      [s[..i]] + Split(s[i + 1..], sep)
  }

  lemma FirstSep(a: Bytes, sep: Byte, b: Bytes)
    requires sep !in a
    ensures Split(a + [sep] + b, sep) == [a] + Split(b, sep)
  {
    var s := a + [sep] + b;
    assert s[|a|] == sep;
    assert forall k :: 0 <= k < |a| ==> s[k] == a[k];
    assert IndexOf(s, sep) == |a|;
    assert s[..|a|] == a && s[|a| + 1..] == b;
  }

  /** Splitting distributes over a separator: the fact all line reasoning rests on. */
  lemma {:induction false} SplitAppend(a: Bytes, sep: Byte, b: Bytes)
    ensures Split(a + [sep] + b, sep) == Split(a, sep) + Split(b, sep)
    decreases |a|
  {
    if sep !in a {
      FirstSep(a, sep, b);
    } else {
      var x, y := Cut(a, sep);
      SplitAppend(y, sep, b);
      SplitStep(x, sep, y, y + [sep] + b, b);
      Rejoin(x, [sep], y, b);
    }
  }

  lemma Cut(a: Bytes, sep: Byte) returns (x: Bytes, y: Bytes)
    requires sep in a
    ensures a == x + [sep] + y && sep !in x
  {
    var i := IndexOf(a, sep);
    x, y := a[..i], a[i + 1..];
  }

  lemma Rejoin(x: Bytes, sep: Bytes, y: Bytes, b: Bytes)
    ensures x + sep + y + sep + b == x + sep + (y + sep + b)
  {
  }

  lemma SplitStep(x: Bytes, sep: Byte, y: Bytes, z: Bytes, b: Bytes)
    requires sep !in x && Split(z, sep) == Split(y, sep) + Split(b, sep)
    ensures Split(x + [sep] + z, sep) == Split(x + [sep] + y, sep) + Split(b, sep)
  {
    FirstSep(x, sep, y);
    FirstSep(x, sep, z);
  }

  /** Pieces joined by one separator byte. */
  function Join(pieces: seq<Bytes>, sep: Byte): Bytes
    requires |pieces| > 0
  {
    if |pieces| == 1 then pieces[0]
    else Join(pieces[..|pieces| - 1], sep) + [sep] + pieces[|pieces| - 1]
  }

  lemma {:induction false} SplitJoin(pieces: seq<Bytes>, sep: Byte)
    requires |pieces| > 0 && forall i :: 0 <= i < |pieces| ==> sep !in pieces[i]
    ensures Split(Join(pieces, sep), sep) == pieces
  {
    if |pieces| > 1 {
      var front, last := pieces[..|pieces| - 1], pieces[|pieces| - 1];
      assert pieces == front + [last];
      SplitJoin(front, sep);
      SplitAppend(Join(front, sep), sep, last);
    }
  }

  // ------------------------------------------------------------- white space

  /** Width of the white-space character s starts with, 0 when it starts with
      none. These are the UTF-8 encodings of Go's unicode.IsSpace. */
  function LeadingSpace(s: Bytes): (n: nat)
    ensures n <= |s|
  {
    if |s| >= 1 && (9 <= s[0] <= 13 || s[0] == 32) then 1
    else if |s| >= 2 && WideSpace2(s[0], s[1]) then 2
    else if |s| >= 3 && WideSpace3(s[0], s[1], s[2]) then 3
    else 0
  }

  function TrailingSpace(s: Bytes): (n: nat)
    ensures n <= |s|
  {
    var m := |s|;
    if m >= 1 && (9 <= s[m - 1] <= 13 || s[m - 1] == 32) then 1
    else if m >= 2 && WideSpace2(s[m - 2], s[m - 1]) then 2
    else if m >= 3 && WideSpace3(s[m - 3], s[m - 2], s[m - 1]) then 3
    else 0
  }

  predicate WideSpace2(a: Byte, b: Byte) {
    a == 0xC2 && (b == 0x85 || b == 0xA0)
  }

  predicate WideSpace3(a: Byte, b: Byte, c: Byte) {
    || (a == 0xE1 && b == 0x9A && c == 0x80)
    || (a == 0xE2 && b == 0x80 && (0x80 <= c <= 0x8A || c == 0xA8 || c == 0xA9 || c == 0xAF))
    || (a == 0xE2 && b == 0x81 && c == 0x9F)
    || (a == 0xE3 && b == 0x80 && c == 0x80)
  }

  function TrimLeft(s: Bytes): Bytes
    decreases |s|
  {
    if LeadingSpace(s) == 0 then s else TrimLeft(s[LeadingSpace(s)..])
  }

  function TrimRight(s: Bytes): Bytes
    decreases |s|
  {
    if TrailingSpace(s) == 0 then s else TrimRight(s[..|s| - TrailingSpace(s)])
  }

  /** Go's strings.TrimSpace. */
  function TrimSpace(s: Bytes): Bytes {
    TrimRight(TrimLeft(s))
  }

  /** Printable ASCII at both ends leaves nothing to trim. */
  lemma TrimNothing(s: Bytes)
    requires |s| > 0 && 0x20 < s[0] < 0x80 && 0x20 < s[|s| - 1] < 0x80
    ensures TrimSpace(s) == s
  {
  }

  /** Text that starts with printable ASCII ends the white space before it. */
  lemma {:induction false} TrimLeftAppend(a: Bytes, b: Bytes)
    requires b != [] && 0x20 < b[0] < 0x80
    ensures TrimLeft(a + b) == TrimLeft(a) + b
    decreases |a|
  {
    var n := LeadingSpace(a);
    if a == [] {
      assert a + b == b;
    } else {
      assert LeadingSpace(a + b) == n;
      if n > 0 {
        assert (a + b)[n..] == a[n..] + b;
        TrimLeftAppend(a[n..], b);
      }
    }
  }

  /** ASCII case folding. No character outside ASCII folds to a hex digit, so
      for a digest reader this is Go's strings.ToLower. */
  function ToLower(s: Bytes): Bytes {
    seq(|s|, i requires 0 <= i < |s| => if 0x41 <= s[i] <= 0x5A then s[i] + 32 else s[i])
  }
}
