/** What the encodings spell, stated without them: integers byte by byte, hex and
    decimal digits, ASCII letters, and white space by its code points. */
module Spellings {
  import opened Octets

  /** Big-endian: the most significant byte first. */
  lemma BigEndian(a: Byte, b: Byte, c: Byte, d: Byte)
    ensures Be16(0x100 * a as int + b as int) == [a, b]
    ensures Be32(0x100_0000 * a as int + 0x1_0000 * b as int + 0x100 * c as int + d as int) == [a, b, c, d]
  {
    var high, low := 0x100 * a as int + b as int, 0x100 * c as int + d as int;
    assert 0x1_0000 * high + low == 0x100_0000 * a as int + 0x1_0000 * b as int + low;
    assert (0x1_0000 * high + low) / 0x1_0000 == high && (0x1_0000 * high + low) % 0x1_0000 == low;
  }

  /** Little-endian: the least significant byte first. */
  lemma LittleEndian(a: Byte, b: Byte, c: Byte, d: Byte)
    ensures Le16(0x100 * a as int + b as int) == [b, a]
    ensures Le32(0x100_0000 * a as int + 0x1_0000 * b as int + 0x100 * c as int + d as int) == [d, c, b, a]
  {
    var high, low := 0x100 * a as int + b as int, 0x100 * c as int + d as int;
    assert 0x1_0000 * high + low == 0x100_0000 * a as int + 0x1_0000 * b as int + low;
    assert (0x1_0000 * high + low) / 0x1_0000 == high && (0x1_0000 * high + low) % 0x1_0000 == low;
  }

  /** Two lowercase digits a byte, the high half first. */
  lemma HexSpelled(b: Bytes, i: nat)
    requires i < |b|
    ensures var digits := Ascii("0123456789abcdef");
            HexEncode(b)[2 * i] == digits[b[i] / 16] && HexEncode(b)[2 * i + 1] == digits[b[i] % 16]
  {
    DigitSpelled(b[i] / 16);
    DigitSpelled(b[i] % 16);
    assert (2 * i) / 2 == i && (2 * i) % 2 == 0 && (2 * i + 1) / 2 == i && (2 * i + 1) % 2 == 1;
  }

  lemma DigitSpelled(n: nat)
    requires n < 16
    ensures HexDigit(n) == Ascii("0123456789abcdef")[n]
  {
  }

  lemma DecimalSpelled()
    ensures Decimal(0) == Ascii("0") && Decimal(305) == Ascii("305") && Decimal(-7) == Ascii("-7")
  {
    assert NatDigits(305) == NatDigits(30) + [0x35] && NatDigits(30) == NatDigits(3) + [0x30];
  }

  lemma LowerSpelled()
    ensures ToLower(Ascii("AZaz09@[-")) == Ascii("azaz09@[-")
  {
  }

  type CodePoint = c: nat | c < 0x1_0000

  /** The UTF-8 encoding of a code point below U+10000 that is no surrogate. */
  function Utf8(c: CodePoint): Bytes {
    if c < 0x80 then [c]
    else if c < 0x800 then [0xC0 + c / 0x40, 0x80 + c % 0x40]
    else [0xE0 + c / 0x1000, 0x80 + c / 0x40 % 0x40, 0x80 + c % 0x40]
  }

  /** Unicode's White_Space property, as Go's unicode.IsSpace lists it. */
  predicate IsSpace(c: CodePoint) {
    || 9 <= c <= 13 || c == 32 || c == 0x85 || c == 0xA0 || c == 0x1680 || 0x2000 <= c <= 0x200A
    || c == 0x2028 || c == 0x2029 || c == 0x202F || c == 0x205F || c == 0x3000
  }

  lemma SpaceSpelled(c: CodePoint)
    requires IsSpace(c)
    ensures Utf8(c) == if c < 0x80 then [c]
                       else if c < 0x800 then [0xC2, c]
                       else if c == 0x1680 then [0xE1, 0x9A, 0x80]
                       else if c <= 0x200A then [0xE2, 0x80, 0x80 + (c - 0x2000)]
                       else if c <= 0x202F then [0xE2, 0x80, 0xA8 + (c - 0x2028)]
                       else if c == 0x205F then [0xE2, 0x81, 0x9F]
                       else [0xE3, 0x80, 0x80]
  {
  }

  /** White space is read off either end of a text, a whole character at a time. */
  lemma SpacesRead(c: CodePoint, s: Bytes)
    requires IsSpace(c)
    ensures LeadingSpace(Utf8(c) + s) == |Utf8(c)| && TrailingSpace(s + Utf8(c)) == |Utf8(c)|
  {
    SpaceSpelled(c);
    var t := s + Utf8(c);
    assert forall i :: 0 <= i < |Utf8(c)| ==> t[|s| + i] == Utf8(c)[i];
  }

  /** And nothing else is: what is read is one of those characters. */
  lemma OnlySpacesRead(s: Bytes)
    ensures LeadingSpace(s) > 0 ==> exists c: CodePoint :: IsSpace(c) && s[..LeadingSpace(s)] == Utf8(c)
    ensures TrailingSpace(s) > 0 ==> exists c: CodePoint :: IsSpace(c) && s[|s| - TrailingSpace(s)..] == Utf8(c)
  {
    if LeadingSpace(s) > 0 { var c := SpaceOf(s[..LeadingSpace(s)]); }
    if TrailingSpace(s) > 0 { var c := SpaceOf(s[|s| - TrailingSpace(s)..]); }
  }

  lemma SpaceOf(w: Bytes) returns (c: CodePoint)
    requires || (|w| == 1 && (9 <= w[0] <= 13 || w[0] == 32))
             || (|w| == 2 && WideSpace2(w[0], w[1]))
             || (|w| == 3 && WideSpace3(w[0], w[1], w[2]))
    ensures IsSpace(c) && w == Utf8(c)
  {
    if |w| == 1 {
      c := w[0];
    } else if |w| == 2 {
      c := w[1];
    } else if w[0] == 0xE1 {
      c := 0x1680;
    } else if w[0] == 0xE3 {
      c := 0x3000;
    } else if w[1] == 0x81 {
      c := 0x205F;
    } else {
      c := 0x2000 + (w[2] as int - 0x80);
    }
    SpaceSpelled(c);
  }

  /** One white-space character. */
  ghost predicate SpaceText(w: Bytes) {
    exists c: CodePoint :: IsSpace(c) && w == Utf8(c)
  }

  ghost predicate AllSpaces(ws: seq<Bytes>) {
    forall i :: 0 <= i < |ws| ==> SpaceText(ws[i])
  }

  function Flat(ws: seq<Bytes>): Bytes {
    if ws == [] then [] else ws[0] + Flat(ws[1..])
  }

  lemma {:induction false} FlatSnoc(ws: seq<Bytes>, w: Bytes)
    ensures Flat(ws + [w]) == Flat(ws) + w
    decreases |ws|
  {
    if ws == [] {
      assert ws + [w] == [w] && [w][1..] == [];
    } else {
      assert (ws + [w])[0] == ws[0] && (ws + [w])[1..] == ws[1..] + [w];
      FlatSnoc(ws[1..], w);
    }
  }

  lemma SpaceAtStart(s: Bytes) returns (w: Bytes, rest: Bytes)
    requires LeadingSpace(s) > 0
    ensures SpaceText(w) && s == w + rest && TrimLeft(s) == TrimLeft(rest) && |rest| < |s|
  {
    w, rest := s[..LeadingSpace(s)], s[LeadingSpace(s)..];
    var c := SpaceOf(w);
  }

  lemma SpaceAtEnd(s: Bytes) returns (w: Bytes, rest: Bytes)
    requires TrailingSpace(s) > 0
    ensures SpaceText(w) && s == rest + w && TrimRight(s) == TrimRight(rest) && |rest| < |s|
  {
    var n := TrailingSpace(s);
    w, rest := s[|s| - n..], s[..|s| - n];
    var c := SpaceOf(w);
  }

  lemma {:induction false} TrimLeftExact(s: Bytes) returns (ws: seq<Bytes>)
    ensures AllSpaces(ws) && s == Flat(ws) + TrimLeft(s) && LeadingSpace(TrimLeft(s)) == 0
    decreases |s|
  {
    if LeadingSpace(s) == 0 {
      ws := [];
    } else {
      var w, rest := SpaceAtStart(s);
      var tail := TrimLeftExact(rest);
      ws := [w] + tail;
      assert ws[1..] == tail;
      Regroup(w, Flat(tail), TrimLeft(rest));
    }
  }

  lemma {:induction false} TrimRightExact(s: Bytes) returns (ws: seq<Bytes>)
    ensures AllSpaces(ws) && s == TrimRight(s) + Flat(ws) && TrailingSpace(TrimRight(s)) == 0
    decreases |s|
  {
    if TrailingSpace(s) == 0 {
      ws := [];
    } else {
      var w, rest := SpaceAtEnd(s);
      var head := TrimRightExact(rest);
      ws := head + [w];
      FlatSnoc(head, w);
      Regroup(TrimRight(rest), Flat(head), w);
    }
  }

  lemma LeadingStays(s: Bytes, back: Bytes)
    requires LeadingSpace(s + back) == 0
    ensures LeadingSpace(s) == 0
  {
    assert forall i :: 0 <= i < |s| ==> (s + back)[i] == s[i];
  }

  /** Trimming takes white space off both ends, and leaves none there. */
  lemma TrimExact(s: Bytes) returns (front: seq<Bytes>, back: seq<Bytes>)
    ensures AllSpaces(front) && AllSpaces(back) && s == Flat(front) + TrimSpace(s) + Flat(back)
    ensures LeadingSpace(TrimSpace(s)) == 0 && TrailingSpace(TrimSpace(s)) == 0
  {
    front := TrimLeftExact(s);
    var inner := TrimLeft(s);
    back := TrimRightExact(inner);
    LeadingStays(TrimRight(inner), Flat(back));
    Regroup(Flat(front), TrimRight(inner), Flat(back));
  }

  lemma Regroup(a: Bytes, b: Bytes, c: Bytes)
    ensures a + (b + c) == a + b + c
  {
  }
}
