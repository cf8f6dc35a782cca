/** The printed identity of a pin, and why printing loses nothing of it. */
module TupleKeys {
  import opened Octets
  import opened Images

  const BAR: Byte := 0x7C
  const EQUALS: Byte := 0x3D
  // "anchor=", "launch_file=", "launch_file_digest="
  const ANCHOR: Bytes := [0x61, 0x6E, 0x63, 0x68, 0x6F, 0x72, 0x3D]
  const LAUNCH_FILE: Bytes := [0x6C, 0x61, 0x75, 0x6E, 0x63, 0x68, 0x5F, 0x66, 0x69, 0x6C, 0x65, 0x3D]
  const LAUNCH_FILE_DIGEST: Bytes := [0x6C, 0x61, 0x75, 0x6E, 0x63, 0x68, 0x5F, 0x66, 0x69, 0x6C, 0x65, 0x5F,
                                      0x64, 0x69, 0x67, 0x65, 0x73, 0x74, 0x3D]

  /** What decides admission: everything but the name and the hook. */
  predicate SameTuple(a: ImagePin, b: ImagePin) {
    && a.digest == b.digest && a.registers == b.registers
    && a.anchor == b.anchor && a.launchFile == b.launchFile && a.launchFileDigest == b.launchFileDigest
  }

  // ------------------------------------------------------------- sorted keys

  lemma HasLeast(s: set<int>)
    ensures s == {} || exists m :: m in s && forall x :: x in s ==> m <= x
  {
    if s != {} {
      var x := AnElement(s);
      LeastBelow(s, x);
    }
  }

  lemma {:induction false} LeastBelow(s: set<int>, x: int)
    requires x in s
    ensures exists m :: m in s && forall y :: y in s ==> m <= y
    decreases set z | z in s && z < x
  {
    if y :| y in s && y < x {
      var below, lower := set z | z in s && z < x, set z | z in s && z < y;
      assert lower <= below && y in below && y !in lower;
      LeastBelow(s, y);
    } else {
      assert forall y :: y in s ==> x <= y;
    }
  }

  /** The keys of a register map in ascending order. */
  function SortedKeys(s: set<int>): (r: seq<int>)
    ensures forall x :: x in r <==> x in s
  {
    if s == {} then []
    else
      HasLeast(s);
      var m :| m in s && forall x :: x in s ==> m <= x;
      [m] + SortedKeys(s - {m})
  }

  lemma {:induction false} SortedKeysAscend(s: set<int>, i: nat, j: nat)
    requires i < j < |SortedKeys(s)|
    ensures SortedKeys(s)[i] < SortedKeys(s)[j]
  {
    HasLeast(s);
    var m := SortedKeys(s)[0];
    var rest := SortedKeys(s - {m});
    assert SortedKeys(s) == [m] + rest;
    if i > 0 {
      SortedKeysAscend(s - {m}, i - 1, j - 1);
    } else {
      assert rest[j - 1] in rest;
    }
  }

  ghost predicate AscendingKeys(keys: seq<int>) {
    forall i, j :: 0 <= i < j < |keys| ==> keys[i] < keys[j]
  }

  /** One set of keys has one ascending list. */
  lemma {:induction false} SortedUnique(a: seq<int>, b: seq<int>)
    requires AscendingKeys(a) && AscendingKeys(b) && forall x :: x in a <==> x in b
    ensures a == b
    decreases |a|
  {
    assert b != [] ==> b[0] in b;
    if a != [] {
      assert a[0] in a && a[0] in b && b[0] in a;
      var a', b' := a[1..], b[1..];
      assert a == [a[0]] + a' && b == [b[0]] + b';
      forall x ensures x in a' <==> x in b' {
        if x in a' { assert x in a; }
        if x in b' { assert x in b; }
      }
      SortedUnique(a', b');
    }
  }

  method InsertKey(keys: seq<int>, key: int) returns (r: seq<int>)
    requires AscendingKeys(keys) && key !in keys
    ensures AscendingKeys(r) && forall x :: x in r <==> x in keys || x == key
  {
    var i := 0;
    while i < |keys| && keys[i] < key
      invariant 0 <= i <= |keys| && forall j :: 0 <= j < i ==> keys[j] < key
    {
      i := i + 1;
    }
    assert keys == keys[..i] + keys[i..];
    return keys[..i] + [key] + keys[i..];
  }

  /** The keys of a map, in whatever order it is walked, sorted. */
  method SortKeys(s: set<int>) returns (keys: seq<int>)
    ensures keys == SortedKeys(s) && AscendingKeys(keys)
  {
    keys := [];
    var todo := s;
    while todo != {}
      invariant todo <= s && AscendingKeys(keys)
      invariant forall x :: x in keys <==> x in s && x !in todo
      decreases todo
    {
      ghost var witnessed := AnElement(todo);
      var key :| key in todo;
      todo := todo - {key};
      keys := InsertKey(keys, key);
    }
    forall i, j | 0 <= i < j < |SortedKeys(s)| ensures SortedKeys(s)[i] < SortedKeys(s)[j] {
      SortedKeysAscend(s, i, j);
    }
    SortedUnique(keys, SortedKeys(s));
  }

  // ----------------------------------------------------------------- the key

  function RegisterSegment(i: int, value: Bytes): Bytes {
    Decimal(i) + [EQUALS] + HexEncode(value)
  }

  function RegisterSegments(keys: seq<int>, registers: map<int, Bytes>): (r: seq<Bytes>)
    requires forall k :: k in keys ==> k in registers
    ensures |r| == |keys| && forall i :: 0 <= i < |r| ==> r[i] == RegisterSegment(keys[i], registers[keys[i]])
  {
    seq(|keys|, i requires 0 <= i < |keys| => RegisterSegment(keys[i], registers[keys[i]]))
  }

  function OptionalSegment(tag: Bytes, value: Option<Bytes>): seq<Bytes> {
    match value case None => [] case Some(v) => [tag + HexEncode(v)]
  }

  function BindingSegments(img: ImagePin): seq<Bytes> {
    OptionalSegment(ANCHOR, img.anchor)
    + (OptionalSegment(LAUNCH_FILE, img.launchFile) + OptionalSegment(LAUNCH_FILE_DIGEST, img.launchFileDigest))
  }

  function Segments(img: ImagePin): (r: seq<Bytes>)
    ensures |r| > 0
  {
    [HexEncode(img.digest)]
    + (RegisterSegments(SortedKeys(img.registers.Keys), img.registers) + BindingSegments(img))
  }

  function TupleKey(img: ImagePin): Bytes {
    Join(Segments(img), BAR)
  }

  /** tupleKey, built piece by piece. */
  method BuildTupleKey(img: ImagePin) returns (key: Bytes)
    ensures key == TupleKey(img)
  {
    var keys := SortKeys(img.registers.Keys);
    key := AppendAll(HexEncode(img.digest), keys, img.registers, img.anchor, img.launchFile, img.launchFileDigest);
  }

  method AppendAll(digest: Bytes, keys: seq<int>, registers: map<int, Bytes>,
                   anchor: Option<Bytes>, launchFile: Option<Bytes>, launchFileDigest: Option<Bytes>)
    returns (key: Bytes)
    requires forall k :: k in keys ==> k in registers
    ensures key == Join([digest] + (RegisterSegments(keys, registers)
                                    + (OptionalSegment(ANCHOR, anchor)
                                       + (OptionalSegment(LAUNCH_FILE, launchFile)
                                          + OptionalSegment(LAUNCH_FILE_DIGEST, launchFileDigest)))), BAR)
  {
    ghost var r := RegisterSegments(keys, registers);
    ghost var a, f := OptionalSegment(ANCHOR, anchor), OptionalSegment(LAUNCH_FILE, launchFile);
    key := AppendRegisters(digest, keys, registers, [digest]);
    key := AppendOptional(key, ANCHOR, anchor, [digest] + r);
    key := AppendOptional(key, LAUNCH_FILE, launchFile, [digest] + r + a);
    key := AppendOptional(key, LAUNCH_FILE_DIGEST, launchFileDigest, [digest] + r + a + f);
    Reassociate([digest], r, a, f, OptionalSegment(LAUNCH_FILE_DIGEST, launchFileDigest));
  }

  lemma Reassociate(d: seq<Bytes>, r: seq<Bytes>, a: seq<Bytes>, f: seq<Bytes>, g: seq<Bytes>)
    ensures d + r + a + f + g == d + (r + (a + (f + g)))
  {
  }

  method AppendRegisters(start: Bytes, keys: seq<int>, registers: map<int, Bytes>, ghost done: seq<Bytes>)
    returns (key: Bytes)
    requires done != [] && start == Join(done, BAR) && forall k :: k in keys ==> k in registers
    ensures key == Join(done + RegisterSegments(keys, registers), BAR)
  {
    key := start;
    ghost var regs := RegisterSegments(keys, registers);
    ghost var acc := done;
    for k := 0 to |keys|
      invariant acc == done + regs[..k] && key == Join(acc, BAR)
    {
      var segment := RegisterSegment(keys[k], registers[keys[k]]);
      key := AppendSegment(key, segment, acc);
      acc := acc + [segment];
      PrefixSnoc(done, regs, k, segment);
    }
    assert regs[..|keys|] == regs;
  }

  lemma PrefixSnoc(done: seq<Bytes>, all: seq<Bytes>, k: nat, x: Bytes)
    requires k < |all| && all[k] == x
    ensures done + all[..k] + [x] == done + all[..k + 1]
  {
  }

  method AppendOptional(start: Bytes, tag: Bytes, value: Option<Bytes>, ghost done: seq<Bytes>) returns (key: Bytes)
    requires done != [] && start == Join(done, BAR)
    ensures key == Join(done + OptionalSegment(tag, value), BAR)
  {
    if value.None? {
      assert done + [] == done;
      return start;
    }
    key := AppendSegment(start, tag + HexEncode(value.value), done);
  }

  method AppendSegment(key: Bytes, segment: Bytes, ghost done: seq<Bytes>) returns (r: Bytes)
    requires done != [] && key == Join(done, BAR)
    ensures r == Join(done + [segment], BAR)
  {
    assert (done + [segment])[..|done|] == done;
    return key + [BAR] + segment;
  }

  // ------------------------------------------------------------- injectivity

  lemma HexPlain(v: Bytes)
    ensures BAR !in HexEncode(v) && EQUALS !in HexEncode(v)
  {
  }

  ghost predicate AllPlain(segments: seq<Bytes>) {
    forall i :: 0 <= i < |segments| ==> BAR !in segments[i]
  }

  lemma PlainAppend(a: seq<Bytes>, b: seq<Bytes>)
    requires AllPlain(a) && AllPlain(b)
    ensures AllPlain(a + b)
  {
  }

  lemma OptionalPlain(tag: Bytes, value: Option<Bytes>)
    requires BAR !in tag
    ensures AllPlain(OptionalSegment(tag, value))
  {
    if value.Some? { HexPlain(value.value); }
  }

  lemma RegistersPlain(keys: seq<int>, registers: map<int, Bytes>)
    requires forall k :: k in keys ==> k in registers
    ensures AllPlain(RegisterSegments(keys, registers))
  {
    forall i | 0 <= i < |keys| ensures BAR !in RegisterSegment(keys[i], registers[keys[i]]) {
      HexPlain(registers[keys[i]]);
    }
  }

  lemma SegmentsPlain(img: ImagePin)
    ensures AllPlain(Segments(img))
  {
    var keys := SortedKeys(img.registers.Keys);
    var a, f, d := OptionalSegment(ANCHOR, img.anchor), OptionalSegment(LAUNCH_FILE, img.launchFile),
                   OptionalSegment(LAUNCH_FILE_DIGEST, img.launchFileDigest);
    OptionalPlain(ANCHOR, img.anchor);
    OptionalPlain(LAUNCH_FILE, img.launchFile);
    OptionalPlain(LAUNCH_FILE_DIGEST, img.launchFileDigest);
    PlainAppend(f, d);
    PlainAppend(a, f + d);
    RegistersPlain(keys, img.registers);
    PlainAppend(RegisterSegments(keys, img.registers), a + (f + d));
    HexPlain(img.digest);
    PlainAppend([HexEncode(img.digest)], RegisterSegments(keys, img.registers) + (a + (f + d)));
  }

  lemma RegisterSegmentInjective(i: int, v: Bytes, j: int, w: Bytes)
    requires RegisterSegment(i, v) == RegisterSegment(j, w)
    ensures i == j && v == w
  {
    HexPlain(v);
    HexPlain(w);
    FirstSep(Decimal(i), EQUALS, HexEncode(v));
    FirstSep(Decimal(j), EQUALS, HexEncode(w));
    var pieces := Split(RegisterSegment(i, v), EQUALS);
    assert pieces == [Decimal(i), HexEncode(v)] && pieces == [Decimal(j), HexEncode(w)];
    assert pieces[0] == Decimal(i) == Decimal(j) && pieces[1] == HexEncode(v) == HexEncode(w);
    DecimalRoundTrip(i);
    DecimalRoundTrip(j);
    HexInjective(v, w);
  }

  predicate IsRegisterSegment(s: Bytes) {
    s != [] && (s[0] == MINUS || 0x30 <= s[0] <= 0x39)
  }

  /** How many segments at the front are register segments. */
  function Leading(all: seq<Bytes>): nat {
    if all == [] || !IsRegisterSegment(all[0]) then 0 else 1 + Leading(all[1..])
  }

  /** Where the register segments end is told by the segments themselves. */
  lemma {:induction false} LeadingEnds(r: seq<Bytes>, t: seq<Bytes>)
    requires forall i :: 0 <= i < |r| ==> IsRegisterSegment(r[i])
    requires forall i :: 0 <= i < |t| ==> !IsRegisterSegment(t[i])
    ensures Leading(r + t) == |r|
  {
    if r == [] {
      assert r + t == t;
    } else {
      assert (r + t)[0] == r[0] && (r + t)[1..] == r[1..] + t;
      LeadingEnds(r[1..], t);
    }
  }

  lemma SplitByClass(r1: seq<Bytes>, t1: seq<Bytes>, r2: seq<Bytes>, t2: seq<Bytes>)
    requires r1 + t1 == r2 + t2
    requires forall i :: 0 <= i < |r1| ==> IsRegisterSegment(r1[i])
    requires forall i :: 0 <= i < |r2| ==> IsRegisterSegment(r2[i])
    requires forall i :: 0 <= i < |t1| ==> !IsRegisterSegment(t1[i])
    requires forall i :: 0 <= i < |t2| ==> !IsRegisterSegment(t2[i])
    ensures r1 == r2 && t1 == t2
  {
    LeadingEnds(r1, t1);
    LeadingEnds(r2, t2);
    var all := r1 + t1;
    assert r1 == all[..|r1|] && r2 == all[..|r2|] && t1 == all[|r1|..] && t2 == all[|r2|..];
  }

  predicate Tagged(tag: Bytes, s: Bytes) {
    tag <= s
  }

  lemma PeelOptional(tag: Bytes, o1: Option<Bytes>, t1: seq<Bytes>, o2: Option<Bytes>, t2: seq<Bytes>)
    requires OptionalSegment(tag, o1) + t1 == OptionalSegment(tag, o2) + t2
    requires forall i :: 0 <= i < |t1| ==> !Tagged(tag, t1[i])
    requires forall i :: 0 <= i < |t2| ==> !Tagged(tag, t2[i])
    ensures o1 == o2 && t1 == t2
  {
    var all := OptionalSegment(tag, o1) + t1;
    if o1.Some? { assert all[0] == tag + HexEncode(o1.value) && Tagged(tag, all[0]) && all[1..] == t1; }
    if o2.Some? { assert all[0] == tag + HexEncode(o2.value) && Tagged(tag, all[0]) && all[1..] == t2; }
    if o1.None? { assert all == t1; }
    if o2.None? { assert all == t2; }
    if o1.Some? && o2.Some? {
      assert HexEncode(o1.value) == all[0][|tag|..] == HexEncode(o2.value);
      HexInjective(o1.value, o2.value);
    }
  }

  lemma BindingSegmentsInjective(a: ImagePin, b: ImagePin)
    requires BindingSegments(a) == BindingSegments(b)
    ensures a.anchor == b.anchor && a.launchFile == b.launchFile && a.launchFileDigest == b.launchFileDigest
  {
    TagsApart(a);
    TagsApart(b);
    var fa, fb := OptionalSegment(LAUNCH_FILE, a.launchFile), OptionalSegment(LAUNCH_FILE, b.launchFile);
    var da, db := OptionalSegment(LAUNCH_FILE_DIGEST, a.launchFileDigest),
        OptionalSegment(LAUNCH_FILE_DIGEST, b.launchFileDigest);
    PeelOptional(ANCHOR, a.anchor, fa + da, b.anchor, fb + db);
    PeelOptional(LAUNCH_FILE, a.launchFile, da, b.launchFile, db);
    assert da + [] == da && db + [] == db;
    PeelOptional(LAUNCH_FILE_DIGEST, a.launchFileDigest, [], b.launchFileDigest, []);
  }

  lemma TagsApart(img: ImagePin)
    ensures var f, d := OptionalSegment(LAUNCH_FILE, img.launchFile),
            OptionalSegment(LAUNCH_FILE_DIGEST, img.launchFileDigest);
            && (forall i :: 0 <= i < |f + d| ==> !Tagged(ANCHOR, (f + d)[i]))
            && (forall i :: 0 <= i < |d| ==> !Tagged(LAUNCH_FILE, d[i]))
    ensures forall i :: 0 <= i < |BindingSegments(img)| ==> !IsRegisterSegment(BindingSegments(img)[i])
  {
    var d := OptionalSegment(LAUNCH_FILE_DIGEST, img.launchFileDigest);
    forall i | 0 <= i < |d| ensures !Tagged(LAUNCH_FILE, d[i]) {
      assert d[i][11] == LAUNCH_FILE_DIGEST[11] != LAUNCH_FILE[11];
    }
    forall s: Bytes | Tagged(ANCHOR, s) ensures s[0] == 0x61 { assert ANCHOR[0] == s[0]; }
  }

  /** The key prints every pin apart from every other: equal keys, equal tuples. */
  lemma TupleKeyExact(a: ImagePin, b: ImagePin)
    ensures TupleKey(a) == TupleKey(b) <==> SameTuple(a, b)
  {
    if TupleKey(a) == TupleKey(b) {
      SegmentsPlain(a);
      SegmentsPlain(b);
      SplitJoin(Segments(a), BAR);
      SplitJoin(Segments(b), BAR);
      SegmentsInjective(a, b);
    }
  }

  lemma SegmentsInjective(a: ImagePin, b: ImagePin)
    requires Segments(a) == Segments(b)
    ensures SameTuple(a, b)
  {
    var ka, kb := SortedKeys(a.registers.Keys), SortedKeys(b.registers.Keys);
    var ra, rb := RegisterSegments(ka, a.registers), RegisterSegments(kb, b.registers);
    assert Segments(a)[0] == HexEncode(a.digest) && Segments(b)[0] == HexEncode(b.digest);
    HexInjective(a.digest, b.digest);
    assert Segments(a)[1..] == ra + BindingSegments(a) && Segments(b)[1..] == rb + BindingSegments(b);
    TagsApart(a);
    TagsApart(b);
    SplitByClass(ra, BindingSegments(a), rb, BindingSegments(b));
    BindingSegmentsInjective(a, b);
    RegistersEqual(ka, a.registers, kb, b.registers);
  }

  lemma RegistersEqual(ka: seq<int>, a: map<int, Bytes>, kb: seq<int>, b: map<int, Bytes>)
    requires (forall k :: k in ka <==> k in a) && (forall k :: k in kb <==> k in b)
    requires RegisterSegments(ka, a) == RegisterSegments(kb, b)
    ensures a == b
  {
    var sa, sb := RegisterSegments(ka, a), RegisterSegments(kb, b);
    assert |ka| == |sa| == |sb| == |kb|;
    forall i | 0 <= i < |ka| ensures ka[i] == kb[i] && a[ka[i]] == b[kb[i]] {
      assert sa[i] == sb[i];
      RegisterSegmentInjective(ka[i], a[ka[i]], kb[i], b[kb[i]]);
    }
    assert ka == kb;
    forall k | k in a ensures k in b && a[k] == b[k] {
      var i :| 0 <= i < |ka| && ka[i] == k;
    }
    assert forall k :: k in b ==> k in a;
  }

  // -------------------------------------------------------- keys for a list

  /** keys holds each image's key. */
  ghost predicate Keyed(images: seq<ImagePin>, keys: seq<Bytes>) {
    && |keys| == |images|
    && forall j {:trigger TupleKey(images[j])} :: 0 <= j < |images| ==> keys[j] == TupleKey(images[j])
  }

  lemma KeyedExact(images: seq<ImagePin>, keys: seq<Bytes>, others: seq<ImagePin>, otherKeys: seq<Bytes>, i: nat,
                   j: nat)
    requires Keyed(images, keys) && Keyed(others, otherKeys) && i < |images| && j < |others|
    ensures keys[i] == otherKeys[j] <==> SameTuple(images[i], others[j])
  {
    TupleKeyExact(images[i], others[j]);
  }

  /** The key of one more image, told apart from the keys before it. */
  method NextKey(img: ImagePin, ghost images: seq<ImagePin>, ghost keys: seq<Bytes>) returns (key: Bytes)
    requires Keyed(images, keys)
    ensures Keyed(images + [img], keys + [key])
    ensures forall j :: 0 <= j < |images| ==> (keys[j] == key <==> SameTuple(images[j], img))
  {
    key := BuildTupleKey(img);
    KeyedSnoc(images, keys, img);
    forall j | 0 <= j < |images| ensures keys[j] == key <==> SameTuple(images[j], img) {
      TupleKeyExact(images[j], img);
    }
  }

  lemma KeyedSnoc(images: seq<ImagePin>, keys: seq<Bytes>, img: ImagePin)
    requires Keyed(images, keys)
    ensures Keyed(images + [img], keys + [TupleKey(img)])
  {
    var all := images + [img];
    forall j | 0 <= j < |all| ensures (keys + [TupleKey(img)])[j] == TupleKey(all[j]) {
      if j < |images| { assert all[j] == images[j] && keys[j] == TupleKey(images[j]); }
    }
  }

  lemma TagsSpelled()
    ensures ANCHOR == Ascii("anchor=") && LAUNCH_FILE == Ascii("launch_file=")
    ensures LAUNCH_FILE_DIGEST == Ascii("launch_file_digest=") && [BAR] == Ascii("|") && [EQUALS] == Ascii("=")
  {
  }
}
