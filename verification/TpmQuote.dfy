/** Reading the TPMS_ATTEST quote message (section 10.12 of TPM 2.0 Library
    Part 2: Structures): the nonce, the signed PCR selection and its digest. */
module TpmQuote {
  import opened Octets

  const ATTEST_MAGIC: nat := 0xFF54_4347

  datatype QuoteInfo = QuoteInfo(selected: seq<nat>, digest: Bytes)
  datatype QuoteError = TooShort | BadMagic | Truncated

  // --------------------------------------------------------- PCR bitmaps

  predicate Bit(b: Byte, k: nat)
    requires k < 8
  {
    match k
    case 0 => b % 2 == 1
    case 1 => b / 2 % 2 == 1
    case 2 => b / 4 % 2 == 1
    case 3 => b / 8 % 2 == 1
    case 4 => b / 16 % 2 == 1
    case 5 => b / 32 % 2 == 1
    case 6 => b / 64 % 2 == 1
    case _ => b / 128 % 2 == 1
  }

  function BitValue(b: Byte, k: nat): nat
    requires k < 8
  {
    if Bit(b, k) then 1 else 0
  }

  lemma Bits01(b: Byte)
    ensures b as int == 4 * (b as int / 4) + 2 * BitValue(b, 1) + BitValue(b, 0)
  {
  }

  lemma Bits23(b: Byte)
    ensures b as int / 4 == 4 * (b as int / 16) + 2 * BitValue(b, 3) + BitValue(b, 2)
  {
  }

  lemma Bits45(b: Byte)
    ensures b as int / 16 == 4 * (b as int / 64) + 2 * BitValue(b, 5) + BitValue(b, 4)
  {
  }

  lemma Bits67(b: Byte)
    ensures b as int / 64 == 2 * BitValue(b, 7) + BitValue(b, 6)
  {
  }

  /** Bit k of a byte is worth 2 to the k: a bitmap's low bits come first. */
  lemma BitsAddUp(b: Byte)
    ensures b as int == 128 * BitValue(b, 7) + 64 * BitValue(b, 6) + 32 * BitValue(b, 5) + 16 * BitValue(b, 4)
                        + 8 * BitValue(b, 3) + 4 * BitValue(b, 2) + 2 * BitValue(b, 1) + BitValue(b, 0)
  {
    Bits01(b);
    Bits23(b);
    Bits45(b);
    Bits67(b);
  }

  /** The register numbers bits 0..k of bitmap byte byteIdx select. */
  function ByteBits(byteIdx: nat, b: Byte, k: nat): seq<nat>
    requires k <= 8
  {
    if k == 0 then []
    else ByteBits(byteIdx, b, k - 1) + if Bit(b, k - 1) then [byteIdx * 8 + (k - 1)] else []
  }

  /** The register numbers a bitmap selects, in bitmap order. */
  function Bits(bitmap: Bytes): seq<nat> {
    if bitmap == [] then []
    else Bits(bitmap[..|bitmap| - 1]) + ByteBits(|bitmap| - 1, bitmap[|bitmap| - 1], 8)
  }

  ghost predicate Ascending(s: seq<nat>) {
    forall i, j :: 0 <= i < j < |s| ==> s[i] < s[j]
  }

  predicate InByte(byteIdx: nat, b: Byte, k: nat, n: nat)
    requires k <= 8
  {
    byteIdx * 8 <= n < byteIdx * 8 + k && Bit(b, n - byteIdx * 8)
  }

  predicate Selects(bitmap: Bytes, n: nat) {
    n / 8 < |bitmap| && Bit(bitmap[n / 8], n % 8)
  }

  lemma {:induction false} ByteBitsExact(byteIdx: nat, b: Byte, k: nat)
    requires k <= 8
    ensures Ascending(ByteBits(byteIdx, b, k))
    ensures forall n: nat :: n in ByteBits(byteIdx, b, k) <==> InByte(byteIdx, b, k, n)
  {
    if k > 0 {
      ByteBitsExact(byteIdx, b, k - 1);
      var prev := ByteBits(byteIdx, b, k - 1);
      forall i | 0 <= i < |prev| ensures prev[i] < byteIdx * 8 + (k - 1) {
        assert prev[i] in prev;
      }
    }
  }

  /** A bitmap selects exactly its set bits, in ascending order. */
  lemma {:induction false} BitsExact(bitmap: Bytes)
    ensures Ascending(Bits(bitmap))
    ensures forall n: nat :: n in Bits(bitmap) <==> Selects(bitmap, n)
  {
    if bitmap != [] {
      var m := |bitmap| - 1;
      var front, back := Bits(bitmap[..m]), ByteBits(m, bitmap[m], 8);
      BitsExact(bitmap[..m]);
      ByteBitsExact(m, bitmap[m], 8);
      forall n: nat ensures n in front + back <==> Selects(bitmap, n) {
        assert n in front <==> Selects(bitmap[..m], n);
        assert n in back <==> InByte(m, bitmap[m], 8, n);
      }
      forall i, j | 0 <= i < |front| && 0 <= j < |back| ensures front[i] < back[j] {
        assert front[i] in front && back[j] in back;
      }
    }
  }

  /** The two inner loops of parseQuoteInfo. */
  method SelectBits(bitmap: Bytes) returns (selected: seq<nat>)
    ensures selected == Bits(bitmap)
  {
    selected := [];
    for byteIdx := 0 to |bitmap|
      invariant selected == Bits(bitmap[..byteIdx])
    {
      var b := bitmap[byteIdx];
      ghost var before := selected;
      for bit := 0 to 8
        invariant selected == before + ByteBits(byteIdx, b, bit)
      {
        if Bit(b, bit) { selected := selected + [byteIdx * 8 + bit]; }
      }
      assert bitmap[..byteIdx + 1][..byteIdx] == bitmap[..byteIdx];
    }
    assert bitmap[..|bitmap|] == bitmap;
  }

  // ------------------------------------------------------------ the parse

  /** One selection's bits, and where the next one starts. */
  function ParseSelection(m: Bytes, off: nat): Option<(seq<nat>, nat)> {
    if off + 2 >= |m| || off + 3 + m[off + 2] as int > |m| then None
    else Some((Bits(m[off + 3..off + 3 + m[off + 2] as int]), off + 3 + m[off + 2] as int))
  }

  function ParseSelections(m: Bytes, off: nat, count: nat): Option<(seq<nat>, nat)>
    decreases count
  {
    if count == 0 then Some(([], off))
    else match ParseSelection(m, off)
      case None => None
      case Some((bits, next)) => Prepend(bits, ParseSelections(m, next, count - 1))
  }

  function Prepend(front: seq<nat>, r: Option<(seq<nat>, nat)>): Option<(seq<nat>, nat)> {
    match r
    case None => None
    case Some((rest, end)) => Some((front + rest, end))
  }

  lemma PrependTwice(a: seq<nat>, b: seq<nat>, r: Option<(seq<nat>, nat)>)
    ensures Prepend([], r) == r && Prepend(a, Prepend(b, r)) == Prepend(a + b, r)
  {
    if r.Some? {
      var rest := r.value.0;
      assert [] + rest == rest && a + (b + rest) == a + b + rest;
    }
  }

  /** The part of a quote from its selection count on. */
  function ParseTail(m: Bytes, count: nat): Result<QuoteInfo, QuoteError> {
    if count + 4 > |m| then Err(Truncated)
    else match ParseSelections(m, count + 4, ReadBe32(m, count))
      case None => Err(Truncated)
      case Some((selected, off)) =>
        if off + 2 > |m| || off + 2 + ReadBe16(m, off) > |m| then Err(Truncated)
        else Ok(QuoteInfo(selected, m[off + 2..off + 2 + ReadBe16(m, off)]))
  }

  /** Where the selection count stands, behind two sized fields, a clock and a
      firmware version. */
  function CountAt(m: Bytes): Result<nat, QuoteError> {
    if |m| < 10 then Err(TooShort)
    else
      var extra := 8 + ReadBe16(m, 6);
      if extra + 2 > |m| then Err(Truncated) else Ok(extra + 2 + ReadBe16(m, extra) + 25)
  }

  /** What parseQuoteInfo reads from a message. */
  function ParseQuote(m: Bytes): Result<QuoteInfo, QuoteError> {
    match CountAt(m) case Err(e) => Err(e) case Ok(count) => ParseTail(m, count)
  }

  /** One round of the selection loop of parseQuoteInfo. */
  method ReadSelection(m: Bytes, start: nat) returns (r: Option<(seq<nat>, nat)>)
    ensures r == ParseSelection(m, start)
  {
    var off := start;
    if off + 2 > |m| {
      return None;
    }
    off := off + 2;
    if off >= |m| {
      return None;
    }
    var size := m[off] as int;
    off := off + 1;
    if off + size > |m| {
      return None;
    }
    var bits := SelectBits(m[off..off + size]);
    return Some((bits, off + size));
  }

  /** The selection loop of parseQuoteInfo. */
  method ReadSelections(m: Bytes, start: nat, count: nat) returns (r: Option<(seq<nat>, nat)>)
    ensures r == ParseSelections(m, start, count)
  {
    var off: nat := start;
    var selected: seq<nat> := [];
    PrependTwice([], [], ParseSelections(m, start, count));
    for i := 0 to count
      invariant ParseSelections(m, start, count) == Prepend(selected, ParseSelections(m, off, count - i))
    {
      var selection := ReadSelection(m, off);
      if selection.None? {
        return None;
      }
      var (bits, next) := selection.value;
      PrependTwice(selected, bits, ParseSelections(m, next, count - i - 1));
      selected, off := selected + bits, next;
    }
    assert selected + [] == selected;
    return Some((selected, off));
  }

  /** The end of parseQuoteInfo, from the selection count on. */
  method ReadTail(m: Bytes, count: nat) returns (r: Result<QuoteInfo, QuoteError>)
    ensures r == ParseTail(m, count)
  {
    if count + 4 > |m| {
      return Err(Truncated);
    }
    var selections := ReadSelections(m, count + 4, ReadBe32(m, count));
    if selections.None? {
      return Err(Truncated);
    }
    var off := selections.value.1;
    if off + 2 > |m| {
      return Err(Truncated);
    }
    var size := ReadBe16(m, off);
    if off + 2 + size > |m| {
      return Err(Truncated);
    }
    return Ok(QuoteInfo(selections.value.0, m[off + 2..off + 2 + size]));
  }

  /** parseQuoteInfo: one forward pass over offsets. Any bytes at all are read
      within bounds. */
  method ParseQuoteInfo(m: Bytes) returns (r: Result<QuoteInfo, QuoteError>)
    ensures r == ParseQuote(m)
  {
    if |m| < 10 {
      return Err(TooShort);
    }
    var off := 8 + ReadBe16(m, 6);
    if off + 2 > |m| {
      return Err(Truncated);
    }
    off := off + 2 + ReadBe16(m, off) + 17 + 8;
    r := ReadTail(m, off);
  }

  /** The extraData field, where the relying party's nonce rides. */
  function ExtractNonce(m: Bytes): Result<Bytes, QuoteError> {
    if |m| < 10 then Err(TooShort)
    else if ReadBe32(m, 0) != ATTEST_MAGIC then Err(BadMagic)
    else
      var extra := 8 + ReadBe16(m, 6);
      if extra + 2 > |m| || extra + 2 + ReadBe16(m, extra) > |m| then Err(Truncated)
      else Ok(m[extra + 2..extra + 2 + ReadBe16(m, extra)])
  }

  // ------------------------------------------------------------ the format

  datatype AnySelection = Selection(alg: nat, bitmap: Bytes)
  type Selection = s: AnySelection | s.alg < 0x1_0000 && |s.bitmap| < 256 witness Selection(0, [])

  datatype Attest = Attest(magic: nat, kind: nat, signer: Bytes, extraData: Bytes, clock: Bytes, firmware: Bytes,
                           selections: seq<Selection>, digest: Bytes)

  ghost predicate Encodable(a: Attest) {
    && a.magic < 0x1_0000_0000 && a.kind < 0x1_0000
    && |a.signer| < 0x1_0000 && |a.extraData| < 0x1_0000 && |a.digest| < 0x1_0000
    && |a.clock| == 17 && |a.firmware| == 8
    && |a.selections| < 0x1_0000_0000
  }

  function EncodeSelections(sels: seq<Selection>): Bytes
  {
    if sels == [] then []
    else EncodeSelection(sels[0]) + EncodeSelections(sels[1..])
  }

  function Sized(b: Bytes): Bytes
    requires |b| < 0x1_0000
  {
    Be16(|b|) + b
  }

  /** Everything before the selection count. */
  function EncodeHead(a: Attest): (r: Bytes)
    requires Encodable(a)
    ensures |r| == 8 + |a.signer| + 2 + |a.extraData| + 25
  {
    Be32(a.magic) + Be16(a.kind) + Sized(a.signer) + Sized(a.extraData) + a.clock + a.firmware
  }

  function EncodeTail(a: Attest): Bytes
    requires Encodable(a)
  {
    Be32(|a.selections|) + EncodeSelections(a.selections) + Sized(a.digest)
  }

  function Encode(a: Attest): Bytes
    requires Encodable(a)
  {
    EncodeHead(a) + EncodeTail(a)
  }

  /** The bits of every selection, bank by bank. */
  function SelectedBits(sels: seq<Selection>): seq<nat> {
    if sels == [] then [] else Bits(sels[0].bitmap) + SelectedBits(sels[1..])
  }

  function EncodeSelection(s: Selection): Bytes
  {
    Be16(s.alg) + [|s.bitmap|] + s.bitmap
  }

  lemma SelectionAt(m: Bytes, off: nat, s: Selection)
    requires At(m, off, EncodeSelection(s))
    ensures off + 3 + |s.bitmap| <= |m| && m[off + 2] == |s.bitmap|
    ensures m[off + 3..off + 3 + |s.bitmap|] == s.bitmap
  {
    var size: Bytes := [|s.bitmap|];
    AtSplit(m, off, Be16(s.alg) + size, s.bitmap);
    AtSplit(m, off, Be16(s.alg), size);
    AtSlice(m, off + 3, s.bitmap);
  }

  lemma SelectionThen(m: Bytes, off: nat, s: Selection, rest: Bytes)
    requires At(m, off, EncodeSelection(s) + rest)
    ensures off + 3 + |s.bitmap| <= |m| && m[off + 2] == |s.bitmap|
    ensures m[off + 3..off + 3 + |s.bitmap|] == s.bitmap
    ensures At(m, off + 3 + |s.bitmap|, rest)
  {
    AtSplit(m, off, EncodeSelection(s), rest);
    SelectionAt(m, off, s);
  }

  lemma ParseOne(m: Bytes, off: nat, s: Selection, rest: Bytes)
    requires At(m, off, EncodeSelection(s) + rest)
    ensures ParseSelection(m, off) == Some((Bits(s.bitmap), off + |EncodeSelection(s)|))
  {
    SelectionThen(m, off, s, rest);
  }

  lemma ParseCons(m: Bytes, off: nat, n: nat, bits: seq<nat>, next: nat, rest: seq<nat>, end: nat)
    requires ParseSelection(m, off) == Some((bits, next)) && ParseSelections(m, next, n) == Some((rest, end))
    ensures ParseSelections(m, off, n + 1) == Some((bits + rest, end))
  {
  }

  lemma FirstSelection(m: Bytes, off: nat, sels: seq<Selection>)
    requires sels != [] && At(m, off, EncodeSelections(sels))
    ensures ParseSelection(m, off) == Some((Bits(sels[0].bitmap), off + |EncodeSelection(sels[0])|))
    ensures At(m, off + |EncodeSelection(sels[0])|, EncodeSelections(sels[1..]))
    ensures |EncodeSelections(sels)| == |EncodeSelection(sels[0])| + |EncodeSelections(sels[1..])|
  {
    AtSplit(m, off, EncodeSelection(sels[0]), EncodeSelections(sels[1..]));
    ParseOne(m, off, sels[0], EncodeSelections(sels[1..]));
  }

  lemma {:induction false} ParseEncodedSelections(m: Bytes, off: nat, sels: seq<Selection>)
    requires At(m, off, EncodeSelections(sels))
    ensures ParseSelections(m, off, |sels|) == Some((SelectedBits(sels), off + |EncodeSelections(sels)|))
    decreases |sels|
  {
    if sels != [] {
      var tail, next := sels[1..], off + |EncodeSelection(sels[0])|;
      FirstSelection(m, off, sels);
      ParseEncodedSelections(m, next, tail);
      ParseCons(m, off, |tail|, Bits(sels[0].bitmap), next, SelectedBits(tail), off + |EncodeSelections(sels)|);
    }
  }

  lemma SizedAt(m: Bytes, off: nat, b: Bytes)
    requires |b| < 0x1_0000 && At(m, off, Sized(b))
    ensures off + 2 + |b| <= |m| && ReadBe16(m, off) == |b| && m[off + 2..off + 2 + |b|] == b
  {
    AtSplit(m, off, Be16(|b|), b);
    AtSlice(m, off + 2, b);
    Be16At(m, off, |b|);
  }

  lemma HeadFields(m: Bytes, a: Attest)
    requires Encodable(a) && At(m, 0, EncodeHead(a))
    ensures At(m, 0, Be32(a.magic)) && At(m, 6, Sized(a.signer)) && At(m, 8 + |a.signer|, Sized(a.extraData))
  {
    var p1 := Be32(a.magic);
    var p2 := p1 + Be16(a.kind);
    var p3 := p2 + Sized(a.signer);
    var p4 := p3 + Sized(a.extraData);
    AtSplit(m, 0, p4 + a.clock, a.firmware);
    AtSplit(m, 0, p4, a.clock);
    AtSplit(m, 0, p3, Sized(a.extraData));
    AtSplit(m, 0, p2, Sized(a.signer));
    AtSplit(m, 0, p1, Be16(a.kind));
  }

  lemma TailFields(m: Bytes, count: nat, a: Attest)
    requires Encodable(a) && At(m, count, EncodeTail(a))
    ensures At(m, count, Be32(|a.selections|)) && At(m, count + 4, EncodeSelections(a.selections))
    ensures At(m, count + 4 + |EncodeSelections(a.selections)|, Sized(a.digest))
  {
    var sels := EncodeSelections(a.selections);
    AtSplit(m, count, Be32(|a.selections|) + sels, Sized(a.digest));
    AtSplit(m, count, Be32(|a.selections|), sels);
  }

  /** Every encoded quote, whatever follows it, reads back as its selected bits
      and digest, and its nonce as the extraData when the magic is right. */
  lemma QuoteRoundTrip(a: Attest, trailing: Bytes)
    requires Encodable(a)
    ensures ParseQuote(Encode(a) + trailing) == Ok(QuoteInfo(SelectedBits(a.selections), a.digest))
    ensures ExtractNonce(Encode(a) + trailing) == if a.magic == ATTEST_MAGIC then Ok(a.extraData) else Err(BadMagic)
  {
    AtPrefix(Encode(a), trailing);
    RoundTripAt(Encode(a) + trailing, a);
  }

  lemma RoundTripAt(m: Bytes, a: Attest)
    requires Encodable(a) && At(m, 0, Encode(a))
    ensures ParseQuote(m) == Ok(QuoteInfo(SelectedBits(a.selections), a.digest))
    ensures ExtractNonce(m) == if a.magic == ATTEST_MAGIC then Ok(a.extraData) else Err(BadMagic)
  {
    var count := |EncodeHead(a)|;
    AtSplit(m, 0, EncodeHead(a), EncodeTail(a));
    HeadOf(m, a);
    TailOf(m, count, a);
  }

  lemma HeadOf(m: Bytes, a: Attest)
    requires Encodable(a) && At(m, 0, EncodeHead(a))
    ensures CountAt(m) == Ok(|EncodeHead(a)|)
    ensures ExtractNonce(m) == if a.magic == ATTEST_MAGIC then Ok(a.extraData) else Err(BadMagic)
  {
    HeadFields(m, a);
    HeadRead(m, a.magic, a.signer, a.extraData);
  }

  lemma TailOf(m: Bytes, count: nat, a: Attest)
    requires Encodable(a) && At(m, count, EncodeTail(a))
    ensures ParseTail(m, count) == Ok(QuoteInfo(SelectedBits(a.selections), a.digest))
  {
    TailFields(m, count, a);
    TailRead(m, count, a.selections, a.digest);
  }

  lemma HeadRead(m: Bytes, magic: nat, signer: Bytes, extraData: Bytes)
    requires magic < 0x1_0000_0000 && |signer| < 0x1_0000 && |extraData| < 0x1_0000
    requires At(m, 0, Be32(magic)) && At(m, 6, Sized(signer)) && At(m, 8 + |signer|, Sized(extraData))
    ensures CountAt(m) == Ok(8 + |signer| + 2 + |extraData| + 25)
    ensures ExtractNonce(m) == if magic == ATTEST_MAGIC then Ok(extraData) else Err(BadMagic)
  {
    SizedAt(m, 6, signer);
    SizedAt(m, 8 + |signer|, extraData);
    Be32At(m, 0, magic);
    FieldsRead(m, 8 + |signer|, magic, extraData);
  }

  lemma FieldsRead(m: Bytes, extra: nat, magic: nat, extraData: Bytes)
    requires |m| >= 10 && extra == 8 + ReadBe16(m, 6) && ReadBe32(m, 0) == magic
    requires extra + 2 + |extraData| <= |m| && ReadBe16(m, extra) == |extraData|
    requires m[extra + 2..extra + 2 + |extraData|] == extraData
    ensures CountAt(m) == Ok(extra + 2 + |extraData| + 25)
    ensures ExtractNonce(m) == if magic == ATTEST_MAGIC then Ok(extraData) else Err(BadMagic)
  {
  }

  lemma SelectionsRead(m: Bytes, count: nat, sels: seq<Selection>)
    requires |sels| < 0x1_0000_0000 && At(m, count, Be32(|sels|)) && At(m, count + 4, EncodeSelections(sels))
    ensures ReadBe32(m, count) == |sels|
    ensures ParseSelections(m, count + 4, |sels|) == Some((SelectedBits(sels), count + 4 + |EncodeSelections(sels)|))
  {
    Be32At(m, count, |sels|);
    ParseEncodedSelections(m, count + 4, sels);
  }

  lemma TailRead(m: Bytes, count: nat, sels: seq<Selection>, digest: Bytes)
    requires |sels| < 0x1_0000_0000 && |digest| < 0x1_0000
    requires At(m, count, Be32(|sels|)) && At(m, count + 4, EncodeSelections(sels))
    requires At(m, count + 4 + |EncodeSelections(sels)|, Sized(digest))
    ensures ParseTail(m, count) == Ok(QuoteInfo(SelectedBits(sels), digest))
  {
    Be32At(m, count, |sels|);
    SelectionsRead(m, count, sels);
    TailAfter(m, count, |sels|, SelectedBits(sels), count + 4 + |EncodeSelections(sels)|, digest);
  }

  lemma TailAfter(m: Bytes, count: nat, n: nat, selected: seq<nat>, off: nat, digest: Bytes)
    requires count + 4 <= |m| && ReadBe32(m, count) == n && ParseSelections(m, count + 4, n) == Some((selected, off))
    requires |digest| < 0x1_0000 && At(m, off, Sized(digest))
    ensures ParseTail(m, count) == Ok(QuoteInfo(selected, digest))
  {
    SizedAt(m, off, digest);
  }

  // -------------------------------------------------- only quotes are read

  lemma SizedBack(m: Bytes, off: nat)
    requires off + 2 <= |m| && off + 2 + ReadBe16(m, off) <= |m|
    ensures At(m, off, Sized(m[off + 2..off + 2 + ReadBe16(m, off)]))
  {
    var size := ReadBe16(m, off);
    AtBe16(m, off);
    SliceAt(m, off + 2, off + 2 + size);
    AtJoin(m, off, Be16(size), m[off + 2..off + 2 + size]);
  }

  lemma SelectionBack(m: Bytes, off: nat) returns (s: Selection)
    requires off + 2 < |m| && off + 3 + m[off + 2] as int <= |m|
    ensures |s.bitmap| == m[off + 2] && At(m, off, EncodeSelection(s))
  {
    var bitmap := m[off + 3..off + 3 + m[off + 2] as int];
    var size: Bytes := [|bitmap|];
    s := Selection(ReadBe16(m, off), bitmap);
    AtBe16(m, off);
    SliceAt(m, off + 3, off + 3 + |bitmap|);
    assert At(m, off + 2, size) by { AtSlice(m, off + 2, size); }
    AtJoin(m, off, Be16(s.alg), size);
    AtJoin(m, off, Be16(s.alg) + size, bitmap);
  }

  lemma {:induction false} SelectionsBack(m: Bytes, off: nat, count: nat) returns (sels: seq<Selection>)
    requires off <= |m| && ParseSelections(m, off, count).Some?
    ensures |sels| == count && At(m, off, EncodeSelections(sels))
    decreases count
  {
    sels := [];
    if count > 0 {
      var s := SelectionBack(m, off);
      var next := off + 3 + |s.bitmap|;
      var tail := SelectionsBack(m, next, count - 1);
      sels := [s] + tail;
      assert sels[1..] == tail;
      AtJoin(m, off, EncodeSelection(s), EncodeSelections(tail));
    }
  }

  /** What ParseTail accepted is a selection list and a digest. */
  lemma TailBack(m: Bytes, count: nat) returns (sels: seq<Selection>, digest: Bytes)
    requires ParseTail(m, count).Ok?
    ensures |sels| < 0x1_0000_0000 && |digest| < 0x1_0000
    ensures At(m, count, Be32(|sels|) + EncodeSelections(sels) + Sized(digest))
  {
    var n := ReadBe32(m, count);
    sels := SelectionsBack(m, count + 4, n);
    ParseEncodedSelections(m, count + 4, sels);
    var off := count + 4 + |EncodeSelections(sels)|;
    digest := m[off + 2..off + 2 + ReadBe16(m, off)];
    SizedBack(m, off);
    AtBe32(m, count);
    AtJoin(m, count, Be32(n), EncodeSelections(sels));
    AtJoin(m, count, Be32(n) + EncodeSelections(sels), Sized(digest));
  }

  /** Any bytes that reach to the selection count are a quote's first fields. */
  lemma HeadBack(m: Bytes, extra: nat, count: nat) returns (a: Attest)
    requires |m| >= 10 && extra == 8 + ReadBe16(m, 6) && extra + 2 <= |m|
    requires count == extra + 2 + ReadBe16(m, extra) + 25 <= |m|
    ensures Encodable(a) && a.selections == [] && a.digest == []
    ensures At(m, 0, EncodeHead(a)) && |EncodeHead(a)| == count
  {
    var after := count - 25;
    a := Attest(ReadBe32(m, 0), ReadBe16(m, 4), m[8..extra], m[extra + 2..after],
                m[after..after + 17], m[after + 17..count], [], []);
    AtBe32(m, 0);
    AtBe16(m, 4);
    SizedBack(m, 6);
    SizedBack(m, extra);
    SliceAt(m, after, after + 17);
    SliceAt(m, after + 17, count);
    HeadJoined(m, a);
  }

  lemma HeadJoined(m: Bytes, a: Attest)
    requires Encodable(a) && At(m, 0, Be32(a.magic)) && At(m, 4, Be16(a.kind)) && At(m, 6, Sized(a.signer))
    requires var extra := 8 + |a.signer|; var after := extra + 2 + |a.extraData|;
             At(m, extra, Sized(a.extraData)) && At(m, after, a.clock) && At(m, after + 17, a.firmware)
    ensures At(m, 0, EncodeHead(a))
  {
    var p1 := Be32(a.magic);
    var p2 := p1 + Be16(a.kind);
    var p3 := p2 + Sized(a.signer);
    var p4 := p3 + Sized(a.extraData);
    AtJoin(m, 0, p1, Be16(a.kind));
    AtJoin(m, 0, p2, Sized(a.signer));
    AtJoin(m, 0, p3, Sized(a.extraData));
    AtJoin(m, 0, p4, a.clock);
    AtJoin(m, 0, p4 + a.clock, a.firmware);
  }

  /** m is a's encoding and whatever follows it. */
  ghost predicate Spells(m: Bytes, a: Attest, trailing: Bytes) {
    Encodable(a) && m == Encode(a) + trailing
  }

  lemma QuoteBack(m: Bytes) returns (a: Attest, trailing: Bytes)
    requires ParseQuote(m).Ok?
    ensures Spells(m, a, trailing)
  {
    var extra := 8 + ReadBe16(m, 6);
    var count := extra + 2 + ReadBe16(m, extra) + 25;
    var sels, digest := TailBack(m, count);
    var head := HeadBack(m, extra, count);
    a := head.(selections := sels, digest := digest);
    assert EncodeHead(a) == EncodeHead(head);
    AtJoin(m, 0, EncodeHead(a), EncodeTail(a));
    AtSlice(m, 0, Encode(a));
    trailing := m[|Encode(a)|..];
  }

  /** A message is read exactly when it is a quote's encoding and whatever follows
      it, and then as that quote's bits and digest. */
  lemma QuoteExact(m: Bytes, info: QuoteInfo)
    ensures ParseQuote(m) == Ok(info) <==>
            exists a, trailing :: Spells(m, a, trailing) && info == QuoteInfo(SelectedBits(a.selections), a.digest)
  {
    if ParseQuote(m) == Ok(info) {
      var a, trailing := QuoteBack(m);
      QuoteRoundTrip(a, trailing);
    }
    if a, trailing :| Spells(m, a, trailing) && info == QuoteInfo(SelectedBits(a.selections), a.digest) {
      QuoteRoundTrip(a, trailing);
    }
  }

  // ------------------------------------------------ where a nonce is read

  /** A quote's fields up to its extraData, all that reading a nonce looks at. */
  function NonceFront(kind: nat, signer: Bytes, nonce: Bytes): Bytes
    requires kind < 0x1_0000 && |signer| < 0x1_0000 && |nonce| < 0x1_0000
  {
    Be32(ATTEST_MAGIC) + Be16(kind) + Sized(signer) + Sized(nonce)
  }

  /** m starts with the TPM's magic and carries nonce as its extraData, whatever
      follows. */
  ghost predicate CarriesNonce(m: Bytes, kind: nat, signer: Bytes, nonce: Bytes) {
    && kind < 0x1_0000 && |signer| < 0x1_0000 && |nonce| < 0x1_0000
    && At(m, 0, NonceFront(kind, signer, nonce))
  }

  lemma NonceReads(m: Bytes, kind: nat, signer: Bytes, nonce: Bytes)
    requires CarriesNonce(m, kind, signer, nonce)
    ensures ExtractNonce(m) == Ok(nonce)
  {
    var p2 := Be32(ATTEST_MAGIC) + Be16(kind);
    AtSplit(m, 0, p2 + Sized(signer), Sized(nonce));
    AtSplit(m, 0, p2, Sized(signer));
    AtSplit(m, 0, Be32(ATTEST_MAGIC), Be16(kind));
    HeadRead(m, ATTEST_MAGIC, signer, nonce);
  }

  lemma NonceBack(m: Bytes, nonce: Bytes) returns (kind: nat, signer: Bytes)
    requires ExtractNonce(m) == Ok(nonce)
    ensures CarriesNonce(m, kind, signer, nonce)
  {
    var extra := 8 + ReadBe16(m, 6);
    kind, signer := ReadBe16(m, 4), m[8..extra];
    AtBe32(m, 0);
    AtBe16(m, 4);
    SizedBack(m, 6);
    SizedBack(m, extra);
    var p2 := Be32(ATTEST_MAGIC) + Be16(kind);
    AtJoin(m, 0, Be32(ATTEST_MAGIC), Be16(kind));
    AtJoin(m, 0, p2, Sized(signer));
    AtJoin(m, 0, p2 + Sized(signer), Sized(nonce));
  }

  /** A nonce is read exactly off the messages that carry it: the selections and the
      digest behind it may be malformed. */
  lemma NonceExact(m: Bytes, nonce: Bytes)
    ensures ExtractNonce(m) == Ok(nonce) <==> exists kind, signer :: CarriesNonce(m, kind, signer, nonce)
  {
    if ExtractNonce(m) == Ok(nonce) {
      var kind, signer := NonceBack(m, nonce);
    }
    if kind, signer :| CarriesNonce(m, kind, signer, nonce) {
      NonceReads(m, kind, signer, nonce);
    }
  }

  // -------------------------------------------------------------- sorting

  ghost predicate Sorted(s: seq<nat>) {
    forall i, j :: 0 <= i < j < |s| ==> s[i] <= s[j]
  }

  function Insert(x: nat, s: seq<nat>): (r: seq<nat>)
    ensures multiset(r) == multiset(s) + multiset{x}
  {
    if s == [] || x <= s[0] then [x] + s
    else
      assert s == [s[0]] + s[1..];
      [s[0]] + Insert(x, s[1..])
  }

  lemma InsertMember(x: nat, s: seq<nat>, y: nat)
    ensures y in Insert(x, s) <==> y == x || y in s
  {
    assert y in Insert(x, s) <==> y in multiset(Insert(x, s));
    assert y in s <==> y in multiset(s);
  }

  lemma {:induction false} InsertSorted(x: nat, s: seq<nat>)
    requires Sorted(s)
    ensures Sorted(Insert(x, s))
  {
    if s != [] && x > s[0] {
      var t := Insert(x, s[1..]);
      InsertSorted(x, s[1..]);
      forall i | 0 <= i < |t| ensures s[0] <= t[i] {
        InsertMember(x, s[1..], t[i]);
      }
    }
  }

  function Sort(s: seq<nat>): (r: seq<nat>)
    ensures Sorted(r) && multiset(r) == multiset(s)
  {
    if s == [] then []
    else
      assert s == [s[0]] + s[1..];
      InsertSorted(s[0], Sort(s[1..]));
      Insert(s[0], Sort(s[1..]))
  }

  /** SignedPCRSelection: what the signed digest covers, ascending. */
  function SignedSelection(m: Bytes): (r: Result<seq<nat>, QuoteError>)
    ensures r.Ok? <==> ParseQuote(m).Ok?
    ensures r.Ok? ==> Sorted(r.value) && multiset(r.value) == multiset(ParseQuote(m).value.selected)
  {
    match ParseQuote(m)
    case Err(e) => Err(e)
    case Ok(q) => Ok(Sort(q.selected))
  }

  /** One quote, byte for byte: nonce 07 09, register 8, digest AA. */
  function SampleHead(): Bytes {
    [0xFF, 0x54, 0x43, 0x47] + [0x80, 0x18] + [0, 0] + [0, 2, 7, 9] + Zeros(17) + Zeros(8)
  }

  function SampleTail(): Bytes {
    [0, 0, 0, 1] + [0, 0x0B] + [2, 0, 1] + [0, 1, 0xAA]
  }

  lemma QuoteSpelled()
    ensures ParseQuote(SampleHead() + SampleTail()) == Ok(QuoteInfo([8], [0xAA]))
    ensures ExtractNonce(SampleHead() + SampleTail()) == Ok([7, 9])
  {
    var s: Selection := Selection(0x0B, [0, 1]);
    var a := Attest(ATTEST_MAGIC, 0x8018, [], [7, 9], Zeros(17), Zeros(8), [s], [0xAA]);
    HeadSpelled(a);
    TailSpelled(a, s);
    OneBitmap(s);
    BitsSpelled();
    QuoteRoundTrip(a, []);
    assert SampleHead() + SampleTail() + [] == SampleHead() + SampleTail();
  }

  lemma OneBitmap(s: Selection)
    ensures SelectedBits([s]) == Bits(s.bitmap)
  {
    assert [s][1..] == [] && Bits(s.bitmap) + [] == Bits(s.bitmap);
  }

  lemma HeadSpelled(a: Attest)
    requires Encodable(a) && a.magic == ATTEST_MAGIC && a.kind == 0x8018 && a.signer == [] && a.extraData == [7, 9]
    requires a.clock == Zeros(17) && a.firmware == Zeros(8)
    ensures EncodeHead(a) == SampleHead()
  {
    assert Be32(ATTEST_MAGIC) == [0xFF, 0x54, 0x43, 0x47] && Be16(0x8018) == [0x80, 0x18];
    assert Sized([]) == [0, 0] && Sized([7, 9]) == [0, 2, 7, 9];
  }

  lemma TailSpelled(a: Attest, s: Selection)
    requires Encodable(a) && a.selections == [s] && a.digest == [0xAA] && s == Selection(0x0B, [0, 1])
    ensures EncodeTail(a) == SampleTail()
  {
    assert Be32(1) == [0, 0, 0, 1] && Sized([0xAA]) == [0, 1, 0xAA];
    assert [s][1..] == [] && EncodeSelections([s]) == EncodeSelection(s) + EncodeSelections([]);
    assert EncodeSelection(s) == [0, 0x0B] + [2, 0, 1];
  }

  lemma BitsSpelled()
    ensures Bits([0, 1]) == [8]
  {
    var none: Bytes, one: Bytes := [], [0];
    BitsSnoc(none, 0);
    BitsSnoc(one, 1);
    assert none + [0] == one && one + [1] == [0, 1];
    assert ByteBits(0, 0, 8) == [];
    assert ByteBits(1, 1, 8) == [8];
  }

  lemma BitsSnoc(bitmap: Bytes, b: Byte)
    ensures Bits(bitmap + [b]) == Bits(bitmap) + ByteBits(|bitmap|, b, 8)
  {
    assert (bitmap + [b])[..|bitmap|] == bitmap;
  }

  /** Why a message is refused: shorter than its fixed start, or cut short behind it. */
  lemma RefusedExact(m: Bytes)
    ensures ParseQuote(m).Err? ==> ParseQuote(m) == Err(if |m| < 10 then TooShort else Truncated)
  {
  }

  /** For the nonce alone, also without the TPM's magic. */
  lemma NonceRefusedExact(m: Bytes)
    ensures ExtractNonce(m).Err? ==>
              ExtractNonce(m) == Err(if |m| < 10 then TooShort
                                     else if m[..4] != [0xFF, 0x54, 0x43, 0x47] then BadMagic
                                     else Truncated)
    ensures |m| >= 10 && m[..4] != [0xFF, 0x54, 0x43, 0x47] ==> ExtractNonce(m) == Err(BadMagic)
  {
    if |m| >= 10 {
      assert m[..4] == [m[0], m[1], m[2], m[3]];
    }
  }
}
