/** What a journal file says: canonical digests, one per line. */
module JournalText {
  import opened Octets

  const NEWLINE: Byte := 0x0A
  const AT: Byte := 0x40
  const SHA256_PREFIX: Bytes := [0x73, 0x68, 0x61, 0x32, 0x35, 0x36, 0x3A]  // "sha256:"

  datatype RefError = EmptyName | NotPinned | BadDigest

  /** "sha256:" followed by 64 lowercase hex characters. */
  predicate IsCanonical(s: Bytes) {
    |s| == 71 && s[..7] == SHA256_PREFIX && AllLowerHex(s[7..])
  }

  predicate AllCanonical(ds: seq<Bytes>) {
    forall i :: 0 <= i < |ds| ==> IsCanonical(ds[i])
  }

  /** Position after the last c, 0 when there is none. */
  function AfterLast(s: Bytes, c: Byte): (i: nat)
    ensures i <= |s| && (i > 0 ==> s[i - 1] == c) && forall k :: i <= k < |s| ==> s[k] != c
  {
    if s == [] then 0
    else if s[|s| - 1] == c then |s|
    else AfterLast(s[..|s| - 1], c)
  }

  /** Strict canonicalization of an image reference: a bare digest, or the
      digest after the last '@' of a non-empty name. */
  function CanonicalDigest(ref: Bytes): (r: Result<Bytes, RefError>)
    ensures r.Ok? ==> IsCanonical(r.value)
  {
    var i := AfterLast(ref, AT);
    if i == 1 then Err(EmptyName)
    else
      var digest := ref[i..];
      if |digest| < 7 || digest[..7] != SHA256_PREFIX then Err(NotPinned)
      else if |digest| != 71 || !AllLowerHex(digest[7..]) then Err(BadDigest)
      else Ok(digest)
  }

  lemma CanonicalChars(d: Bytes)
    requires IsCanonical(d)
    ensures AT !in d && NEWLINE !in d && TrimSpace(d) == d
  {
    forall i | 0 <= i < |d| ensures 0x30 <= d[i] < 0x7B && d[i] != AT {
      if i < 7 { assert d[i] == d[..7][i]; } else { assert d[i] == d[7..][i - 7]; }
    }
    TrimNothing(d);
  }

  /** The canonical strings spell the 32-byte digests, one each. */
  lemma CanonicalExact(s: Bytes)
    ensures IsCanonical(s) <==> exists b: Bytes :: |b| == 32 && s == Ascii("sha256:") + HexEncode(b)
  {
    PrefixSpelled();
    if IsCanonical(s) {
      var b := CanonicalBytes(s);
    }
    if b: Bytes :| |b| == 32 && s == Ascii("sha256:") + HexEncode(b) {
      CanonicalOf(b);
    }
  }

  lemma CanonicalBytes(s: Bytes) returns (b: Bytes)
    requires IsCanonical(s)
    ensures |b| == 32 && s == SHA256_PREFIX + HexEncode(b)
  {
    b := HexDecode(s[7..]);
    HexEncodeDecode(s[7..]);
    assert s == s[..7] + s[7..];
  }

  lemma CanonicalOf(b: Bytes)
    requires |b| == 32
    ensures IsCanonical(SHA256_PREFIX + HexEncode(b))
  {
    var s := SHA256_PREFIX + HexEncode(b);
    assert s[..7] == SHA256_PREFIX && s[7..] == HexEncode(b);
  }

  lemma PrefixSpelled()
    ensures SHA256_PREFIX == Ascii("sha256:") && [AT] == Ascii("@") && [NEWLINE] == Ascii("\n")
  {
  }

  /** Why a reference is refused: nothing before its only '@', no sha256 digest behind
      the last one, or a digest that is not 64 lowercase hex characters. */
  lemma RefusedExact(digest: Bytes)
    requires AT !in digest
    ensures CanonicalDigest([AT] + digest) == Err(EmptyName)
    ensures forall name: Bytes :: name != [] ==>
              CanonicalDigest(name + [AT] + digest) == CanonicalDigest(digest)
    ensures CanonicalDigest(digest) == if !(SHA256_PREFIX <= digest) then Err(NotPinned)
                                       else if IsCanonical(digest) then Ok(digest)
                                       else Err(BadDigest)
  {
    assert AfterLast(digest, AT) == 0 && digest[0..] == digest;
    var bare := [AT] + digest;
    assert bare[0] == AT && forall k :: 1 <= k < |bare| ==> bare[k] == digest[k - 1];
    assert AfterLast(bare, AT) == 1;
    forall name: Bytes | name != [] ensures CanonicalDigest(name + [AT] + digest) == CanonicalDigest(digest) {
      var whole := name + [AT] + digest;
      assert whole[|name|] == AT && forall k :: |name| < k < |whole| ==> whole[k] == digest[k - 1 - |name|];
      assert AfterLast(whole, AT) == |name| + 1;
      assert whole[|name| + 1..] == digest;
    }
  }

  /** The references naming one image: its canonical digest, alone or pinned
      after a non-empty name. Two spellings of an image canonicalize alike. */
  lemma CanonicalSpellings(ref: Bytes, d: Bytes)
    ensures CanonicalDigest(ref) == Ok(d) <==>
            IsCanonical(d) && (ref == d || exists name :: name != [] && ref == name + [AT] + d)
  {
    if CanonicalDigest(ref) == Ok(d) {
      var i := AfterLast(ref, AT);
      if i > 0 { assert ref == ref[..i - 1] + [AT] + d; }
    }
    if IsCanonical(d) {
      CanonicalChars(d);
      if ref != d && exists name :: name != [] && ref == name + [AT] + d {
        var name :| name != [] && ref == name + [AT] + d;
        PinnedSpelling(name, d);
      }
    }
  }

  lemma PinnedSpelling(name: Bytes, d: Bytes)
    requires name != [] && IsCanonical(d)
    ensures CanonicalDigest(name + [AT] + d) == Ok(d)
  {
    CanonicalChars(d);
    var ref := name + [AT] + d;
    assert ref[|name|] == AT;
    assert forall k :: |name| < k < |ref| ==> ref[k] == d[k - 1 - |name|];
    assert AfterLast(ref, AT) == |name| + 1;
    assert ref[|name| + 1..] == d;
  }

  /** The journal admits exactly the strings an event hashes. */
  lemma CanonicalFixpoint(line: Bytes)
    ensures CanonicalDigest(line) == Ok(line) <==> IsCanonical(line)
  {
    CanonicalSpellings(line, line);
  }

  // --------------------------------------------------------------- the parse

  /** Digests read from lines, first occurrences only, in order. */
  function Collect(lines: seq<Bytes>): (order: seq<Bytes>)
    ensures NoDup(order) && AllCanonical(order)
  {
    if lines == [] then []
    else
      var prev := Collect(lines[..|lines| - 1]);
      var line := TrimSpace(lines[|lines| - 1]);
      if IsCanonical(line) && line !in prev then prev + [line] else prev
  }

  /** The lines a parse skips as malformed. */
  function Skipped(lines: seq<Bytes>): seq<Bytes> {
    if lines == [] then []
    else
      var prev := Skipped(lines[..|lines| - 1]);
      var line := TrimSpace(lines[|lines| - 1]);
      if line != [] && !IsCanonical(line) then prev + [line] else prev
  }

  /** Exactly the canonical digests among the trimmed lines are collected. */
  lemma {:induction false} CollectExact(lines: seq<Bytes>, d: Bytes)
    ensures d in Collect(lines) <==> IsCanonical(d) && exists i :: 0 <= i < |lines| && TrimSpace(lines[i]) == d
  {
    if lines != [] {
      var front, n := lines[..|lines| - 1], |lines| - 1;
      CollectExact(front, d);
      if exists i :: 0 <= i < |lines| && TrimSpace(lines[i]) == d {
        var i :| 0 <= i < |lines| && TrimSpace(lines[i]) == d;
        assert i < n ==> TrimSpace(front[i]) == d;
      }
      if i :| 0 <= i < |front| && TrimSpace(front[i]) == d {
        assert TrimSpace(lines[i]) == d;
      }
    }
  }

  /** And in the order of the lines that first hold them. */
  lemma {:induction false} CollectInOrder(lines: seq<Bytes>, i: nat, j: nat, m: nat)
    requires i < j < |Collect(lines)| && m < |lines| && TrimSpace(lines[m]) == Collect(lines)[j]
    ensures exists k :: 0 <= k < m && TrimSpace(lines[k]) == Collect(lines)[i]
    decreases |lines|
  {
    var front, n := lines[..|lines| - 1], |lines| - 1;
    var prev := Collect(front);
    if m < n {
      assert TrimSpace(front[m]) == Collect(lines)[j];
      CollectExact(front, Collect(lines)[j]);
      CollectInOrder(front, i, j, m);
      var k :| 0 <= k < m && TrimSpace(front[k]) == prev[i];
      assert TrimSpace(lines[k]) == prev[i];
    } else {
      CollectExact(front, prev[i]);
      var k :| 0 <= k < |front| && TrimSpace(front[k]) == prev[i];
      assert TrimSpace(lines[k]) == prev[i];
    }
  }

  /** Exactly the lines that are neither blank nor canonical are skipped. */
  lemma {:induction false} SkippedExact(lines: seq<Bytes>, line: Bytes)
    ensures line in Skipped(lines) <==>
            line != [] && !IsCanonical(line) && exists i :: 0 <= i < |lines| && TrimSpace(lines[i]) == line
  {
    if lines != [] {
      var front, n := lines[..|lines| - 1], |lines| - 1;
      SkippedExact(front, line);
      if exists i :: 0 <= i < |lines| && TrimSpace(lines[i]) == line {
        var i :| 0 <= i < |lines| && TrimSpace(lines[i]) == line;
        assert i < n ==> TrimSpace(front[i]) == line;
      }
      if i :| 0 <= i < |front| && TrimSpace(front[i]) == line {
        assert TrimSpace(lines[i]) == line;
      }
    }
  }

  lemma CollectSnoc(lines: seq<Bytes>, line: Bytes)
    ensures var t := TrimSpace(line); var prev := Collect(lines);
            Collect(lines + [line]) == if IsCanonical(t) && t !in prev then prev + [t] else prev
  {
    assert (lines + [line])[..|lines|] == lines;
  }

  lemma SkippedSnoc(lines: seq<Bytes>, line: Bytes)
    ensures var t := TrimSpace(line);
            Skipped(lines + [line]) == Skipped(lines) + if t != [] && !IsCanonical(t) then [t] else []
  {
    assert (lines + [line])[..|lines|] == lines;
  }

  /** The digests a journal file records. */
  function Recorded(file: Bytes): (order: seq<Bytes>)
    ensures NoDup(order) && AllCanonical(order)
  {
    Collect(Split(file, NEWLINE))
  }

  /** The check parseJournal makes of one line: it canonicalizes to itself. */
  method AdmitsLine(line: Bytes) returns (ok: bool)
    ensures ok <==> IsCanonical(line)
  {
    CanonicalFixpoint(line);
    var d := CanonicalDigest(line);
    return d.Ok? && d.value == line;
  }

  /** parseJournal: one pass with a seen set. */
  method ParseJournal(file: Bytes) returns (order: seq<Bytes>, skipped: seq<Bytes>)
    ensures order == Recorded(file) && skipped == Skipped(Split(file, NEWLINE))
  {
    var lines := Split(file, NEWLINE);
    order, skipped := ParseLines(lines);
  }

  /** The loop of parseJournal. */
  method ParseLines(lines: seq<Bytes>) returns (order: seq<Bytes>, skipped: seq<Bytes>)
    ensures order == Collect(lines) && skipped == Skipped(lines)
  {
    var seen: set<Bytes> := {};
    order, skipped := [], [];
    for i := 0 to |lines|
      invariant order == Collect(lines[..i]) && skipped == Skipped(lines[..i])
      invariant forall d :: d in seen <==> d in order
    {
      assert lines[..i + 1] == lines[..i] + [lines[i]];
      CollectSnoc(lines[..i], lines[i]);
      SkippedSnoc(lines[..i], lines[i]);
      var line := TrimSpace(lines[i]);
      if line != [] {
        var ok := AdmitsLine(line);
        if !ok {
          skipped := skipped + [line];
        } else if line !in seen {
          seen := seen + {line};
          order := order + [line];
        }
      }
    }
    assert lines[..|lines|] == lines;
  }

  // -------------------------------------------------------------- the writes

  function Line(d: Bytes): Bytes {
    d + [NEWLINE]
  }

  /** The file a rollback writes: one line per digest. */
  function Lines(order: seq<Bytes>): Bytes {
    if order == [] then [] else Lines(order[..|order| - 1]) + Line(order[|order| - 1])
  }

  /** A file that ends where a line ends, so the next append starts a line. */
  predicate AtLineEnd(file: Bytes) {
    file == [] || file[|file| - 1] == NEWLINE
  }

  lemma CollectBlank(lines: seq<Bytes>)
    ensures Collect(lines + [[]]) == Collect(lines)
  {
    CollectSnoc(lines, []);
  }

  lemma SplitEnded(text: Bytes)
    ensures Split(text + [NEWLINE], NEWLINE) == Split(text, NEWLINE) + [[]]
  {
    SplitAppend(text, NEWLINE, []);
    assert text + [NEWLINE] + [] == text + [NEWLINE];
  }

  /** The complete lines of a file that ends at a line end. */
  function SplitAtEnd(file: Bytes): (ls: seq<Bytes>)
    requires AtLineEnd(file)
    ensures Split(file, NEWLINE) == ls + [[]]
  {
    if file == [] then []
    else
      var f := file[..|file| - 1];
      SplitEnded(f);
      assert file == f + [NEWLINE];
      Split(f, NEWLINE)
  }

  lemma SplitOneLine(line: Bytes)
    requires NEWLINE !in line
    ensures Split(Line(line), NEWLINE) == [line, []]
  {
    FirstSep(line, NEWLINE, []);
    assert Line(line) == line + [NEWLINE] + [];
  }

  /** What follows a line end splits on its own. */
  lemma SplitTail(file: Bytes, tail: Bytes)
    requires AtLineEnd(file)
    ensures Split(file + tail, NEWLINE) == SplitAtEnd(file) + Split(tail, NEWLINE)
  {
    if file == [] {
      assert file + tail == tail;
      assert [] + Split(tail, NEWLINE) == Split(tail, NEWLINE);
    } else {
      var f := file[..|file| - 1];
      assert file + tail == f + [NEWLINE] + tail;
      SplitAppend(f, NEWLINE, tail);
    }
  }

  /** What appending one newline-terminated line to a file adds to its record. */
  lemma RecordedAfterLine(file: Bytes, line: Bytes)
    requires AtLineEnd(file) && NEWLINE !in line
    ensures var t := TrimSpace(line); var prev := Recorded(file);
            Recorded(file + Line(line)) == if IsCanonical(t) && t !in prev then prev + [t] else prev
  {
    var ls := SplitAtEnd(file);
    assert Split(file + Line(line), NEWLINE) == ls + [line] + [[]] by {
      SplitTail(file, Line(line));
      SplitOneLine(line);
      assert ls + [line, []] == ls + [line] + [[]];
    }
    CollectBlank(ls);
    CollectSnoc(ls, line);
    CollectBlank(ls + [line]);
  }

  /** A last line without its newline is read like any other. */
  lemma RecordedAfterTail(file: Bytes, tail: Bytes)
    requires AtLineEnd(file) && NEWLINE !in tail
    ensures var t := TrimSpace(tail); var prev := Recorded(file);
            Recorded(file + tail) == if IsCanonical(t) && t !in prev then prev + [t] else prev
  {
    var ls := SplitAtEnd(file);
    assert Split(file + tail, NEWLINE) == ls + [tail] by {
      assert Split(tail, NEWLINE) == [tail];
      SplitTail(file, tail);
    }
    CollectBlank(ls);
    CollectSnoc(ls, tail);
  }

  /** A recorded digest is read back exactly once, after what was there. */
  lemma RecordedAfterRecord(file: Bytes, d: Bytes)
    requires AtLineEnd(file) && IsCanonical(d)
    ensures AtLineEnd(file + Line(d))
    ensures Recorded(file + Line(d)) == if d in Recorded(file) then Recorded(file) else Recorded(file) + [d]
  {
    assert NEWLINE !in d && TrimSpace(d) == d by { CanonicalChars(d); }
    RecordedAfterLine(file, d);
  }

  lemma LinesStep(front: seq<Bytes>, last: Bytes)
    requires AtLineEnd(Lines(front)) && IsCanonical(last)
    ensures AtLineEnd(Lines(front + [last]))
    ensures var prev := Recorded(Lines(front));
            Recorded(Lines(front + [last])) == if last in prev then prev else prev + [last]
  {
    assert (front + [last])[..|front|] == front;
    RecordedAfterRecord(Lines(front), last);
  }

  lemma NoLines()
    ensures Recorded(Lines([])) == [] && AtLineEnd(Lines([]))
  {
    CollectBlank([]);
    assert [] + [[]] == Split([], NEWLINE);
  }

  lemma NewLine(front: seq<Bytes>, last: Bytes)
    requires Recorded(Lines(front)) == front && AtLineEnd(Lines(front)) && IsCanonical(last) && last !in front
    ensures Recorded(Lines(front + [last])) == front + [last] && AtLineEnd(Lines(front + [last]))
  {
    LinesStep(front, last);
  }

  lemma OrderFront(order: seq<Bytes>)
    requires order != [] && NoDup(order) && AllCanonical(order)
    ensures var front, last := order[..|order| - 1], order[|order| - 1];
            order == front + [last] && NoDup(front) && AllCanonical(front) && last !in front && IsCanonical(last)
  {
  }

  /** Rollback and read are inverse on every order a journal can hold. */
  lemma {:induction false} RecordedLines(order: seq<Bytes>)
    requires NoDup(order) && AllCanonical(order)
    ensures Recorded(Lines(order)) == order && AtLineEnd(Lines(order))
  {
    if order == [] {
      NoLines();
    } else {
      OrderFront(order);
      RecordedLines(order[..|order| - 1]);
      NewLine(order[..|order| - 1], order[|order| - 1]);
    }
  }

  /** An append that tore inside d's line is lost together with the record that
      follows it: the two run together into one malformed line. */
  lemma TornLine(file: Bytes, d: Bytes, written: nat, next: Bytes)
    requires AtLineEnd(file) && IsCanonical(d) && IsCanonical(next) && 0 < written <= |d|
    ensures Recorded(file + Line(d)[..written] + Line(next)) == Recorded(file)
  {
    CanonicalChars(d);
    CanonicalChars(next);
    var line := d[..written] + next;
    assert Line(d)[..written] == d[..written];
    assert file + Line(d)[..written] + Line(next) == file + Line(line);
    assert line[0] == d[0] == d[..7][0] == 0x73;
    assert line[|line| - 1] == next[70] == next[7..][63];
    TrimNothing(line);
    RecordedAfterLine(file, line);
  }

  /** What a reader makes of an append that tore: nothing, until the whole digest
      is there. */
  lemma TornTail(file: Bytes, d: Bytes, written: nat)
    requires AtLineEnd(file) && IsCanonical(d) && d !in Recorded(file) && 0 < written <= |d|
    ensures Recorded(file + Line(d)[..written]) == if written == |d| then Recorded(file) + [d] else Recorded(file)
  {
    CanonicalChars(d);
    var tail := d[..written];
    assert Line(d)[..written] == tail;
    CanonicalPrintable(d, 0);
    CanonicalPrintable(d, written - 1);
    assert tail[0] == d[0] && tail[|tail| - 1] == d[written - 1];
    TrimNothing(tail);
    RecordedAfterTail(file, tail);
    if written == |d| { assert tail == d; }
  }

  lemma CanonicalPrintable(d: Bytes, i: nat)
    requires IsCanonical(d) && i < |d|
    ensures 0x30 <= d[i] < 0x7B
  {
    if i < 7 { assert d[i] == d[..7][i]; } else { assert d[i] == d[7..][i - 7]; }
  }

  // ------------------------------------------------- appends to any file at all

  /** Behind anything, a first part of a canonical digest reads as that whole
      digest or as nothing canonical. */
  lemma AppendedLine(tail: Bytes, d: Bytes, written: nat)
    requires IsCanonical(d) && 0 < written <= |d| && IsCanonical(TrimSpace(tail + d[..written]))
    ensures TrimSpace(tail + d[..written]) == d
  {
    var piece := d[..written];
    CanonicalPrintable(d, 0);
    CanonicalPrintable(d, written - 1);
    TrimLeftAppend(tail, piece);
    var rest := TrimLeft(tail);
    var line := rest + piece;
    assert line[|line| - 1] == piece[written - 1] == d[written - 1];
    assert TrimRight(line) == line;
    assert line[|rest|] == piece[0] == d[..7][0] == 0x73;
    if rest != [] {
      NoLaterS(line, |rest|);
    } else {
      assert line == piece;
    }
  }

  /** A canonical digest holds its 's' at the front only. */
  lemma NoLaterS(d: Bytes, i: nat)
    requires IsCanonical(d) && 0 < i < |d|
    ensures d[i] != 0x73
  {
    if i < 7 { assert d[i] == d[..7][i]; } else { assert d[i] == d[7..][i - 7]; }
  }

  /** Whatever a file ends in, appending any part of d's line records nothing that
      was not there but d. */
  lemma AppendedWithin(file: Bytes, d: Bytes, written: nat)
    requires IsCanonical(d) && written <= |Line(d)|
    ensures forall x :: x in Recorded(file + Line(d)[..written]) ==> x in Recorded(file) || x == d
  {
    var head, tail := Tail(file);
    if written == 0 {
      assert file + Line(d)[..0] == file;
    } else if written <= |d| {
      assert file + Line(d)[..written] == head + (tail + d[..written]);
      PieceWithin(head, tail, d, written);
    } else {
      assert file + Line(d)[..written] == head + Line(tail + d);
      LineWithin(head, tail, d);
    }
  }

  /** The complete lines of a file, and what follows the last of them. */
  lemma Tail(file: Bytes) returns (head: Bytes, tail: Bytes)
    ensures file == head + tail && AtLineEnd(head) && NEWLINE !in tail
  {
    var i := AfterLast(file, NEWLINE);
    head, tail := file[..i], file[i..];
  }

  lemma PieceWithin(head: Bytes, tail: Bytes, d: Bytes, written: nat)
    requires AtLineEnd(head) && NEWLINE !in tail && IsCanonical(d) && 0 < written <= |d|
    ensures forall x :: x in Recorded(head + (tail + d[..written])) ==> x in Recorded(head + tail) || x == d
  {
    var piece := d[..written];
    assert NEWLINE !in tail + piece by { CanonicalChars(d); }
    RecordedAfterTail(head, tail);
    RecordedAfterTail(head, tail + piece);
    if IsCanonical(TrimSpace(tail + piece)) { AppendedLine(tail, d, written); }
  }

  lemma LineWithin(head: Bytes, tail: Bytes, d: Bytes)
    requires AtLineEnd(head) && NEWLINE !in tail && IsCanonical(d)
    ensures forall x :: x in Recorded(head + Line(tail + d)) ==> x in Recorded(head + tail) || x == d
  {
    var line := tail + d;
    assert NEWLINE !in line by { CanonicalChars(d); }
    RecordedAfterTail(head, tail);
    RecordedAfterLine(head, line);
    if IsCanonical(TrimSpace(line)) { WholeLine(tail, d); }
  }

  lemma WholeLine(tail: Bytes, d: Bytes)
    requires IsCanonical(d) && IsCanonical(TrimSpace(tail + d))
    ensures TrimSpace(tail + d) == d
  {
    assert d[..|d|] == d;
    AppendedLine(tail, d, |d|);
  }

  /** A rewritten file records nothing but what it was written from. */
  lemma {:induction false} LinesWithin(order: seq<Bytes>)
    requires AllCanonical(order)
    ensures AtLineEnd(Lines(order)) && forall x :: x in Recorded(Lines(order)) ==> x in order
  {
    if order == [] {
      NoLines();
    } else {
      var front, last := order[..|order| - 1], order[|order| - 1];
      LinesWithin(front);
      LinesStep(front, last);
      assert order == front + [last];
    }
  }
}
