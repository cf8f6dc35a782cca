/** What one reference set pins and another does not. */
module Diff {
  import opened Octets
  import opened HashChain
  import opened TeeTypes
  import opened Images
  import opened TupleKeys

  // ---------------------------------------------------------------- ordering

  /** Byte-wise lexicographic order, Go's strings.Compare. */
  predicate LexLess(a: Bytes, b: Bytes) {
    b != [] && (a == [] || a[0] < b[0] || (a[0] == b[0] && LexLess(a[1..], b[1..])))
  }

  lemma {:induction false} LexTotal(a: Bytes, b: Bytes)
    ensures LexLess(a, b) || a == b || LexLess(b, a)
    ensures !(LexLess(a, b) && LexLess(b, a)) && (a == b ==> !LexLess(a, b))
  {
    if a != [] && b != [] {
      LexTotal(a[1..], b[1..]);
      assert a == [a[0]] + a[1..] && b == [b[0]] + b[1..];
    }
  }

  lemma {:induction false} LexTransitive(a: Bytes, b: Bytes, c: Bytes)
    requires LexLess(a, b) && LexLess(b, c)
    ensures LexLess(a, c)
  {
    if a != [] {
      if a[0] == b[0] && b[0] == c[0] {
        LexTransitive(a[1..], b[1..], c[1..]);
      }
    }
  }

  ghost predicate InKeyOrder(keys: seq<Bytes>) {
    forall i, j :: 0 <= i < j < |keys| ==> LexLess(keys[i], keys[j])
  }

  lemma InsertAscending(keys: seq<Bytes>, i: nat, key: Bytes)
    requires InKeyOrder(keys) && i <= |keys|
    requires (i > 0 ==> LexLess(keys[i - 1], key)) && (i < |keys| ==> LexLess(key, keys[i]))
    ensures InKeyOrder(keys[..i] + [key] + keys[i..])
  {
    forall j | 0 <= j < i ensures LexLess(keys[j], key) {
      if j < i - 1 { LexTransitive(keys[j], keys[i - 1], key); }
    }
    forall j | i <= j < |keys| ensures LexLess(key, keys[j]) {
      if i < j { LexTransitive(key, keys[i], keys[j]); }
    }
  }

  // ------------------------------------------------------------------- index

  ghost predicate Pinned(images: seq<ImagePin>, img: ImagePin) {
    exists i :: 0 <= i < |images| && SameTuple(images[i], img)
  }

  /** m holds, under its key, one of images for each key of theirs. */
  ghost predicate Indexes(m: map<Bytes, ImagePin>, images: seq<ImagePin>, keys: seq<Bytes>) {
    && Keyed(images, keys)
    && m.Keys == Elements(keys)
    && forall key :: key in m ==> exists i :: 0 <= i < |images| && images[i] == m[key] && keys[i] == key
  }

  method BuildIndex(images: seq<ImagePin>) returns (m: map<Bytes, ImagePin>, ghost keys: seq<Bytes>)
    ensures Indexes(m, images, keys)
  {
    m, keys := map[], [];
    for i := 0 to |images|
      invariant Indexes(m, images[..i], keys)
    {
      var key := NextKey(images[i], images[..i], keys);
      IndexesSnoc(m, images[..i], keys, images[i], key);
      assert images[..i + 1] == images[..i] + [images[i]];
      m, keys := m[key := images[i]], keys + [key];
    }
    assert images[..|images|] == images;
  }

  lemma IndexesSnoc(m: map<Bytes, ImagePin>, images: seq<ImagePin>, keys: seq<Bytes>, img: ImagePin, key: Bytes)
    requires Indexes(m, images, keys) && Keyed(images + [img], keys + [key])
    ensures Indexes(m[key := img], images + [img], keys + [key])
  {
    var m', all, allKeys := m[key := img], images + [img], keys + [key];
    forall k | k in m' ensures exists i :: 0 <= i < |all| && all[i] == m'[k] && allKeys[i] == k {
      if k == key {
        assert all[|images|] == m'[k] && allKeys[|images|] == k;
      } else {
        var i :| 0 <= i < |images| && images[i] == m[k] && keys[i] == k;
        assert all[i] == m'[k] && allKeys[i] == k;
      }
    }
  }

  // -------------------------------------------------------------- difference

  /** Every pin r holds is one of from's that without lacks; every such pin is in r;
      and r lists each tuple once, in key order. */
  ghost predicate IsDifference(r: seq<ImagePin>, from: seq<ImagePin>, without: seq<ImagePin>) {
    && (forall i :: 0 <= i < |r| ==> r[i] in from && !Pinned(without, r[i]))
    && (forall i :: 0 <= i < |from| ==> !Pinned(without, from[i]) ==> Pinned(r, from[i]))
    && exists keys :: Keyed(r, keys) && InKeyOrder(keys)
  }

  /** SortFunc's one insertion: images by key, with img put in its place. */
  method InsertByKey(images: seq<ImagePin>, keys: seq<Bytes>, img: ImagePin, key: Bytes)
    returns (images': seq<ImagePin>, keys': seq<Bytes>)
    requires Keyed(images, keys) && InKeyOrder(keys) && key !in keys && Keyed([img], [key])
    ensures Keyed(images', keys') && InKeyOrder(keys')
    ensures Elements(keys') == Elements(keys) + {key}
    ensures forall p :: p in images' <==> p in images || p == img
  {
    var i := 0;
    while i < |keys| && LexLess(keys[i], key)
      invariant 0 <= i <= |keys| && forall j :: 0 <= j < i ==> LexLess(keys[j], key)
    {
      i := i + 1;
    }
    if i < |keys| { LexTotal(keys[i], key); }
    InsertAscending(keys, i, key);
    images', keys' := images[..i] + [img] + images[i..], keys[..i] + [key] + keys[i..];
    KeyedInsert(images, keys, i, img, key);
    assert images == images[..i] + images[i..] && keys == keys[..i] + keys[i..];
  }

  lemma KeyedInsert(images: seq<ImagePin>, keys: seq<Bytes>, i: nat, img: ImagePin, key: Bytes)
    requires Keyed(images, keys) && i <= |images| && Keyed([img], [key])
    ensures Keyed(images[..i] + [img] + images[i..], keys[..i] + [key] + keys[i..])
  {
    var all, allKeys := images[..i] + [img] + images[i..], keys[..i] + [key] + keys[i..];
    assert [key][0] == TupleKey([img][0]);
    forall j | 0 <= j < |all| ensures allKeys[j] == TupleKey(all[j]) {
      if j < i {
        assert all[j] == images[j] && keys[j] == TupleKey(images[j]);
      } else if j > i {
        assert all[j] == images[j - 1] && keys[j - 1] == TupleKey(images[j - 1]);
      }
    }
  }

  /** The images of w under keys g lacks, whatever order the map is walked in. */
  method Without(w: map<Bytes, ImagePin>, g: map<Bytes, ImagePin>, ghost images: seq<ImagePin>, ghost wk: seq<Bytes>)
    returns (r: seq<ImagePin>, keys: seq<Bytes>)
    requires Indexes(w, images, wk)
    ensures Keyed(r, keys) && InKeyOrder(keys) && Elements(keys) == w.Keys - g.Keys
    ensures forall p :: p in r ==> p in images
  {
    r, keys := [], [];
    var todo := w.Keys;
    while todo != {}
      invariant todo <= w.Keys
      invariant Keyed(r, keys) && InKeyOrder(keys) && Elements(keys) == w.Keys - g.Keys - todo
      invariant forall p :: p in r ==> p in images
      decreases todo
    {
      ghost var witnessed := AnElement(todo);
      var key :| key in todo;
      todo := todo - {key};
      if key !in g {
        IndexedKey(w, images, wk, key);
        r, keys := InsertByKey(r, keys, w[key], key);
      }
    }
  }

  lemma IndexedKey(w: map<Bytes, ImagePin>, images: seq<ImagePin>, wk: seq<Bytes>, key: Bytes)
    requires Indexes(w, images, wk) && key in w
    ensures w[key] in images && Keyed([w[key]], [key])
  {
    var i :| 0 <= i < |images| && images[i] == w[key] && wk[i] == key;
    assert wk[i] == TupleKey(images[i]);
  }

  lemma DifferenceHolds(r: seq<ImagePin>, keys: seq<Bytes>, from: seq<ImagePin>, fk: seq<Bytes>,
                        without: seq<ImagePin>, wk: seq<Bytes>)
    requires Keyed(r, keys) && InKeyOrder(keys) && Keyed(from, fk) && Keyed(without, wk)
    requires Elements(keys) == Elements(fk) - Elements(wk) && forall p :: p in r ==> p in from
    ensures IsDifference(r, from, without)
  {
    forall i | 0 <= i < |r| ensures r[i] in from && !Pinned(without, r[i]) {
      assert keys[i] in Elements(keys);
      forall j | 0 <= j < |without| ensures !SameTuple(without[j], r[i]) {
        assert wk[j] in Elements(wk);
        KeyedExact(without, wk, r, keys, j, i);
      }
    }
    forall i | 0 <= i < |from| && !Pinned(without, from[i]) ensures Pinned(r, from[i]) {
      assert fk[i] in Elements(fk);
      forall j | 0 <= j < |without| ensures wk[j] != fk[i] { KeyedExact(without, wk, from, fk, j, i); }
      assert fk[i] !in Elements(wk);
      assert fk[i] in Elements(keys);
      var k :| 0 <= k < |keys| && keys[k] == fk[i];
      KeyedExact(r, keys, from, fk, k, i);
    }
  }

  /** Diff: the images each side pins and the other does not. */
  method Difference(want: seq<ImagePin>, got: seq<ImagePin>) returns (missing: seq<ImagePin>, extra: seq<ImagePin>)
    ensures IsDifference(missing, want, got) && IsDifference(extra, got, want)
  {
    var w, wk := BuildIndex(want);
    var g, gk := BuildIndex(got);
    var mk, ek;
    missing, mk := Without(w, g, want, wk);
    extra, ek := Without(g, w, got, gk);
    DifferenceHolds(missing, mk, want, wk, got, gk);
    DifferenceHolds(extra, ek, got, gk, want, wk);
  }

  // ------------------------------------------------------------ consequences

  /** The sets pin the same tuples. */
  ghost predicate SamePins(a: seq<ImagePin>, b: seq<ImagePin>) {
    && (forall i :: 0 <= i < |a| ==> Pinned(b, a[i]))
    && (forall i :: 0 <= i < |b| ==> Pinned(a, b[i]))
  }

  /** A difference lists no tuple twice. */
  lemma DifferenceOnce(r: seq<ImagePin>, from: seq<ImagePin>, without: seq<ImagePin>, i: nat, j: nat)
    requires IsDifference(r, from, without) && i < j < |r|
    ensures !SameTuple(r[i], r[j])
  {
    var keys :| Keyed(r, keys) && InKeyOrder(keys);
    KeyedExact(r, keys, r, keys, i, j);
    LexTotal(keys[i], keys[j]);
  }

  /** Nothing is missing and nothing extra exactly when the sets pin the same. */
  lemma EmptyDifference(missing: seq<ImagePin>, extra: seq<ImagePin>, want: seq<ImagePin>, got: seq<ImagePin>)
    requires IsDifference(missing, want, got) && IsDifference(extra, got, want)
    ensures missing == [] && extra == [] <==> SamePins(want, got)
  {
    if missing != [] {
      var k :| 0 <= k < |want| && want[k] == missing[0];
      assert !Pinned(got, want[k]);
    }
    if extra != [] {
      var k :| 0 <= k < |got| && got[k] == extra[0];
      assert !Pinned(want, got[k]);
    }
    if missing == [] {
      forall i | 0 <= i < |want| ensures Pinned(got, want[i]) {
        assert !Pinned([], want[i]);
      }
    }
    if extra == [] {
      forall i | 0 <= i < |got| ensures Pinned(want, got[i]) {
        assert !Pinned([], got[i]);
      }
    }
  }

  /** Pins of one tuple have one hook. */
  ghost predicate SameHooks(a: seq<ImagePin>, b: seq<ImagePin>) {
    forall p, q :: p in a && q in b && SameTuple(p, q) ==> p.acceptExtension == q.acceptExtension
  }

  lemma SameHooksBack(a: seq<ImagePin>, b: seq<ImagePin>)
    requires SameHooks(a, b)
    ensures SameHooks(b, a)
  {
    forall q, p | q in b && p in a && SameTuple(q, p) ensures q.acceptExtension == p.acceptExtension {
      assert SameTuple(p, q);
    }
  }

  /** And then, hooks being equal, they admit the same evidence. */
  lemma SamePinsAdmitAlike(h: Hashes, r: VerificationResult, a: seq<ImagePin>, b: seq<ImagePin>, platform: Platform,
                           claimed: seq<Bytes>)
    requires SamePins(a, b) && SameHooks(a, b)
    ensures Admits(h, r, a, platform, claimed) <==> Admits(h, r, b, platform, claimed)
  {
    SameHooksBack(a, b);
    AdmitsWithin(h, r, a, b, platform, claimed);
    AdmitsWithin(h, r, b, a, platform, claimed);
  }

  lemma AdmitsWithin(h: Hashes, r: VerificationResult, a: seq<ImagePin>, b: seq<ImagePin>, platform: Platform,
                     claimed: seq<Bytes>)
    requires SamePins(a, b) && SameHooks(a, b)
    ensures Admits(h, r, a, platform, claimed) ==> Admits(h, r, b, platform, claimed)
  {
    if b != [] && Admits(h, r, a, platform, claimed) {
      assert Pinned(a, b[0]);
      WellFormedWithin(h, r, a, b, platform, claimed);
      MatchWithin(h, r, a, b, platform, claimed);
    }
  }

  lemma WellFormedWithin(h: Hashes, r: VerificationResult, a: seq<ImagePin>, b: seq<ImagePin>, platform: Platform,
                         claimed: seq<Bytes>)
    requires SamePins(a, b) && SameHooks(a, b)
    requires forall p :: p in a ==> WellFormed(h, platform.Family(), p)
    ensures forall q :: q in b ==> WellFormed(h, platform.Family(), q)
  {
    forall q | q in b ensures WellFormed(h, platform.Family(), q) {
      var p := Twin(b, a, q);
      assert SameTuple(p, q);
      NameIrrelevant(h, r, platform, claimed, p, q);
    }
  }

  lemma MatchWithin(h: Hashes, r: VerificationResult, a: seq<ImagePin>, b: seq<ImagePin>, platform: Platform,
                    claimed: seq<Bytes>)
    requires SamePins(a, b) && SameHooks(a, b)
    requires exists p :: p in a && PinMatches(h, r, platform, claimed, p)
    ensures exists q :: q in b && PinMatches(h, r, platform, claimed, q)
  {
    var p :| p in a && PinMatches(h, r, platform, claimed, p);
    var q := Twin(a, b, p);
    NameIrrelevant(h, r, platform, claimed, p, q);
  }

  /** The pin of to that has p's tuple. */
  lemma Twin(from: seq<ImagePin>, to: seq<ImagePin>, p: ImagePin) returns (q: ImagePin)
    requires p in from && forall i :: 0 <= i < |from| ==> Pinned(to, from[i])
    ensures q in to && SameTuple(p, q)
  {
    var i :| 0 <= i < |from| && from[i] == p;
    assert Pinned(to, from[i]);
    var j :| 0 <= j < |to| && SameTuple(to[j], from[i]);
    q := to[j];
  }

  /** Names carry no matching semantics. */
  lemma NameIrrelevant(h: Hashes, r: VerificationResult, platform: Platform, claimed: seq<Bytes>, p: ImagePin,
                       q: ImagePin)
    requires SameTuple(p, q) && p.acceptExtension == q.acceptExtension
    ensures WellFormed(h, platform.Family(), p) <==> WellFormed(h, platform.Family(), q)
    ensures PinMatches(h, r, platform, claimed, p) <==> PinMatches(h, r, platform, claimed, q)
  {
  }

  /** The key order: at the first place the keys differ the smaller byte comes first,
      and a key comes before its extensions. */
  lemma {:induction false} LexExact(a: Bytes, b: Bytes)
    ensures LexLess(a, b) <==>
            exists k :: 0 <= k <= |a| && k < |b| && a[..k] == b[..k] && (k == |a| || a[k] < b[k])
    decreases |a|
  {
    if a == [] {
      if b != [] { assert a[..0] == b[..0]; }
    } else if b != [] {
      var a', b' := a[1..], b[1..];
      LexExact(a', b');
      if a[0] < b[0] { assert a[..0] == b[..0]; }
      if k :| a[0] == b[0] && 0 <= k <= |a'| && k < |b'| && a'[..k] == b'[..k] && (k == |a'| || a'[k] < b'[k]) {
        assert a[..k + 1] == [a[0]] + a'[..k] && b[..k + 1] == [b[0]] + b'[..k];
        assert a[..k + 1] == b[..k + 1] && (k + 1 == |a| || a[k + 1] < b[k + 1]);
      }
      if k :| 0 < k <= |a| && k < |b| && a[..k] == b[..k] && (k == |a| || a[k] < b[k]) {
        assert a[0] == a[..k][0] == b[..k][0] == b[0];
        assert a'[..k - 1] == a[..k][1..] && b'[..k - 1] == b[..k][1..];
      }
    }
  }
}
