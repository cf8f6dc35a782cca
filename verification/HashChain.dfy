/** Measurement registers as hash chains. The two hash functions are parameters:
    no theorem assumes they are injective. Where a result rests on collision
    resistance it says what the alternative is, and FindBreak computes it. */
module HashChain {
  import opened Octets

  datatype Hashes = Hashes(sha256: Bytes -> Bytes32, sha384: Bytes -> Bytes48)

  /** The register's reset value. */
  function Zero(): (r: Bytes48)
    ensures forall i :: 0 <= i < 48 ==> r[i] == 0
  {
    Zeros(48)
  }

  /** The hardware extend primitive. */
  function Extend(h: Hashes, reg: Bytes48, event: Bytes): Bytes48 {
    h.sha384(reg + event)
  }

  /** A register that started at seed and was extended with events, oldest first. */
  function Chain(h: Hashes, seed: Bytes48, events: seq<Bytes>): Bytes48 {
    if events == [] then seed
    else Extend(h, Chain(h, seed, events[..|events| - 1]), events[|events| - 1])
  }

  /** One workload image's event: the hash of its canonical digest string. */
  function Event(h: Hashes, digest: Bytes): Bytes48 {
    h.sha384(digest)
  }

  function Events(h: Hashes, digests: seq<Bytes>): (r: seq<Bytes>)
    ensures |r| == |digests| && forall i :: 0 <= i < |r| ==> r[i] == Event(h, digests[i])
  {
    seq(|digests|, i requires 0 <= i < |digests| => Event(h, digests[i]))
  }

  /** The register value after measuring digests on top of seed. */
  function Fold(h: Hashes, seed: Bytes48, digests: seq<Bytes>): Bytes48 {
    Chain(h, seed, Events(h, digests))
  }

  /** One extend, on the hash alone: the register becomes the hash of its old value
      and the event. */
  lemma ChainExact(h: Hashes, seed: Bytes48, events: seq<Bytes>, event: Bytes)
    ensures Chain(h, seed, []) == seed
    ensures Chain(h, seed, events + [event]) == h.sha384(Chain(h, seed, events) + event)
  {
    assert (events + [event])[..|events|] == events;
  }

  /** One measured digest, on the hash alone: its event is the hash of the digest
      string itself. */
  lemma FoldExact(h: Hashes, seed: Bytes48, digests: seq<Bytes>, d: Bytes)
    ensures Fold(h, seed, []) == seed
    ensures Fold(h, seed, digests + [d]) == h.sha384(Fold(h, seed, digests) + h.sha384(d))
  {
    assert Events(h, digests + [d]) == Events(h, digests) + [h.sha384(d)];
    ChainExact(h, seed, Events(h, digests), h.sha384(d));
  }

  lemma FoldSnoc(h: Hashes, seed: Bytes48, digests: seq<Bytes>, d: Bytes)
    ensures Fold(h, seed, digests + [d]) == Extend(h, Fold(h, seed, digests), Event(h, d))
  {
    var es := Events(h, digests + [d]);
    assert es[..|es| - 1] == Events(h, digests);
  }

  lemma {:induction false} ChainAppend(h: Hashes, seed: Bytes48, a: seq<Bytes>, b: seq<Bytes>)
    ensures Chain(h, seed, a + b) == Chain(h, Chain(h, seed, a), b)
    decreases |b|
  {
    if b == [] {
      assert a + b == a;
    } else {
      var n := |b| - 1;
      assert (a + b)[..|a + b| - 1] == a + b[..n];
      ChainAppend(h, seed, a, b[..n]);
    }
  }

  /** The loop of FromDigestsSeeded. */
  method FromDigestsSeeded(h: Hashes, seed: Bytes48, digests: seq<Bytes>) returns (reg: Bytes48)
    ensures reg == Fold(h, seed, digests)
  {
    reg := seed;
    for i := 0 to |digests|
      invariant reg == Fold(h, seed, digests[..i])
    {
      FoldSnoc(h, seed, digests[..i], digests[i]);
      assert digests[..i + 1] == digests[..i] + [digests[i]];
      reg := Extend(h, reg, Event(h, digests[i]));
    }
    assert digests[..|digests|] == digests;
  }

  // ---------------------------------------------------------- what can break

  /** Evidence that the hash failed: two inputs with one digest, or a chain that
      came back to the value it started from. */
  datatype Break = Collision(x: Bytes, y: Bytes) | Cycle(events: seq<Bytes>)

  /** x is one of the strings hashed while extending seed with events. */
  ghost predicate Hashed(h: Hashes, seed: Bytes48, events: seq<Bytes>, x: Bytes) {
    exists k :: 0 <= k < |events| && x == Chain(h, seed, events[..k]) + events[k]
  }

  /** The chains of a and of b break the hash: a string one of them hashed collides
      with a different one the other hashed, or one of them passes its seed again. */
  ghost predicate IsBreak(h: Hashes, seed: Bytes48, a: seq<Bytes>, b: seq<Bytes>, r: Break) {
    match r
    case Collision(x, y) => x != y && h.sha384(x) == h.sha384(y) && Hashed(h, seed, a, x) && Hashed(h, seed, b, y)
    case Cycle(events) => events != [] && Chain(h, seed, events) == seed && (events <= a || events <= b)
  }

  /** The same for digest lists: or two digests in one place have one event. */
  ghost predicate IsFoldBreak(h: Hashes, seed: Bytes48, a: seq<Bytes>, b: seq<Bytes>, r: Break) {
    || IsBreak(h, seed, Events(h, a), Events(h, b), r)
    || (r.Collision? && r.x != r.y && h.sha384(r.x) == h.sha384(r.y)
        && exists i :: 0 <= i < |a| && i < |b| && a[i] == r.x && b[i] == r.y)
  }

  ghost predicate ChainsBreak(h: Hashes, seed: Bytes48, a: seq<Bytes>, b: seq<Bytes>) {
    exists r :: IsBreak(h, seed, a, b, r)
  }

  ghost predicate FoldsBreak(h: Hashes, seed: Bytes48, a: seq<Bytes>, b: seq<Bytes>) {
    exists r :: IsFoldBreak(h, seed, a, b, r)
  }

  lemma HashedLast(h: Hashes, seed: Bytes48, events: seq<Bytes>)
    requires events != []
    ensures Hashed(h, seed, events, Chain(h, seed, events[..|events| - 1]) + events[|events| - 1])
  {
  }

  lemma HashedLonger(h: Hashes, seed: Bytes48, events: seq<Bytes>, x: Bytes)
    requires events != [] && Hashed(h, seed, events[..|events| - 1], x)
    ensures Hashed(h, seed, events, x)
  {
    var front := events[..|events| - 1];
    var k :| 0 <= k < |front| && x == Chain(h, seed, front[..k]) + front[k];
    assert front[..k] == events[..k] && front[k] == events[k];
  }

  /** Longer chains hashed all that shorter ones did. */
  lemma BreakLonger(h: Hashes, seed: Bytes48, a: seq<Bytes>, b: seq<Bytes>, r: Break)
    requires a != [] && b != [] && IsBreak(h, seed, a[..|a| - 1], b[..|b| - 1], r)
    ensures IsBreak(h, seed, a, b, r)
  {
    if r.Collision? {
      HashedLonger(h, seed, a, r.x);
      HashedLonger(h, seed, b, r.y);
    }
  }

  /** Computes the break two different event lists with one chain value exhibit. */
  function FindBreak(h: Hashes, seed: Bytes48, a: seq<Bytes>, b: seq<Bytes>): (r: Break)
    requires a != b && Chain(h, seed, a) == Chain(h, seed, b)
    ensures IsBreak(h, seed, a, b, r)
    decreases |a|
  {
    if a == [] then Cycle(b)
    else if b == [] then Cycle(a)
    else
      var a', b' := a[..|a| - 1], b[..|b| - 1];
      var x, y := Chain(h, seed, a') + a[|a| - 1], Chain(h, seed, b') + b[|b| - 1];
      if x != y then
        HashedLast(h, seed, a);
        HashedLast(h, seed, b);
        Collision(x, y)
      else
        SameLast(Chain(h, seed, a'), a, Chain(h, seed, b'), b);
        var inner := FindBreak(h, seed, a', b');
        BreakLonger(h, seed, a, b, inner);
        inner
  }

  lemma SameLast(ra: Bytes48, a: seq<Bytes>, rb: Bytes48, b: seq<Bytes>)
    requires a != [] && b != [] && a != b && ra + a[|a| - 1] == rb + b[|b| - 1]
    ensures ra == rb && a[..|a| - 1] != b[..|b| - 1]
  {
    var x := ra + a[|a| - 1];
    assert ra == x[..48] && a[|a| - 1] == x[48..] && b[|b| - 1] == x[48..];
    assert a == a[..|a| - 1] + [x[48..]] && b == b[..|b| - 1] + [x[48..]];
  }

  /** The same for digest lists, whose events are themselves hashes. */
  function FindFoldBreak(h: Hashes, seed: Bytes48, a: seq<Bytes>, b: seq<Bytes>): (r: Break)
    requires a != b && Fold(h, seed, a) == Fold(h, seed, b)
    ensures IsFoldBreak(h, seed, a, b, r)
  {
    if Events(h, a) != Events(h, b) then FindBreak(h, seed, Events(h, a), Events(h, b))
    else
      var i := FirstDifference(a, b);
      assert Events(h, a)[i] == Events(h, b)[i];
      Collision(a[i], b[i])
  }

  function FirstDifference(a: seq<Bytes>, b: seq<Bytes>): (i: nat)
    requires |a| == |b| && a != b
    ensures i < |a| && a[i] != b[i]
  {
    if a[0] != b[0] then 0 else 1 + FirstDifference(a[1..], b[1..])
  }

  /** So different digest lists with one register value break the hash. */
  lemma DifferentFolds(h: Hashes, seed: Bytes48, a: seq<Bytes>, b: seq<Bytes>)
    requires a != b && Fold(h, seed, a) == Fold(h, seed, b)
    ensures FoldsBreak(h, seed, a, b)
  {
    assert IsFoldBreak(h, seed, a, b, FindFoldBreak(h, seed, a, b));
  }

  /** A register seeded by one extend from zero, as a launch binding seeds it,
      returns to its seed only if the last string it hashed collides with the one
      that seeded it, or it was all zeros on the way. */
  lemma SeededCycle(h: Hashes, digest: Bytes, events: seq<Bytes>)
    requires events != [] && Chain(h, Extend(h, Zero(), digest), events) == Extend(h, Zero(), digest)
    ensures var seed := Extend(h, Zero(), digest);
            var last := Chain(h, seed, events[..|events| - 1]) + events[|events| - 1];
            || (last != Zero() + digest && h.sha384(last) == h.sha384(Zero() + digest))
            || exists k :: 0 <= k < |events| && Chain(h, seed, events[..k]) == Zero()
  {
    var seed, n := Extend(h, Zero(), digest), |events| - 1;
    var before := Chain(h, seed, events[..n]);
    if before + events[n] == Zero() + digest {
      assert before == (before + events[n])[..48] == (Zero() + digest)[..48] == Zero();
    }
  }
}
