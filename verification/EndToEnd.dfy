/** The guest's journal and the remote verifier, end to end. */
module EndToEnd {
  import opened Octets
  import opened HashChain
  import opened JournalText
  import opened JournalProtocol
  import opened TeeTypes
  import opened Binding
  import Images

  /** r is verified evidence from a TDX guest launched for bound, quoted when the
      guest's journal system was in state s. */
  ghost predicate QuotedAt(h: Hashes, r: VerificationResult, bound: Bound, s: Sys) {
    && r.signatureValid && r.platform.HasRegisters()
    && Want(h, r.platform, bound).Ok?
    && 3 in r.claims.rtmrs
    && r.claims.rtmrs[3] == HexEncode(Register(h, Want(h, r.platform, bound).value, s))
  }

  /** With honest opens, what was extended when the quote was taken is a prefix of
      the list read later, and the quote proves it. */
  lemma HonestQuote(h: Hashes, r: VerificationResult, bound: Bound, seed: Bytes48,
                    s: Sys, quoted: seq<Step>, later: seq<Step>)
    requires Consistent(s) && Disciplined(quoted + later) && HonestRun(h, seed, s, quoted + later)
    requires QuotedAt(h, r, bound, Run(h, seed, s, quoted)) && seed == Want(h, r.platform, bound).value
    ensures var history := Run(h, seed, s, quoted).history;
            var claimed := Recorded(Run(h, seed, s, quoted + later).file);
            history <= claimed && Proves(h, r, bound, claimed, |history|)
  {
    var history := Run(h, seed, s, quoted).history;
    var claimed := Recorded(Run(h, seed, s, quoted + later).file);
    ExtendedStaysPrefix(h, seed, s, quoted, later);
    var value := Register(h, seed, Run(h, seed, s, quoted));
    ParseDigestExact(r.claims.rtmrs[3], 48, value);
    assert BindingOf(r) == Ok(value);
    assert claimed[..|history|] == history;
  }

  /** The history and some earlier part of it break the hash. */
  ghost predicate HistoryBreaks(h: Hashes, seed: Bytes48, history: seq<Bytes>) {
    exists j :: 0 <= j < |history| && FoldsBreak(h, seed, history[..j], history)
  }

  /** A proven prefix is the least one, or what extending it hashed breaks the hash. */
  lemma LeastOrBreak(h: Hashes, r: VerificationResult, bound: Bound, claimed: seq<Bytes>, k: nat)
    requires Want(h, r.platform, bound).Ok? && k <= |claimed| && Proves(h, r, bound, claimed, k)
    ensures || ProvesLeast(h, r, bound, claimed, k)
            || HistoryBreaks(h, Want(h, r.platform, bound).value, claimed[..k])
  {
    if !ProvesLeast(h, r, bound, claimed, k) {
      var j :| 0 <= j < k && Proves(h, r, bound, claimed, j);
      ProvenPrefixUnique(h, r, bound, claimed, j, k);
      assert claimed[..k][..j] == claimed[..j];
    }
  }

  /** The quote proves, of the list read from the journal at any later moment of
      the guest's life, exactly the digests that had been extended when it was
      taken; otherwise the hash broke on what some open compared, or on what was
      extended. */
  lemma QuoteProvesHistory(h: Hashes, r: VerificationResult, bound: Bound, seed: Bytes48,
                           s: Sys, quoted: seq<Step>, later: seq<Step>)
    requires Consistent(s) && Disciplined(quoted + later) && ReadsRegister(h, seed, s, quoted + later)
    requires QuotedAt(h, r, bound, Run(h, seed, s, quoted)) && seed == Want(h, r.platform, bound).value
    ensures var history := Run(h, seed, s, quoted).history;
            var claimed := Recorded(Run(h, seed, s, quoted + later).file);
            || RunBreaks(h, seed, s, quoted + later)
            || HistoryBreaks(h, seed, history)
            || (history <= claimed && ProvesLeast(h, r, bound, claimed, |history|))
  {
    if HonestRun(h, seed, s, quoted + later) {
      var history := Run(h, seed, s, quoted).history;
      var claimed := Recorded(Run(h, seed, s, quoted + later).file);
      HonestQuote(h, r, bound, seed, s, quoted, later);
      assert claimed[..|history|] == history;
      LeastOrBreak(h, r, bound, claimed, |history|);
    } else {
      DishonestRun(h, seed, s, quoted + later);
    }
  }

  /** So an image pinned by anchor or launch file digest is admitted, as far as its
      binding goes, exactly when its hook accepts everything the guest had measured
      when it was quoted. */
  lemma HookJudgesHistory(h: Hashes, r: VerificationResult, bound: Bound, seed: Bytes48,
                          s: Sys, quoted: seq<Step>, later: seq<Step>, accept: Bytes -> bool)
    requires Consistent(s) && Disciplined(quoted + later) && ReadsRegister(h, seed, s, quoted + later)
    requires QuotedAt(h, r, bound, Run(h, seed, s, quoted)) && seed == Want(h, r.platform, bound).value
    ensures var history := Run(h, seed, s, quoted).history;
            var claimed := Recorded(Run(h, seed, s, quoted + later).file);
            || RunBreaks(h, seed, s, quoted + later)
            || HistoryBreaks(h, seed, history)
            || (Images.ReplayAccepted(h, r, bound, claimed, Some(accept))
                <==> forall i :: 0 <= i < |history| ==> accept(history[i]))
  {
    var history := Run(h, seed, s, quoted).history;
    var claimed := Recorded(Run(h, seed, s, quoted + later).file);
    QuoteProvesHistory(h, r, bound, seed, s, quoted, later);
    if !RunBreaks(h, seed, s, quoted + later) && !HistoryBreaks(h, seed, history) {
      Images.LeastDecides(h, r, bound, claimed, |history|, Some(accept));
    }
  }
}
