/** Exactly where the journal's recovery is lost: a rollback that failed, an
    append that failed, and an append that a crash tore. */
module JournalLosses {
  import opened Octets
  import opened HashChain
  import opened JournalText
  import opened JournalProtocol

  /** Whatever the guest goes on to do, an open can repair what it leaves. */
  ghost predicate StaysRecoverable(h: Hashes, seed: Bytes48, s: Sys) {
    forall steps :: Disciplined(steps) && HonestRun(h, seed, s, steps) ==> Recoverable(Run(h, seed, s, steps))
  }

  lemma MeasuringLoses(h: Hashes, seed: Bytes48, s: Sys, other: Bytes)
    requires !Recoverable(Run(h, seed, s, [Record(other, 0, true), ExtendRegister(true)]))
    ensures !StaysRecoverable(h, seed, s)
  {
    var measure := [Record(other, 0, true), ExtendRegister(true)];
    assert Disciplined(measure) && HonestRun(h, seed, s, measure);
  }

  lemma ConsistentStays(h: Hashes, seed: Bytes48, s: Sys)
    requires Consistent(s)
    ensures StaysRecoverable(h, seed, s)
  {
    forall steps | Disciplined(steps) && HonestRun(h, seed, s, steps)
      ensures Recoverable(Run(h, seed, s, steps))
    {
      AlwaysRecoverable(h, seed, s, steps);
    }
  }

  lemma LostAlready(h: Hashes, seed: Bytes48, s: Sys)
    requires !Recoverable(s)
    ensures !StaysRecoverable(h, seed, s)
  {
    assert Disciplined([]) && HonestRun(h, seed, s, []) && Run(h, seed, s, []) == s;
  }

  // ------------------------------------------------------- a failed rollback

  /** After a rollback that could not replace the file, the next measurement decides:
      every continuation stays recoverable exactly when it is of the same digest. */
  lemma StaleMeasure(h: Hashes, seed: Bytes48, s: Sys, lost: Bytes, next: Bytes)
    requires Stale(s) && Ahead(s, s.phase.mem, lost) && IsCanonical(next) && next !in s.history
    ensures var s' := Run(h, seed, s, [Record(next, 0, true), ExtendRegister(true)]);
            (StaysRecoverable(h, seed, s') <==> next == lost) && (Recoverable(s') <==> next == lost)
  {
    var s' := Run(h, seed, s, [Record(next, 0, true), ExtendRegister(true)]);
    MeasureEffect(h, seed, s, next);
    RecordedAfterRecord(s.file, next);
    RecoverableAfter(s', s.history, lost, next);
    if next == lost {
      ConsistentStays(h, seed, s');
    } else {
      LostAlready(h, seed, s');
    }
  }

  /** So going on without a crash is never safe: some continuation is lost. other is
      any other digest not yet measured. */
  lemma StaleLoses(h: Hashes, seed: Bytes48, s: Sys, lost: Bytes, other: Bytes)
    requires Stale(s) && Ahead(s, s.phase.mem, lost) && IsCanonical(other) && other !in s.history && other != lost
    ensures !StaysRecoverable(h, seed, s)
  {
    StaleMeasure(h, seed, s, lost, other);
    MeasuringLoses(h, seed, s, other);
  }

  // --------------------------------------------------------- a failed append

  /** What two appends leave on record: the first possibly torn, the second whole. */
  lemma TornRecord(file: Bytes, d: Bytes, written: nat, next: Bytes)
    requires AtLineEnd(file) && written <= |Line(d)|
    requires IsCanonical(d) && d !in Recorded(file) && IsCanonical(next) && next !in Recorded(file)
    ensures Recorded(file + Line(d)[..written] + Line(next)) ==
            if written == 0 || (written == |Line(d)| && next == d) then Recorded(file) + [next]
            else if written <= |d| then Recorded(file)
            else Recorded(file) + [d] + [next]
  {
    if written == 0 {
      assert file + Line(d)[..0] == file;
      RecordedAfterRecord(file, next);
    } else if written <= |d| {
      TornLine(file, d, written, next);
    } else {
      assert Line(d)[..written] == Line(d);
      RecordedAfterRecord(file, d);
      RecordedAfterRecord(file + Line(d), next);
    }
  }

  /** A failed append, and then a measurement: every continuation stays recoverable
      exactly when the append left nothing behind, or the whole line of the digest
      measured next. */
  lemma TornAppend(h: Hashes, seed: Bytes48, s: Sys, d: Bytes, written: nat, next: Bytes)
    requires Consistent(s) && s.phase.Idle? && written <= |Line(d)|
    requires IsCanonical(d) && d !in s.history && IsCanonical(next) && next !in s.history
    ensures var s' := Run(h, seed, s, [Record(d, written, false), Record(next, 0, true), ExtendRegister(true)]);
            && (StaysRecoverable(h, seed, s') <==> written == 0 || (written == |Line(d)| && next == d))
            && (Recoverable(s') <==> written == 0 || (written == |Line(d)| && next == d))
  {
    var torn := Next(h, seed, s, Record(d, written, false));
    RunThree(h, seed, s, Record(d, written, false), Record(next, 0, true), ExtendRegister(true));
    RunTwo(h, seed, torn, Record(next, 0, true), ExtendRegister(true));
    TornEffect(h, seed, s, d, written);
    var s' := Run(h, seed, torn, [Record(next, 0, true), ExtendRegister(true)]);
    AfterTorn(h, seed, s, torn, d, written, next);
    if written == 0 || (written == |Line(d)| && next == d) {
      ConsistentStays(h, seed, s');
    } else {
      LostAlready(h, seed, s');
    }
  }

  lemma AfterTorn(h: Hashes, seed: Bytes48, s: Sys, torn: Sys, d: Bytes, written: nat, next: Bytes)
    requires Consistent(s) && s.phase.Idle? && written <= |Line(d)| && torn == s.(file := s.file + Line(d)[..written])
    requires IsCanonical(d) && d !in s.history && IsCanonical(next) && next !in s.history
    ensures var s' := Run(h, seed, torn, [Record(next, 0, true), ExtendRegister(true)]);
            if written == 0 || (written == |Line(d)| && next == d) then Consistent(s') else !Recoverable(s')
  {
    MeasureEffect(h, seed, torn, next);
    TornRecord(s.file, d, written, next);
    RecoverableAfter(Run(h, seed, torn, [Record(next, 0, true), ExtendRegister(true)]), s.history, d, next);
  }

  /** Before that measurement: every continuation stays recoverable exactly when the
      append left nothing behind. other is any other digest not yet measured. */
  lemma FailedAppend(h: Hashes, seed: Bytes48, s: Sys, d: Bytes, written: nat, other: Bytes)
    requires Consistent(s) && s.phase.Idle? && written <= |Line(d)|
    requires IsCanonical(d) && d !in s.history && IsCanonical(other) && other !in s.history && other != d
    ensures StaysRecoverable(h, seed, Next(h, seed, s, Record(d, written, false))) <==> written == 0
  {
    var torn := Next(h, seed, s, Record(d, written, false));
    TornEffect(h, seed, s, d, written);
    if written == 0 {
      assert s.file + Line(d)[..0] == s.file;
      ConsistentStays(h, seed, torn);
    } else {
      AfterTorn(h, seed, s, torn, d, written, other);
      MeasuringLoses(h, seed, torn, other);
    }
  }

  lemma TornEffect(h: Hashes, seed: Bytes48, s: Sys, d: Bytes, written: nat)
    requires s.phase.Idle? && !s.phase.mem.diverged && IsCanonical(d) && d !in s.phase.mem.measured
             && written <= |Line(d)|
    ensures Next(h, seed, s, Record(d, written, false)) == s.(file := s.file + Line(d)[..written])
  {
    CanonicalFixpoint(d);
    if written == |Line(d)| { assert Line(d)[..written] == Line(d); }
  }

  /** Which records recover a history that ends in next. */
  lemma RecoverableAfter(s: Sys, before: seq<Bytes>, d: Bytes, next: Bytes)
    requires s.history == before + [next]
    ensures Recorded(s.file) == before + [next] ==> Recoverable(s)
    ensures Recorded(s.file) == before ==> !Recoverable(s)
    ensures Recorded(s.file) == before + [d] + [next] && d != next ==> !Recoverable(s)
  {
    var order := Recorded(s.file);
    if order == before + [d] + [next] {
      assert order[|before|] == d && DropLast(order)[|before|] == d;
    }
  }

  // ----------------------------------------------------------- a torn append

  /** A crash that left the first written bytes of d's line. */
  function Torn(h: Hashes, seed: Bytes48, s: Sys, d: Bytes, written: nat): Sys {
    Next(h, seed, Next(h, seed, s, Record(d, written, false)), Crash)
  }

  function Reopened(h: Hashes, seed: Bytes48, torn: Sys): Sys {
    Next(h, seed, torn, Open(true, true, true))
  }

  /** A reopen and one measurement. */
  function AfterTear(h: Hashes, seed: Bytes48, torn: Sys, next: Bytes): Sys {
    Run(h, seed, Reopened(h, seed, torn), [Record(next, 0, true), ExtendRegister(true)])
  }

  /** After a crash that tears an append, and a reopen, every continuation stays
      recoverable exactly when the tear fell on a line boundary. Reopening skips a
      torn line but leaves it in the file. other is any digest not yet measured. */
  lemma TornCrash(h: Hashes, seed: Bytes48, s: Sys, d: Bytes, written: nat, other: Bytes)
    requires Consistent(s) && s.phase.Idle? && written <= |Line(d)|
    requires IsCanonical(d) && d !in s.history && IsCanonical(other) && other !in s.history && other != d
    requires Honest(h, seed, Torn(h, seed, s, d, written), Open(true, true, true))
    ensures StaysRecoverable(h, seed, Reopened(h, seed, Torn(h, seed, s, d, written)))
            <==> written == 0 || written == |Line(d)|
  {
    TornEffect(h, seed, s, d, written);
    var torn := Torn(h, seed, s, d, written);
    if 0 < written < |Line(d)| {
      TornInside(h, seed, torn, s.file, d, written, other);
      MeasuringLoses(h, seed, Reopened(h, seed, torn), other);
    } else {
      CleanTear(s.file, d, written);
      TornReopen(h, seed, torn, s.history, d);
      ConsistentStays(h, seed, Reopened(h, seed, torn));
    }
  }

  /** Of one measurement after the reopen: it stays recoverable exactly when the tear
      fell on a line boundary, or took only the newline of the digest measured next. */
  lemma TornMeasure(h: Hashes, seed: Bytes48, s: Sys, d: Bytes, written: nat, next: Bytes)
    requires Consistent(s) && s.phase.Idle? && written <= |Line(d)|
    requires IsCanonical(d) && d !in s.history && IsCanonical(next) && next !in s.history
    requires Honest(h, seed, Torn(h, seed, s, d, written), Open(true, true, true))
    ensures Recoverable(AfterTear(h, seed, Torn(h, seed, s, d, written), next))
            <==> written == 0 || written == |Line(d)| || (written == |d| && next == d)
  {
    TornEffect(h, seed, s, d, written);
    var torn := Torn(h, seed, s, d, written);
    if next == d && written >= |d| {
      WholeTear(s.file, d, written);
      Remeasure(h, seed, torn, torn.history, d);
    } else if 0 < written < |Line(d)| {
      TornInside(h, seed, torn, s.file, d, written, next);
    } else {
      TornBetween(h, seed, torn, s.file, d, written, next);
    }
  }

  /** The digest whose whole text survived is on record already. */
  lemma WholeTear(file: Bytes, d: Bytes, written: nat)
    requires AtLineEnd(file) && IsCanonical(d) && d !in Recorded(file) && |d| <= written <= |Line(d)|
    ensures Recorded(file + Line(d)[..written]) == Recorded(file) + [d]
  {
    if written == |d| { TornTail(file, d, written); } else { CleanTear(file, d, written); }
  }

  /** So measuring it again does nothing. */
  lemma Remeasure(h: Hashes, seed: Bytes48, torn: Sys, before: seq<Bytes>, d: Bytes)
    requires torn.phase.Closed? && torn.history == before && Honest(h, seed, torn, Open(true, true, true))
    requires Recorded(torn.file) == before + [d] && IsCanonical(d)
    ensures Recoverable(AfterTear(h, seed, torn, d))
  {
    TornReopen(h, seed, torn, before, d);
    MeasuredAlready(h, seed, Reopened(h, seed, torn), d);
  }

  lemma MeasuredAlready(h: Hashes, seed: Bytes48, s: Sys, d: Bytes)
    requires s.phase.Idle? && IsCanonical(d) && d in s.phase.mem.measured
    ensures Run(h, seed, s, [Record(d, 0, true), ExtendRegister(true)]) == s
  {
    CanonicalFixpoint(d);
    RunTwo(h, seed, s, Record(d, 0, true), ExtendRegister(true));
  }

  lemma TornInside(h: Hashes, seed: Bytes48, torn: Sys, file: Bytes, d: Bytes, written: nat, next: Bytes)
    requires AtLineEnd(file) && torn.phase.Closed? && 0 < written <= |d| && torn.file == file + Line(d)[..written]
    requires torn.history == Recorded(file) && Honest(h, seed, torn, Open(true, true, true))
    requires IsCanonical(d) && d !in torn.history && IsCanonical(next) && next !in torn.history
    requires next == d ==> written < |d|
    ensures !Recoverable(AfterTear(h, seed, torn, next))
  {
    TornTail(file, d, written);
    ReopenAndMeasure(h, seed, torn, torn.history, d, next);
    TornLine(file, d, written, next);
    TooShort(AfterTear(h, seed, torn, next));
  }

  lemma TornBetween(h: Hashes, seed: Bytes48, torn: Sys, file: Bytes, d: Bytes, written: nat, next: Bytes)
    requires AtLineEnd(file) && torn.phase.Closed? && (written == 0 || written == |Line(d)|)
    requires torn.file == file + Line(d)[..written]
    requires torn.history == Recorded(file) && Honest(h, seed, torn, Open(true, true, true))
    requires IsCanonical(d) && d !in torn.history && IsCanonical(next) && next !in torn.history
    requires next == d ==> written == 0
    ensures Recoverable(AfterTear(h, seed, torn, next))
  {
    CleanTear(file, d, written);
    ReopenAndMeasure(h, seed, torn, torn.history, d, next);
    RecordedAfterRecord(torn.file, next);
  }

  lemma TooShort(s: Sys)
    requires |Recorded(s.file)| < |s.history|
    ensures !Recoverable(s)
  {
  }

  lemma ReopenAndMeasure(h: Hashes, seed: Bytes48, torn: Sys, before: seq<Bytes>, d: Bytes, next: Bytes)
    requires torn.phase.Closed? && torn.history == before && Honest(h, seed, torn, Open(true, true, true))
    requires Recorded(torn.file) == before || Recorded(torn.file) == before + [d]
    requires IsCanonical(next) && next !in Recorded(torn.file)
    ensures var done := AfterTear(h, seed, torn, next);
            done.file == torn.file + Line(next) && done.history == Recorded(torn.file) + [next]
  {
    TornReopen(h, seed, torn, before, d);
    MeasureEffect(h, seed, Next(h, seed, torn, Open(true, true, true)), next);
  }

  lemma CleanTear(file: Bytes, d: Bytes, written: nat)
    requires AtLineEnd(file) && IsCanonical(d) && d !in Recorded(file) && (written == 0 || written == |Line(d)|)
    ensures var torn := file + Line(d)[..written];
            AtLineEnd(torn) && Recorded(torn) == if written == 0 then Recorded(file) else Recorded(file) + [d]
  {
    if written == 0 {
      assert file + Line(d)[..0] == file;
    } else {
      assert Line(d)[..written] == Line(d);
      RecordedAfterRecord(file, d);
    }
  }

  /** Reopening where the file names the history, or the history and d. */
  lemma TornReopen(h: Hashes, seed: Bytes48, s: Sys, before: seq<Bytes>, d: Bytes)
    requires s.phase.Closed? && s.history == before && Honest(h, seed, s, Open(true, true, true))
    requires Recorded(s.file) == before || Recorded(s.file) == before + [d]
    ensures var s' := Next(h, seed, s, Open(true, true, true));
            && s'.file == s.file && s'.history == Recorded(s.file)
            && s'.phase == Idle(Loaded(s.file))
  {
    if Recorded(s.file) == before {
      OpenMatches(h, seed, s, true);
    } else {
      OpenFinishes(h, seed, s, d);
    }
  }

  // ----------------------------------------------------------- a whole life

  /** "sha256:" and one hex digit 64 times. */
  function SixtyFour(c: Byte): (d: Bytes)
    requires IsLowerHex(c)
    ensures IsCanonical(d) && d[7] == c
  {
    var hex := seq(64, _ => c);
    assert (SHA256_PREFIX + hex)[..7] == SHA256_PREFIX && (SHA256_PREFIX + hex)[7..] == hex;
    SHA256_PREFIX + hex
  }

  const D0: Bytes := SixtyFour(0x30)
  const D1: Bytes := SixtyFour(0x31)

  /** A guest's life from its first boot: a crash inside the append of D0's line,
      a restart that measures D1, and one restart more. */
  function TornLife(written: nat): seq<Step> {
    [Open(true, true, true), Record(D0, written, false), Crash,
     Open(true, true, true), Record(D1, 0, true), ExtendRegister(true), Crash,
     Open(true, true, true)]
  }

  /** It ends diverged wherever the append tore. */
  lemma TornGuest(h: Hashes, seed: Bytes48, written: nat)
    requires 0 < written <= |D0| && HonestRun(h, seed, Sys([], [], Closed), TornLife(written))
    ensures var s' := Run(h, seed, Sys([], [], Closed), TornLife(written));
            s'.phase.Idle? && s'.phase.mem.diverged
  {
    var s := Next(h, seed, Sys([], [], Closed), Open(true, true, true));
    FreshOpen(h, seed);
    DistinctDigests();
    LifeHonest(h, seed, Sys([], [], Closed), Open(true, true, true), Record(D0, written, false), Crash,
               Record(D1, 0, true), ExtendRegister(true));
    TornLifeRuns(h, seed, written, s, Torn(h, seed, s, D0, written));
    TearDiverges(h, seed, s, D0, written, D1, Open(true, true, true));
  }

  /** From wherever a guest stands: tear, reopen, measure, crash, reopen. */
  lemma TearDiverges(h: Hashes, seed: Bytes48, s: Sys, d: Bytes, written: nat, other: Bytes, open: Step)
    requires Consistent(s) && s.phase.Idle? && 0 < written <= |d| && open == Open(true, true, true)
    requires IsCanonical(d) && d !in s.history && IsCanonical(other) && other !in s.history && other != d
    requires Honest(h, seed, Torn(h, seed, s, d, written), open)
    requires Honest(h, seed, Next(h, seed, AfterTear(h, seed, Torn(h, seed, s, d, written), other), Crash), open)
    ensures var done := AfterTear(h, seed, Torn(h, seed, s, d, written), other);
            var s' := Next(h, seed, Next(h, seed, done, Crash), open);
            s'.phase.Idle? && s'.phase.mem.diverged
  {
    TornMeasure(h, seed, s, d, written, other);
    OpenDiverges(h, seed, Next(h, seed, AfterTear(h, seed, Torn(h, seed, s, d, written), other), Crash), true);
  }

  lemma FreshOpen(h: Hashes, seed: Bytes48)
    ensures var s := Next(h, seed, Sys([], [], Closed), Open(true, true, true));
            s.phase.Idle? && s.history == [] && Consistent(s)
  {
    RecordedLines([]);
  }

  /** The two reopens of such a life are honest. */
  lemma LifeHonest(h: Hashes, seed: Bytes48, s: Sys, open: Step, tear: Step, crash: Step, record: Step, extend: Step)
    requires HonestRun(h, seed, s, [open, tear, crash, open, record, extend, crash, open])
    ensures var torn := Next(h, seed, Next(h, seed, Next(h, seed, s, open), tear), crash);
            var done := Run(h, seed, Next(h, seed, torn, open), [record, extend]);
            Honest(h, seed, torn, open) && Honest(h, seed, Next(h, seed, done, crash), open)
  {
    var life := [open, tear, crash, open, record, extend, crash, open];
    assert Honest(h, seed, Before(h, seed, s, life, 3), life[3]);
    assert Honest(h, seed, Before(h, seed, s, life, 7), life[7]);
    assert life[..3] == [open, tear, crash];
    RunThree(h, seed, s, open, tear, crash);
    assert life[..7] == [open, tear, crash, open, record, extend, crash];
    FrontRuns(h, seed, s, open, tear, crash, record, extend);
  }

  lemma FrontRuns(h: Hashes, seed: Bytes48, s: Sys, open: Step, tear: Step, crash: Step, record: Step, extend: Step)
    ensures var torn := Next(h, seed, Next(h, seed, Next(h, seed, s, open), tear), crash);
            var done := Run(h, seed, Next(h, seed, torn, open), [record, extend]);
            Run(h, seed, s, [open, tear, crash, open, record, extend, crash]) == Next(h, seed, done, crash)
  {
    var end := [record, extend] + [crash];
    assert [open, tear, crash, open, record, extend, crash] == [open, tear, crash] + ([open] + end);
    RunAppend(h, seed, s, [open, tear, crash], [open] + end);
    RunThree(h, seed, s, open, tear, crash);
    var torn := Run(h, seed, s, [open, tear, crash]);
    RunCons(h, seed, torn, open, end);
    RunSnoc(h, seed, Next(h, seed, torn, open), [record, extend], crash);
  }

  lemma DistinctDigests()
    ensures IsCanonical(D0) && IsCanonical(D1) && D0 != D1
  {
  }

  lemma TornLifeRuns(h: Hashes, seed: Bytes48, written: nat, s1: Sys, torn: Sys)
    requires s1 == Next(h, seed, Sys([], [], Closed), Open(true, true, true))
    requires torn == Torn(h, seed, s1, D0, written)
    ensures Run(h, seed, Sys([], [], Closed), TornLife(written)) ==
            Next(h, seed, Next(h, seed, AfterTear(h, seed, torn, D1), Crash), Open(true, true, true))
  {
    LifeRuns(h, seed, Sys([], [], Closed), Open(true, true, true), Record(D0, written, false), Crash,
             Record(D1, 0, true), ExtendRegister(true));
  }

  lemma LifeRuns(h: Hashes, seed: Bytes48, s: Sys, open: Step, tear: Step, crash: Step, record: Step, extend: Step)
    ensures var torn := Next(h, seed, Next(h, seed, Next(h, seed, s, open), tear), crash);
            var done := Run(h, seed, Next(h, seed, torn, open), [record, extend]);
            Run(h, seed, s, [open, tear, crash, open, record, extend, crash, open])
            == Next(h, seed, Next(h, seed, done, crash), open)
  {
    var front := [open, tear, crash, open, record, extend, crash];
    assert [open, tear, crash, open, record, extend, crash, open] == front + [open];
    RunSnoc(h, seed, s, front, open);
    FrontRuns(h, seed, s, open, tear, crash, record, extend);
  }
}
