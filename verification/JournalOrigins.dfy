/** Where extended digests come from: nothing enters the register that was not
    asked for, unless the guest booted on a file that recorded one digest. */
module JournalOrigins {
  import opened Octets
  import opened HashChain
  import opened JournalText
  import opened JournalProtocol

  /** A measurement of some spelling of d was asked for. */
  ghost predicate Asked(steps: seq<Step>, d: Bytes) {
    exists i :: 0 <= i < |steps| && steps[i].Record? && CanonicalDigest(steps[i].ref) == Ok(d)
  }

  ghost predicate AllAsked(steps: seq<Step>, ds: seq<Bytes>) {
    forall i :: 0 <= i < |ds| ==> Asked(steps, ds[i])
  }

  /** No one but the journal writes the file. */
  predicate Untampered(steps: seq<Step>) {
    forall i :: 0 <= i < |steps| ==> !steps[i].Tamper?
  }

  /** Everything on file, in the register and in memory was asked for. */
  ghost predicate Traced(steps: seq<Step>, s: Sys) {
    && AllAsked(steps, s.history) && AllAsked(steps, Recorded(s.file))
    && match s.phase
       case Closed => true
       case Idle(mem) => AllAsked(steps, mem.order)
       case Written(mem, d) => AllAsked(steps, mem.order) && Asked(steps, d)
       case Unwinding(mem) => AllAsked(steps, mem.order)
  }

  lemma AskedStays(steps: seq<Step>, step: Step, ds: seq<Bytes>)
    requires AllAsked(steps, ds)
    ensures AllAsked(steps + [step], ds)
  {
    forall k | 0 <= k < |ds| ensures Asked(steps + [step], ds[k]) {
      OneAskedStays(steps, step, ds[k]);
    }
  }

  lemma OneAskedStays(steps: seq<Step>, step: Step, d: Bytes)
    requires Asked(steps, d)
    ensures Asked(steps + [step], d)
  {
    var i :| 0 <= i < |steps| && steps[i].Record? && CanonicalDigest(steps[i].ref) == Ok(d);
    assert (steps + [step])[i] == steps[i];
  }

  lemma AskedNow(steps: seq<Step>, ref: Bytes, written: nat, ok: bool)
    requires CanonicalDigest(ref).Ok?
    ensures Asked(steps + [Record(ref, written, ok)], CanonicalDigest(ref).value)
  {
    assert (steps + [Record(ref, written, ok)])[|steps|] == Record(ref, written, ok);
  }

  lemma AskedWithin(steps: seq<Step>, ds: seq<Bytes>, more: seq<Bytes>)
    requires AllAsked(steps, ds) && forall x :: x in more ==> x in ds || Asked(steps, x)
    ensures AllAsked(steps, more)
  {
    forall k | 0 <= k < |more| ensures Asked(steps, more[k]) {
      assert more[k] in more;
    }
  }

  lemma TracedStays(steps: seq<Step>, step: Step, s: Sys)
    requires Traced(steps, s)
    ensures Traced(steps + [step], s)
  {
    AskedStays(steps, step, s.history);
    AskedStays(steps, step, Recorded(s.file));
    match s.phase
    case Closed =>
    case Idle(mem) => AskedStays(steps, step, mem.order);
    case Written(mem, d) =>
      AskedStays(steps, step, mem.order);
      OneAskedStays(steps, step, d);
    case Unwinding(mem) => AskedStays(steps, step, mem.order);
  }

  lemma RecordTraced(h: Hashes, seed: Bytes48, steps: seq<Step>, s: Sys, step: Step)
    requires Traced(steps, s) && s.phase.Idle? && step.Record?
    ensures Traced(steps + [step], Next(h, seed, s, step))
  {
    TracedStays(steps, step, s);
    match ToMeasure(s.phase.mem, step.ref)
    case None =>
    case Some(d) =>
      var all, line := steps + [step], Line(d);
      var written := if step.ok || |line| <= step.written then |line| else step.written;
      AskedNow(steps, step.ref, step.written, step.ok);
      assert line[..|line|] == line;
      AppendedWithin(s.file, d, written);
      AskedWithin(all, Recorded(s.file), Recorded(s.file + line[..written]));
      AskedWithin(all, s.phase.mem.order, s.phase.mem.order + [d]);
  }

  lemma OpenTraced(h: Hashes, seed: Bytes48, steps: seq<Step>, s: Sys, readable: bool, works: bool)
    requires Traced(steps, s)
    ensures Traced(steps, OpenStep(h, seed, s, readable, works))
  {
    var order := Recorded(s.file);
    if order != [] {
      AskedWithin(steps, order, [Last(order)]);
      AskedWithin(steps, s.history, s.history + [Last(order)]);
    }
  }

  lemma ExtendTraced(steps: seq<Step>, s: Sys, works: bool)
    requires Traced(steps, s) && s.phase.Written?
    ensures Traced(steps, ExtendStep(s, works))
  {
    var Written(mem, d) := s.phase;
    AskedWithin(steps, s.history, s.history + [d]);
    if mem.order != [] { AskedWithin(steps, mem.order, DropLast(mem.order)); }
  }

  lemma RewriteTraced(h: Hashes, seed: Bytes48, steps: seq<Step>, s: Sys, replaced: bool)
    requires Traced(steps, s) && s.phase.Unwinding?
    ensures Traced(steps, Next(h, seed, s, Rewrite(replaced)))
  {
    var order := s.phase.mem.order;
    forall i | 0 <= i < |order| ensures IsCanonical(order[i]) {
      assert Asked(steps, order[i]);
    }
    LinesWithin(order);
    AskedWithin(steps, order, Recorded(Lines(order)));
  }

  lemma TracedStep(h: Hashes, seed: Bytes48, steps: seq<Step>, s: Sys, step: Step)
    requires Traced(steps, s) && !step.Tamper?
    ensures Traced(steps + [step], Next(h, seed, s, step))
  {
    TracedStays(steps, step, s);
    match step
    case Open(fileReadable, readable, works) =>
      if s.phase.Closed? && fileReadable { OpenTraced(h, seed, steps + [step], s, readable, works); }
    case Record(_, _, _) => if s.phase.Idle? { RecordTraced(h, seed, steps, s, step); }
    case ExtendRegister(works) => if s.phase.Written? { ExtendTraced(steps + [step], s, works); }
    case Rewrite(replaced) => if s.phase.Unwinding? { RewriteTraced(h, seed, steps + [step], s, replaced); }
    case Crash =>
  }

  lemma TracedSnoc(h: Hashes, seed: Bytes48, boot: Sys, front: seq<Step>, last: Step)
    requires Traced(front, Run(h, seed, boot, front)) && !last.Tamper?
    ensures Traced(front + [last], Run(h, seed, boot, front + [last]))
  {
    RunSnoc(h, seed, boot, front, last);
    TracedStep(h, seed, front, Run(h, seed, boot, front), last);
  }

  lemma UntamperedFront(steps: seq<Step>)
    requires steps != [] && Untampered(steps)
    ensures Untampered(DropLast(steps)) && !Last(steps).Tamper? && steps == DropLast(steps) + [Last(steps)]
  {
  }

  lemma {:induction false} StaysTraced(h: Hashes, seed: Bytes48, boot: Sys, steps: seq<Step>)
    requires Traced([], boot) && Untampered(steps)
    ensures Traced(steps, Run(h, seed, boot, steps))
    decreases |steps|
  {
    if steps == [] {
      assert Run(h, seed, boot, []) == boot;
    } else {
      UntamperedFront(steps);
      StaysTraced(h, seed, boot, DropLast(steps));
      TracedSnoc(h, seed, boot, DropLast(steps), Last(steps));
    }
  }

  /** A guest whose file records nothing when it boots only ever extends, and only
      ever records, what it was asked to measure: over every run without tampering,
      torn appends, unreadable registers and failed rollbacks included. */
  lemma OnlyAsked(h: Hashes, seed: Bytes48, file: Bytes, steps: seq<Step>)
    requires Recorded(file) == [] && Untampered(steps)
    ensures var s := Run(h, seed, Sys(file, [], Closed), steps);
            AllAsked(steps, s.history) && AllAsked(steps, Recorded(s.file))
  {
    StaysTraced(h, seed, Sys(file, [], Closed), steps);
  }

  // ------------------------------------------------------- leftover files

  /** The guest found more on file than one interrupted extend explains. */
  ghost predicate Stuck(file: Bytes, s: Sys) {
    s.file == file && s.history == [] && (s.phase.Closed? || (s.phase.Idle? && s.phase.mem.diverged))
  }

  lemma {:induction false} StaysStuck(h: Hashes, seed: Bytes48, file: Bytes, steps: seq<Step>)
    requires |Recorded(file)| > 1 && Untampered(steps) && HonestRun(h, seed, Sys(file, [], Closed), steps)
    ensures Stuck(file, Run(h, seed, Sys(file, [], Closed), steps))
    decreases |steps|
  {
    if steps != [] {
      HonestPrefix(h, seed, Sys(file, [], Closed), steps);
      StaysStuck(h, seed, file, DropLast(steps));
      assert |DropLast(Recorded(file))| > 0;
    }
  }

  ghost predicate ExtendsOnlyAsked(h: Hashes, seed: Bytes48, s: Sys) {
    forall steps :: Untampered(steps) && HonestRun(h, seed, s, steps)
        ==> AllAsked(steps, Run(h, seed, s, steps).history)
  }

  /** A booting guest only ever extends what it was asked to measure exactly when
      its file does not record exactly one digest. One digest reads as an extend
      that was interrupted, and the first open performs it; more than one is a
      register diverged. */
  lemma AskedExactly(h: Hashes, seed: Bytes48, file: Bytes)
    requires Honest(h, seed, Sys(file, [], Closed), Open(true, true, true))
    ensures ExtendsOnlyAsked(h, seed, Sys(file, [], Closed)) <==> |Recorded(file)| != 1
  {
    var boot := Sys(file, [], Closed);
    if |Recorded(file)| == 1 {
      LeftoverExtends(h, seed, file);
    } else {
      forall steps | Untampered(steps) && HonestRun(h, seed, boot, steps)
        ensures AllAsked(steps, Run(h, seed, boot, steps).history)
      {
        if Recorded(file) == [] {
          OnlyAsked(h, seed, file, steps);
        } else {
          StaysStuck(h, seed, file, steps);
        }
      }
    }
  }

  /** The leftover digest enters the register, though nothing was measured. */
  lemma FirstOpenExtends(h: Hashes, seed: Bytes48, file: Bytes, open: Step)
    requires |Recorded(file)| == 1 && open == Open(true, true, true) && Honest(h, seed, Sys(file, [], Closed), open)
    ensures Next(h, seed, Sys(file, [], Closed), open).history == Recorded(file)
  {
    var order := Recorded(file);
    assert order == [] + [order[0]];
    OpenFinishes(h, seed, Sys(file, [], Closed), order[0]);
  }

  lemma LeftoverExtends(h: Hashes, seed: Bytes48, file: Bytes)
    requires |Recorded(file)| == 1 && Honest(h, seed, Sys(file, [], Closed), Open(true, true, true))
    ensures !ExtendsOnlyAsked(h, seed, Sys(file, [], Closed))
  {
    var boot, open := Sys(file, [], Closed), Open(true, true, true);
    FirstOpenExtends(h, seed, file, open);
    OpenAsksNothing(h, seed, boot, open);
  }

  lemma OpenAsksNothing(h: Hashes, seed: Bytes48, boot: Sys, open: Step)
    requires open.Open? && Honest(h, seed, boot, open) && Next(h, seed, boot, open).history != []
    ensures !ExtendsOnlyAsked(h, seed, boot)
  {
    var steps := [open];
    RunOne(h, seed, boot, open);
    assert Before(h, seed, boot, steps, 0) == boot;
    assert Untampered(steps) && HonestRun(h, seed, boot, steps);
    assert !Asked(steps, Run(h, seed, boot, steps).history[0]);
  }
}
