/** The measurement journal as a protocol between three things that fail apart:
    a file, a register that can only be extended, and a process that can die
    between any two steps on either. */
module JournalProtocol {
  import opened Octets
  import opened HashChain
  import opened JournalText

  /** What an open journal holds in memory. */
  datatype Memory = Memory(order: seq<Bytes>, measured: set<Bytes>, diverged: bool)

  /** Where the one writer stands. Written: a digest is on file and not yet
      extended. Unwinding: its extend failed and the file still names it. */
  datatype Phase =
    | Closed
    | Idle(mem: Memory)
    | Written(mem: Memory, digest: Bytes)
    | Unwinding(mem: Memory)

  /** history is every digest ever extended, oldest first; the register holds
      its fold. A missing file reads as an empty one. */
  datatype Sys = Sys(file: Bytes, history: seq<Bytes>, phase: Phase)

  /** One step, with the environment's choices as arguments. A failed Record
      leaves the first written bytes of its line in the file. */
  datatype Step =
    | Open(fileReadable: bool, registerReadable: bool, extendWorks: bool)
    | Record(ref: Bytes, written: nat, ok: bool)
    | ExtendRegister(works: bool)
    | Rewrite(replaced: bool)
    | Crash
    | Tamper(file: Bytes)

  function Register(h: Hashes, seed: Bytes48, s: Sys): Bytes48 {
    Fold(h, seed, s.history)
  }

  function Loaded(file: Bytes): Memory {
    Memory(Recorded(file), Elements(Recorded(file)), false)
  }

  function DropLast<T>(s: seq<T>): seq<T>
    requires s != []
  {
    s[..|s| - 1]
  }

  function Last<T>(s: seq<T>): T
    requires s != []
  {
    s[|s| - 1]
  }

  /** OpenJournalSeeded and its reconcile. */
  function OpenStep(h: Hashes, seed: Bytes48, s: Sys, registerReadable: bool, extendWorks: bool): Sys {
    var mem := Loaded(s.file);
    var value := Register(h, seed, s);
    if !registerReadable || value == Fold(h, seed, mem.order) then s.(phase := Idle(mem))
    else if mem.order != [] && value == Fold(h, seed, DropLast(mem.order)) then
      if extendWorks then s.(history := s.history + [Last(mem.order)], phase := Idle(mem))
      else s.(phase := Closed)
    else s.(phase := Idle(mem.(diverged := true)))
  }

  /** The digest MeasureOnce would go on to record, if any. */
  function ToMeasure(mem: Memory, ref: Bytes): Option<Bytes> {
    var d := CanonicalDigest(ref);
    if d.Err? || mem.diverged || d.value in mem.measured then None else Some(d.value)
  }

  function RecordStep(s: Sys, ref: Bytes, written: nat, ok: bool): Sys
    requires s.phase.Idle?
  {
    var mem := s.phase.mem;
    match ToMeasure(mem, ref)
    case None => s
    case Some(d) =>
      var line := Line(d);
      if ok then s.(file := s.file + line, phase := Written(mem.(order := mem.order + [d]), d))
      else s.(file := s.file + line[..if written < |line| then written else |line|])
  }

  function ExtendStep(s: Sys, works: bool): Sys
    requires s.phase.Written?
  {
    var Written(mem, d) := s.phase;
    if works then s.(history := s.history + [d], phase := Idle(mem.(measured := mem.measured + {d})))
    else if mem.order != [] && Last(mem.order) == d then s.(phase := Unwinding(mem.(order := DropLast(mem.order))))
    else s.(phase := Unwinding(mem))
  }

  /** A step that does not apply where the writer stands does nothing. */
  function Next(h: Hashes, seed: Bytes48, s: Sys, step: Step): Sys {
    match step
    case Open(fileReadable, registerReadable, extendWorks) =>
      if s.phase.Closed? && fileReadable then OpenStep(h, seed, s, registerReadable, extendWorks) else s
    case Record(ref, written, ok) =>
      if s.phase.Idle? then RecordStep(s, ref, written, ok) else s
    case ExtendRegister(works) =>
      if s.phase.Written? then ExtendStep(s, works) else s
    case Rewrite(replaced) =>
      if s.phase.Unwinding? then
        Sys(if replaced then Lines(s.phase.mem.order) else s.file, s.history, Idle(s.phase.mem))
      else s
    case Crash => s.(phase := Closed)
    case Tamper(file) => s.(file := file)
  }

  function Run(h: Hashes, seed: Bytes48, s: Sys, steps: seq<Step>): Sys {
    if steps == [] then s else Next(h, seed, Run(h, seed, s, DropLast(steps)), Last(steps))
  }

  /** The state a run is in just before its i-th step. */
  function Before(h: Hashes, seed: Bytes48, s: Sys, steps: seq<Step>, i: nat): Sys
    requires i <= |steps|
  {
    Run(h, seed, s, steps[..i])
  }

  lemma RunSnoc(h: Hashes, seed: Bytes48, s: Sys, steps: seq<Step>, step: Step)
    ensures Run(h, seed, s, steps + [step]) == Next(h, seed, Run(h, seed, s, steps), step)
  {
    assert DropLast(steps + [step]) == steps;
  }

  lemma {:induction false} RunAppend(h: Hashes, seed: Bytes48, s: Sys, a: seq<Step>, b: seq<Step>)
    ensures Run(h, seed, s, a + b) == Run(h, seed, Run(h, seed, s, a), b)
    decreases |b|
  {
    if b == [] {
      assert a + b == a;
    } else {
      var front, step := DropLast(b), Last(b);
      assert b == front + [step] && a + b == a + front + [step];
      RunAppend(h, seed, s, a, front);
      RunSnoc(h, seed, s, a + front, step);
      RunSnoc(h, seed, Run(h, seed, s, a), front, step);
    }
  }

  // ------------------------------------------------------- honest comparisons

  /** order is equal to the history or folds to another register value. */
  ghost predicate Tells(h: Hashes, seed: Bytes48, history: seq<Bytes>, order: seq<Bytes>) {
    Fold(h, seed, history) == Fold(h, seed, order) ==> history == order
  }

  /** An open reads the register, and neither of its two comparisons is fooled
      by a broken hash. Other steps are unconstrained. */
  ghost predicate Honest(h: Hashes, seed: Bytes48, s: Sys, step: Step) {
    step.Open? && step.fileReadable && s.phase.Closed? ==>
      var order := Recorded(s.file);
      && step.registerReadable
      && Tells(h, seed, s.history, order)
      && (order != [] ==> Tells(h, seed, s.history, DropLast(order)))
  }

  ghost predicate HonestRun(h: Hashes, seed: Bytes48, s: Sys, steps: seq<Step>) {
    forall i :: 0 <= i < |steps| ==> Honest(h, seed, Before(h, seed, s, steps, i), steps[i])
  }

  /** What an open at s compares breaks the hash: the history against the digests on
      file, or against those without the last. */
  ghost predicate OpenBreaks(h: Hashes, seed: Bytes48, s: Sys) {
    var order := Recorded(s.file);
    FoldsBreak(h, seed, s.history, order) || (order != [] && FoldsBreak(h, seed, s.history, DropLast(order)))
  }

  /** An open that reads the register and is not honest has met a hash break. */
  lemma DishonestOpen(h: Hashes, seed: Bytes48, s: Sys, step: Step)
    requires !Honest(h, seed, s, step) && step.registerReadable
    ensures OpenBreaks(h, seed, s)
  {
    var order := Recorded(s.file);
    if !Tells(h, seed, s.history, order) {
      DifferentFolds(h, seed, s.history, order);
    } else {
      DifferentFolds(h, seed, s.history, DropLast(order));
    }
  }

  lemma HonestPrefix(h: Hashes, seed: Bytes48, s: Sys, steps: seq<Step>)
    requires steps != [] && HonestRun(h, seed, s, steps)
    ensures HonestRun(h, seed, s, DropLast(steps))
    ensures Honest(h, seed, Run(h, seed, s, DropLast(steps)), Last(steps))
  {
    var n := |steps| - 1;
    forall i | 0 <= i < n ensures Honest(h, seed, Before(h, seed, s, DropLast(steps), i), DropLast(steps)[i]) {
      assert DropLast(steps)[..i] == steps[..i];
      assert Honest(h, seed, Before(h, seed, s, steps, i), steps[i]);
    }
    assert Honest(h, seed, Before(h, seed, s, steps, n), steps[n]);
  }

  /** Every open that applies reads the register. */
  ghost predicate ReadsRegister(h: Hashes, seed: Bytes48, s: Sys, steps: seq<Step>) {
    forall i :: 0 <= i < |steps| && steps[i].Open? && steps[i].fileReadable
        && Before(h, seed, s, steps, i).phase.Closed?
      ==> steps[i].registerReadable
  }

  /** Some open of the run meets a hash break. */
  ghost predicate RunBreaks(h: Hashes, seed: Bytes48, s: Sys, steps: seq<Step>) {
    exists i :: 0 <= i < |steps| && steps[i].Open? && steps[i].fileReadable
                && Before(h, seed, s, steps, i).phase.Closed? && OpenBreaks(h, seed, Before(h, seed, s, steps, i))
  }

  /** A run whose opens read the register is honest, or one of them met a break. */
  lemma DishonestRun(h: Hashes, seed: Bytes48, s: Sys, steps: seq<Step>)
    requires ReadsRegister(h, seed, s, steps) && !HonestRun(h, seed, s, steps)
    ensures RunBreaks(h, seed, s, steps)
  {
    var i :| 0 <= i < |steps| && !Honest(h, seed, Before(h, seed, s, steps, i), steps[i]);
    DishonestOpen(h, seed, Before(h, seed, s, steps, i), steps[i]);
  }

  // -------------------------------------------------------- exactly-once extend

  /** A journal that can still extend remembers everything ever extended. */
  ghost predicate Remembers(s: Sys) {
    && NoDup(s.history) && AllCanonical(s.history)
    && match s.phase
       case Closed => true
       case Idle(mem) => mem.diverged || Elements(s.history) <= mem.measured
       case Written(mem, d) => !mem.diverged && Elements(s.history) <= mem.measured && d !in mem.measured
           && IsCanonical(d)
       case Unwinding(mem) => !mem.diverged && Elements(s.history) <= mem.measured
  }

  lemma NoDupSnoc(s: seq<Bytes>, x: Bytes)
    requires NoDup(s) && x !in s
    ensures NoDup(s + [x])
  {
  }

  lemma RemembersStep(h: Hashes, seed: Bytes48, s: Sys, step: Step)
    requires Remembers(s) && Honest(h, seed, s, step)
    ensures Remembers(Next(h, seed, s, step))
  {
    if s.phase.Written? && step == ExtendRegister(true) {
      NoDupSnoc(s.history, s.phase.digest);
    }
    if s.phase.Closed? && step.Open? && step.fileReadable {
      var order := Recorded(s.file);
      var value := Register(h, seed, s);
      if value != Fold(h, seed, order) && order != [] && value == Fold(h, seed, DropLast(order)) {
        assert s.history == DropLast(order);
        assert s.history + [Last(order)] == order;
      }
    }
  }

  /** A guest boots with nothing extended. Whatever bytes its file holds, it starts
      as NoDoubleExtend asks; as recovery asks, exactly when the file ends at a line
      end and records at most one digest. A missing file does both. */
  lemma Boot(file: Bytes)
    ensures Remembers(Sys(file, [], Closed))
    ensures Consistent(Sys(file, [], Closed)) <==> AtLineEnd(file) && |Recorded(file)| <= 1
    ensures Consistent(Sys([], [], Closed))
  {
    RecordedLines([]);
    assert |Recorded(file)| == 1 ==> DropLast(Recorded(file)) == [];
  }

  /** No digest is ever folded into the register twice: over every run, with any
      bytes at all in the file at any moment, torn appends, failed extends and
      rollbacks, and crashes anywhere. */
  lemma {:induction false} NoDoubleExtend(h: Hashes, seed: Bytes48, s: Sys, steps: seq<Step>)
    requires Remembers(s) && HonestRun(h, seed, s, steps)
    ensures Remembers(Run(h, seed, s, steps)) && NoDup(Run(h, seed, s, steps).history)
    decreases |steps|
  {
    if steps != [] {
      HonestPrefix(h, seed, s, steps);
      NoDoubleExtend(h, seed, s, DropLast(steps));
      RemembersStep(h, seed, Run(h, seed, s, DropLast(steps)), Last(steps));
    }
  }

  /** Nothing is assumed of the hash here: a digest is extended twice only if what
      some open compared breaks it. */
  lemma DoubleExtendBreaks(h: Hashes, seed: Bytes48, s: Sys, steps: seq<Step>)
    requires Remembers(s) && ReadsRegister(h, seed, s, steps)
    ensures NoDup(Run(h, seed, s, steps).history) || RunBreaks(h, seed, s, steps)
  {
    if HonestRun(h, seed, s, steps) {
      NoDoubleExtend(h, seed, s, steps);
    } else {
      DishonestRun(h, seed, s, steps);
    }
  }

  ghost predicate NeverDoubles(h: Hashes, seed: Bytes48, s: Sys) {
    forall steps :: HonestRun(h, seed, s, steps) ==> NoDup(Run(h, seed, s, steps).history)
  }

  /** An open that cannot read the register skips the cross-check. It is safe
      exactly when the file still names everything extended. */
  lemma UnreadableOpen(h: Hashes, seed: Bytes48, s: Sys, works: bool)
    requires s.phase.Closed? && Remembers(s)
    ensures NeverDoubles(h, seed, Next(h, seed, s, Open(true, false, works)))
            <==> Elements(s.history) <= Elements(Recorded(s.file))
  {
    var open := Next(h, seed, s, Open(true, false, works));
    if Elements(s.history) <= Elements(Recorded(s.file)) {
      forall steps | HonestRun(h, seed, open, steps) ensures NoDup(Run(h, seed, open, steps).history) {
        NoDoubleExtend(h, seed, open, steps);
      }
    } else {
      var d :| d in s.history && d !in Recorded(s.file);
      ForgottenDoubles(h, seed, open, d);
    }
  }

  lemma ForgottenDoubles(h: Hashes, seed: Bytes48, s: Sys, d: Bytes)
    requires s.phase.Idle? && !s.phase.mem.diverged
    requires IsCanonical(d) && d in s.history && d !in s.phase.mem.measured
    ensures !NeverDoubles(h, seed, s)
  {
    var again := [Record(d, 0, true), ExtendRegister(true)];
    assert HonestRun(h, seed, s, again);
    MeasureEffect(h, seed, s, d);
    var done := Run(h, seed, s, again);
    var i :| 0 <= i < |s.history| && s.history[i] == d;
    assert done.history[i] == done.history[|s.history|];
  }

  /** A measurement in which nothing fails. */
  lemma MeasureEffect(h: Hashes, seed: Bytes48, s: Sys, d: Bytes)
    requires s.phase.Idle? && !s.phase.mem.diverged && IsCanonical(d) && d !in s.phase.mem.measured
    ensures var mem := s.phase.mem;
            Run(h, seed, s, [Record(d, 0, true), ExtendRegister(true)]) ==
            Sys(s.file + Line(d), s.history + [d], Idle(Memory(mem.order + [d], mem.measured + {d}, false)))
  {
    CanonicalFixpoint(d);
    RunTwo(h, seed, s, Record(d, 0, true), ExtendRegister(true));
  }

  lemma RunOne(h: Hashes, seed: Bytes48, s: Sys, step: Step)
    ensures Run(h, seed, s, [step]) == Next(h, seed, s, step)
  {
    assert DropLast([step]) == [];
  }

  lemma RunCons(h: Hashes, seed: Bytes48, s: Sys, step: Step, rest: seq<Step>)
    ensures Run(h, seed, s, [step] + rest) == Run(h, seed, Next(h, seed, s, step), rest)
  {
    RunAppend(h, seed, s, [step], rest);
    RunOne(h, seed, s, step);
  }

  lemma RunTwo(h: Hashes, seed: Bytes48, s: Sys, a: Step, b: Step)
    ensures Run(h, seed, s, [a, b]) == Next(h, seed, Next(h, seed, s, a), b)
  {
    assert DropLast([a, b]) == [a];
    RunOne(h, seed, s, a);
  }

  lemma RunThree(h: Hashes, seed: Bytes48, s: Sys, a: Step, b: Step, c: Step)
    ensures Run(h, seed, s, [a, b, c]) == Next(h, seed, Next(h, seed, Next(h, seed, s, a), b), c)
  {
    assert DropLast([a, b, c]) == [a, b];
    RunTwo(h, seed, s, a, b);
  }

  // ------------------------------------------------------------------ recovery

  /** The file names the whole history, or the history and one digest more. */
  ghost predicate Recoverable(s: Sys) {
    var order := Recorded(s.file);
    order == s.history || (order != [] && DropLast(order) == s.history)
  }

  /** The writer's memory, the file and the register agree. */
  ghost predicate Synced(s: Sys, mem: Memory) {
    && !mem.diverged
    && mem.order == s.history == Recorded(s.file)
    && mem.measured == Elements(mem.order)
  }

  /** The file names one digest more than the register, and memory knows which. */
  ghost predicate Ahead(s: Sys, mem: Memory, d: Bytes) {
    && !mem.diverged
    && IsCanonical(d) && d !in s.history
    && Recorded(s.file) == s.history + [d]
    && mem.measured == Elements(s.history)
  }

  ghost predicate Consistent(s: Sys) {
    && AtLineEnd(s.file)
    && Recoverable(s)
    && match s.phase
       case Closed => true
       case Idle(mem) => Synced(s, mem)
       case Written(mem, d) => Ahead(s, mem, d) && mem.order == s.history + [d]
       case Unwinding(mem) => mem.order == s.history && exists d :: Ahead(s, mem, d)
  }

  /** After a rollback that could not replace the file: one crash from Consistent. */
  ghost predicate Stale(s: Sys) {
    && s.phase.Idle?
    && AtLineEnd(s.file)
    && s.phase.mem.order == s.history
    && exists d :: Ahead(s, s.phase.mem, d)
  }

  /** Disk steps that happen whole or not at all, and no other writer. */
  predicate Whole(step: Step) {
    (step.Record? && !step.ok ==> step.written == 0) && !step.Tamper?
  }

  /** A rollback that fails is followed by a crash. */
  ghost predicate Disciplined(steps: seq<Step>) {
    && (forall i :: 0 <= i < |steps| ==> Whole(steps[i]))
    && (forall i :: 0 <= i < |steps| - 1 && steps[i] == Rewrite(false) ==> steps[i + 1] == Crash)
  }

  /** An open of a file that names the whole history, or one digest more. */
  lemma OpenMatches(h: Hashes, seed: Bytes48, s: Sys, extendWorks: bool)
    requires s.phase.Closed? && Recorded(s.file) == s.history
    ensures Next(h, seed, s, Open(true, true, extendWorks)) == s.(phase := Idle(Loaded(s.file)))
  {
  }

  lemma OpenFinishes(h: Hashes, seed: Bytes48, s: Sys, d: Bytes)
    requires s.phase.Closed? && Recorded(s.file) == s.history + [d] && Honest(h, seed, s, Open(true, true, true))
    ensures Next(h, seed, s, Open(true, true, true)) == s.(history := s.history + [d], phase := Idle(Loaded(s.file)))
  {
    assert DropLast(s.history + [d]) == s.history && Last(s.history + [d]) == d;
    assert s.history != s.history + [d];
  }

  lemma OpenRecovers(h: Hashes, seed: Bytes48, s: Sys, extendWorks: bool)
    requires s.phase.Closed? && Consistent(s) && Honest(h, seed, s, Open(true, true, extendWorks))
    ensures var s' := Next(h, seed, s, Open(true, true, extendWorks));
            && s'.file == s.file
            && if s'.phase.Closed? then !extendWorks && s'.history == s.history != Recorded(s.file)
               else s'.phase.Idle? && Synced(s', s'.phase.mem)
                    && Register(h, seed, s') == Fold(h, seed, s'.phase.mem.order)
  {
    var order := Recorded(s.file);
    if s.history != order {
      assert order == DropLast(order) + [Last(order)];
    }
  }

  /** An open diverges exactly when what it finds is past repair. */
  lemma OpenDiverges(h: Hashes, seed: Bytes48, s: Sys, extendWorks: bool)
    requires s.phase.Closed? && Honest(h, seed, s, Open(true, true, extendWorks))
    ensures var s' := Next(h, seed, s, Open(true, true, extendWorks));
            s'.phase.Idle? && s'.phase.mem.diverged <==> !Recoverable(s)
  {
  }

  lemma RecordConsistent(h: Hashes, seed: Bytes48, s: Sys, step: Step)
    requires Consistent(s) && s.phase.Idle? && step.Record? && Whole(step)
    ensures Consistent(Next(h, seed, s, step))
  {
    match ToMeasure(s.phase.mem, step.ref)
    case None =>
    case Some(d) =>
      RecordedAfterRecord(s.file, d);
      assert s.file + Line(d)[..0] == s.file;
  }

  lemma ExtendConsistent(h: Hashes, seed: Bytes48, s: Sys, works: bool)
    requires Consistent(s) && s.phase.Written?
    ensures Consistent(Next(h, seed, s, ExtendRegister(works)))
  {
    var Written(mem, d) := s.phase;
    assert DropLast(s.history + [d]) == s.history;
    if !works {
      var s' := Next(h, seed, s, ExtendRegister(works));
      assert Ahead(s', s'.phase.mem, d);
    }
  }

  lemma RewriteConsistent(h: Hashes, seed: Bytes48, s: Sys, replaced: bool)
    requires Consistent(s) && s.phase.Unwinding?
    ensures var s' := Next(h, seed, s, Rewrite(replaced));
            if replaced then Consistent(s') else Stale(s') && Recoverable(s')
  {
    var mem := s.phase.mem;
    var d :| Ahead(s, mem, d);
    assert DropLast(Recorded(s.file)) == s.history;
    assert NoDup(mem.order) && AllCanonical(mem.order) by {
      assert forall i :: 0 <= i < |mem.order| ==> mem.order[i] == Recorded(s.file)[i];
    }
    RecordedLines(mem.order);
    if !replaced {
      var s' := Next(h, seed, s, Rewrite(replaced));
      assert Ahead(s', mem, d);
    }
  }

  lemma ConsistentStep(h: Hashes, seed: Bytes48, s: Sys, step: Step)
    requires Consistent(s) && Honest(h, seed, s, step) && Whole(step)
    ensures var s' := Next(h, seed, s, step);
            Recoverable(s') && (Consistent(s') || (step == Rewrite(false) && Stale(s')))
  {
    match step
    case Open(fileReadable, _, extendWorks) =>
      if s.phase.Closed? && fileReadable { OpenRecovers(h, seed, s, extendWorks); }
    case Record(_, _, _) => if s.phase.Idle? { RecordConsistent(h, seed, s, step); }
    case ExtendRegister(works) => if s.phase.Written? { ExtendConsistent(h, seed, s, works); }
    case Rewrite(replaced) => if s.phase.Unwinding? { RewriteConsistent(h, seed, s, replaced); }
    case Crash =>
    case Tamper(_) =>
  }

  /** Every state a disciplined run reaches is one an open can repair. */
  lemma {:induction false} AlwaysRecoverable(h: Hashes, seed: Bytes48, s: Sys, steps: seq<Step>)
    requires Consistent(s) && HonestRun(h, seed, s, steps) && Disciplined(steps)
    ensures var s' := Run(h, seed, s, steps);
            Recoverable(s') && (Consistent(s') || (steps != [] && Last(steps) == Rewrite(false) && Stale(s')))
    decreases |steps|
  {
    if steps != [] {
      HonestPrefix(h, seed, s, steps);
      AlwaysRecoverable(h, seed, s, DropLast(steps));
      var mid := Run(h, seed, s, DropLast(steps));
      if Consistent(mid) {
        ConsistentStep(h, seed, mid, Last(steps));
      } else {
        assert steps[|steps| - 2] == Rewrite(false);
      }
    }
  }

  /** So after any disciplined run and a crash, one open with a readable register
      and a working extend ends undiverged, and its order folds to the register. */
  lemma EveryOpenRecovers(h: Hashes, seed: Bytes48, s: Sys, steps: seq<Step>)
    requires Consistent(s) && Disciplined(steps)
    requires HonestRun(h, seed, s, steps + [Crash, Open(true, true, true)])
    ensures var s' := Run(h, seed, s, steps + [Crash, Open(true, true, true)]);
            && s'.phase.Idle? && Synced(s', s'.phase.mem)
            && Register(h, seed, s') == Fold(h, seed, s'.phase.mem.order)
  {
    var reopen := Open(true, true, true);
    assert DropLast(steps + [Crash, reopen]) == steps + [Crash] && DropLast(steps + [Crash]) == steps;
    HonestPrefix(h, seed, s, steps + [Crash, reopen]);
    CrashConsistent(h, seed, s, steps);
    OpenRecovers(h, seed, Run(h, seed, s, steps + [Crash]), true);
  }

  /** Nothing is assumed of the hash here: the last open recovers, unless what some
      open compared breaks it. */
  lemma LostRecoveryBreaks(h: Hashes, seed: Bytes48, s: Sys, steps: seq<Step>)
    requires Consistent(s) && Disciplined(steps)
    requires ReadsRegister(h, seed, s, steps + [Crash, Open(true, true, true)])
    ensures var all := steps + [Crash, Open(true, true, true)];
            var s' := Run(h, seed, s, all);
            || RunBreaks(h, seed, s, all)
            || (&& s'.phase.Idle? && Synced(s', s'.phase.mem)
                && Register(h, seed, s') == Fold(h, seed, s'.phase.mem.order))
  {
    if HonestRun(h, seed, s, steps + [Crash, Open(true, true, true)]) {
      EveryOpenRecovers(h, seed, s, steps);
    } else {
      DishonestRun(h, seed, s, steps + [Crash, Open(true, true, true)]);
    }
  }

  lemma CrashConsistent(h: Hashes, seed: Bytes48, s: Sys, steps: seq<Step>)
    requires Consistent(s) && Disciplined(steps) && HonestRun(h, seed, s, steps + [Crash])
    ensures Consistent(Run(h, seed, s, steps + [Crash])) && Run(h, seed, s, steps + [Crash]).phase.Closed?
  {
    assert DropLast(steps + [Crash]) == steps;
    HonestPrefix(h, seed, s, steps + [Crash]);
    AlwaysRecoverable(h, seed, s, steps);
  }

  // ------------------------------------------------------------------ reading

  /** Nothing is ever taken back out of the register. */
  lemma {:induction false} HistoryGrows(h: Hashes, seed: Bytes48, s: Sys, steps: seq<Step>)
    ensures s.history <= Run(h, seed, s, steps).history
    decreases |steps|
  {
    if steps != [] {
      HistoryGrows(h, seed, s, DropLast(steps));
    }
  }

  /** The digests extended by the end of one disciplined run are a prefix of what
      the file reads as at the end of every disciplined continuation. */
  lemma ExtendedStaysPrefix(h: Hashes, seed: Bytes48, s: Sys, quoted: seq<Step>, later: seq<Step>)
    requires Consistent(s) && Disciplined(quoted + later) && HonestRun(h, seed, s, quoted + later)
    ensures Run(h, seed, s, quoted).history <= Recorded(Run(h, seed, s, quoted + later).file)
  {
    AlwaysRecoverable(h, seed, s, quoted + later);
    RunAppend(h, seed, s, quoted, later);
    HistoryGrows(h, seed, Run(h, seed, s, quoted), later);
  }
}
