/** The journal as the measurer runs it: one object whose methods append to a
    file, extend a register and update their own fields. Every method is a run
    of the protocol's steps, so what the protocol keeps, it keeps. */
module Journal {
  import opened Octets
  import opened HashChain
  import opened JournalText
  import opened JournalProtocol

  /** The journal file. A missing file is an empty one. */
  class JournalFile {
    var content: Bytes

    constructor (content: Bytes)
      ensures this.content == content
    {
      this.content := content;
    }

    /** Appends data; a failing append may have written a first part of it. */
    method Append(data: Bytes, written: nat, ok: bool)
      modifies this
      ensures content == old(content) + if ok || |data| <= written then data else data[..written]
    {
      content := content + if ok || |data| <= written then data else data[..written];
    }

    /** Replaces the whole content through a temporary file and a rename. The
        directory is synced last, so an error may come after the replacement. */
    method WriteAtomic(data: Bytes, replaced: bool, synced: bool) returns (ok: bool)
      modifies this
      ensures content == if replaced then data else old(content)
      ensures ok == (replaced && synced)
    {
      if !replaced {
        return false;
      }
      content := data;
      return synced;
    }
  }

  /** The append-only register, with the digests ever extended into it. */
  class Device {
    var value: Bytes48
    ghost var history: seq<Bytes>

    constructor (seed: Bytes48)
      ensures value == seed && history == []
    {
      value, history := seed, [];
    }

    /** A failed extend leaves the register as it was. */
    method ExtendWith(h: Hashes, event: Bytes48, ghost digest: Bytes, works: bool) returns (ok: bool)
      modifies this
      ensures ok == works
      ensures value == if works then Extend(h, old(value), event) else old(value)
      ensures history == if works then old(history) + [digest] else old(history)
    {
      ok := works;
      if works {
        value := Extend(h, value, event);
        history := history + [digest];
      }
    }
  }

  datatype Problem = MalformedEntry | RegisterUnreadable | RegisterDiverged
  datatype OpenError = NoRegister | DirFailed | ReadFailed | RepairFailed

  datatype MeasureError =
    | BadReference(why: RefError)
    | Diverged
    | RecordFailed
    | ExtendFailed(rolledBack: bool)

  class Journal {
    const h: Hashes
    const file: JournalFile
    const reg: Device
    const seed: Bytes48
    var measured: set<Bytes>
    var order: seq<Bytes>
    var diverged: bool

    ghost predicate Valid()
      reads reg
    {
      reg.value == Fold(h, seed, reg.history)
    }

    ghost function Memory(): JournalProtocol.Memory
      reads this
    {
      JournalProtocol.Memory(order, measured, diverged)
    }

    /** The whole system, as the protocol sees it with this journal open. */
    ghost function State(): Sys
      reads this, file, reg
    {
      Sys(file.content, reg.history, Idle(Memory()))
    }

    constructor (h: Hashes, file: JournalFile, reg: Device, seed: Bytes48, order: seq<Bytes>)
      ensures this.h == h && this.file == file && this.reg == reg && this.seed == seed
      ensures Memory() == JournalProtocol.Memory(order, Elements(order), false)
    {
      this.h, this.file, this.reg, this.seed := h, file, reg, seed;
      this.order, this.diverged := order, false;
      this.measured := set d | d in order;
    }

    /** Compares the register with the journal and repairs the one difference it
        can. fatal reports a repair that failed. */
    method Reconcile(readable: bool, extendWorks: bool) returns (problem: Option<Problem>, fatal: bool)
      requires Valid() && measured == Elements(order) && !diverged && order == Recorded(file.content)
      modifies this, reg
      ensures Valid() && order == old(order) && measured == old(measured)
      ensures var s' := OpenStep(h, seed, Sys(old(file.content), old(reg.history), Closed), readable, extendWorks);
              reg.history == s'.history && if fatal then s'.phase.Closed? else s' == State()
      ensures fatal <==> readable && !extendWorks && RepairNeeded(h, seed, file.content, old(reg.history))
      ensures problem == if !readable then Some(RegisterUnreadable)
                         else if diverged then Some(RegisterDiverged) else None
    {
      problem, fatal := None, false;
      if !readable {
        return Some(RegisterUnreadable), false;
      }
      var cur := reg.value;
      var want := FromDigestsSeeded(h, seed, order);
      if cur == want {
        return;
      }
      if order != [] {
        want := FromDigestsSeeded(h, seed, DropLast(order));
        if cur == want {
          var last := Last(order);
          FoldSnoc(h, seed, reg.history, last);
          var ok := reg.ExtendWith(h, Event(h, last), last, extendWorks);
          fatal := !ok;
          return;
        }
      }
      diverged := true;
      problem := Some(RegisterDiverged);
    }

    /** record: the file first, then memory, so memory never claims a digest the
        file does not hold. */
    method Record(digest: Bytes, written: nat, ok: bool) returns (recorded: bool)
      modifies file, this`order
      ensures recorded == ok
      ensures file.content == old(file.content)
                + if ok || |Line(digest)| <= written then Line(digest) else Line(digest)[..written]
      ensures order == if ok then old(order) + [digest] else old(order)
    {
      file.Append(digest + [NEWLINE], written, ok);
      if ok { order := order + [digest]; }
      return ok;
    }

    /** unrecordLast: memory first, then the file, rewritten whole. */
    method UnrecordLast(digest: Bytes, replaced: bool, synced: bool) returns (ok: bool)
      modifies file, this`order
      ensures ok == (replaced && synced)
      ensures order == if old(order) != [] && Last(old(order)) == digest then DropLast(old(order)) else old(order)
      ensures file.content == if replaced then Lines(order) else old(file.content)
    {
      if order != [] && order[|order| - 1] == digest {
        order := order[..|order| - 1];
      }
      var text: Bytes := [];
      for i := 0 to |order|
        invariant text == Lines(order[..i])
      {
        assert order[..i + 1][..i] == order[..i];
        text := text + order[i] + [NEWLINE];
        assert text == Lines(order[..i]) + Line(order[i]);
      }
      assert order[..|order|] == order;
      ok := file.WriteAtomic(text, replaced, synced);
    }

    /** Measures ref's image unless this journal already has. Whatever fails, the
        effect is the three protocol steps in order, those that do not apply
        doing nothing. */
    method MeasureOnce(ref: Bytes, written: nat, recordOk: bool, extendWorks: bool, replaced: bool, synced: bool)
      returns (r: Result<bool, MeasureError>)
      requires Valid()
      modifies this, file, reg
      ensures Valid()
      ensures State() == Run(h, seed, old(State()),
                             [JournalProtocol.Record(ref, written, recordOk), ExtendRegister(extendWorks),
                                 Rewrite(replaced)])
      ensures r == Ok(true) <==> reg.history != old(reg.history)
      ensures CanonicalDigest(ref).Err? ==> r == Err(BadReference(CanonicalDigest(ref).error))
      ensures CanonicalDigest(ref).Ok? ==>
                var d := CanonicalDigest(ref).value;
                r == if old(diverged) then Err(Diverged)
                     else if d in old(measured) then Ok(false)
                     else if !recordOk then Err(RecordFailed)
                     else if !extendWorks then Err(ExtendFailed(replaced && synced))
                     else Ok(true)
    {
      ghost var s := State();
      ghost var steps := [JournalProtocol.Record(ref, written, recordOk), ExtendRegister(extendWorks),
          Rewrite(replaced)];
      RunThree(h, seed, s, steps[0], steps[1], steps[2]);
      var canonical := CanonicalDigest(ref);
      if canonical.Err? {
        return Err(BadReference(canonical.error));
      }
      var d := canonical.value;
      if diverged {
        return Err(Diverged);
      }
      if d in measured {
        return Ok(false);
      }
      var recorded := Record(d, written, recordOk);
      if !recorded {
        return Err(RecordFailed);
      }
      assert Last(order) == d;
      r := ExtendRecorded(d, extendWorks, replaced, synced);
      assert r == Ok(true) ==> |reg.history| == |s.history| + 1;
    }

    /** Extends the digest just recorded, or rolls its record back. */
    method ExtendRecorded(d: Bytes, extendWorks: bool, replaced: bool, synced: bool)
      returns (r: Result<bool, MeasureError>)
      requires Valid() && order != [] && Last(order) == d
      modifies this, file, reg
      ensures Valid() && diverged == old(diverged)
      ensures reg.history == if extendWorks then old(reg.history) + [d] else old(reg.history)
      ensures measured == if extendWorks then old(measured) + {d} else old(measured)
      ensures order == if extendWorks then old(order) else DropLast(old(order))
      ensures file.content == if !extendWorks && replaced then Lines(order) else old(file.content)
      ensures r == if extendWorks then Ok(true) else Err(ExtendFailed(replaced && synced))
    {
      FoldSnoc(h, seed, reg.history, d);
      var extended := reg.ExtendWith(h, Event(h, d), d, extendWorks);
      if !extended {
        var rolledBack := UnrecordLast(d, replaced, synced);
        return Err(ExtendFailed(rolledBack));
      }
      measured := measured + {d};
      return Ok(true);
    }
  }

  /** The file is one digest ahead of the register: its fold is not the register's
      value, and without its last digest it is. */
  ghost predicate RepairNeeded(h: Hashes, seed: Bytes48, file: Bytes, history: seq<Bytes>) {
    var order := Recorded(file);
    && Fold(h, seed, history) != Fold(h, seed, order)
    && order != [] && Fold(h, seed, history) == Fold(h, seed, DropLast(order))
  }

  /** OpenJournalSeeded. The seed is what the register held before any journaled
      extend. No journal comes back from a failed repair; every other problem is
      reported beside a usable one. */
  method OpenJournalSeeded(h: Hashes, file: JournalFile, reg: Device?, seed: Bytes48,
                           dirOk: bool, fileReadable: bool, registerReadable: bool, extendWorks: bool)
    returns (j: Journal?, problems: set<Problem>, error: Option<OpenError>)
    requires reg != null ==> reg.value == Fold(h, seed, reg.history)
    modifies reg
    ensures j == null <==> error.Some?
    ensures error == if reg == null then Some(NoRegister)
                     else if !dirOk then Some(DirFailed)
                     else if !fileReadable then Some(ReadFailed)
                     else if registerReadable && !extendWorks && RepairNeeded(h, seed, file.content, old(reg.history))
                     then Some(RepairFailed)
                     else None
    ensures j != null ==> fresh(j) && reg != null && j.Valid()
    ensures j != null ==> j.h == h && j.file == file && j.reg == reg && j.seed == seed
    ensures reg != null ==>
              var s := Sys(file.content, old(reg.history), Closed);
              var s' := if dirOk then Next(h, seed, s, Open(fileReadable, registerReadable, extendWorks)) else s;
              reg.history == s'.history && if j == null then s'.phase.Closed? else s' == j.State()
    ensures j != null ==> (RegisterDiverged in problems <==> j.diverged)
                          && (MalformedEntry in problems <==> Skipped(Split(file.content, NEWLINE)) != [])
                          && (RegisterUnreadable in problems <==> !registerReadable)
  {
    problems := {};
    if reg == null {
      return null, {}, Some(NoRegister);
    }
    if !dirOk {
      return null, {}, Some(DirFailed);
    }
    if !fileReadable {
      return null, {}, Some(ReadFailed);
    }
    var order, skipped := ParseJournal(file.content);
    var journal := new Journal(h, file, reg, seed, order);
    if skipped != [] {
      problems := {MalformedEntry};
    }
    var problem, fatal := journal.Reconcile(registerReadable, extendWorks);
    if fatal {
      return null, {}, Some(RepairFailed);
    }
    if problem.Some? {
      problems := problems + {problem.value};
    }
    return journal, problems, None;
  }

  /** ReadJournal, for a reader beside the measurer: it changes nothing. A missing
      file reads as an empty one; a file that cannot be read is an error. */
  method ReadJournal(file: JournalFile, readable: bool) returns (r: Result<seq<Bytes>, OpenError>)
    ensures r == if readable then Ok(Recorded(file.content)) else Err(ReadFailed)
  {
    if !readable {
      return Err(ReadFailed);
    }
    var order, skipped := ParseJournal(file.content);
    return Ok(order);
  }
}
