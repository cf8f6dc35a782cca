/** Getters sharing one on-disk certificate cache, step by step: any number of
    them, interleaved in any order, each able to fail or die at any step. */
module KdsCache {
  import opened Octets
  import opened HashChain

  /** cacheable says whether a URL names an immutable endorsement certificate. */
  datatype Config = Config(h: Hashes, cacheable: Bytes -> bool)

  /** Published files are keyed by the hash of the whole URL. */
  datatype FileName = Temp(id: nat) | Cert(key: Bytes32)

  datatype Phase =
    | Start
    | Missed
    | Fetched(body: Bytes)
    | Writing(body: Bytes, tmp: nat)
    | Filled(body: Bytes, tmp: nat)
    | Closed(body: Bytes, tmp: nat)
    | Cleanup(body: Bytes, tmp: nat)
    | Done(result: Option<Bytes>)

  datatype Getter = Getter(url: Bytes, phase: Phase)

  /** An answer the upstream gave. */
  datatype Reply = Reply(who: nat, url: Bytes, body: Bytes)

  /** used holds every temporary name ever taken; replies everything the upstream
      ever answered. */
  datatype State = State(files: map<FileName, Bytes>, used: set<nat>, getters: map<nat, Getter>, replies: set<Reply>)

  datatype Action =
    | Begin(url: Bytes)
    | ReadFile(ok: bool)
    | AskUpstream(answer: Option<Bytes>)
    | CreateTemp(id: nat, ok: bool)
    | Write(written: nat, ok: bool)
    | CloseTemp(ok: bool)
    | Rename(ok: bool)
    | Remove(ok: bool)
    | Die

  function FileOf(c: Config, url: Bytes): FileName {
    Cert(c.h.sha256(url))
  }

  function Move(s: State, who: nat, phase: Phase): State
    requires who in s.getters
  {
    s.(getters := s.getters[who := s.getters[who].(phase := phase)])
  }

  /** One step of one getter; an action that does not apply does nothing. A
      temporary file gets a name no file ever had. */
  function Step(c: Config, s: State, who: nat, action: Action): State {
    if action.Begin? then
      if who in s.getters then s else s.(getters := s.getters[who := Getter(action.url, Start)])
    else if who !in s.getters then s
    else Advance(c, s, who, action)
  }

  function Advance(c: Config, s: State, who: nat, action: Action): State
    requires who in s.getters
  {
    var url := s.getters[who].url;
    var file := FileOf(c, url);
    match (s.getters[who].phase, action)
    case (Start, ReadFile(ok)) =>
      if !c.cacheable(url) then s
      else if ok && file in s.files && |s.files[file]| > 0 then Move(s, who, Done(Some(s.files[file])))
      else Move(s, who, Missed)
    case (Start, AskUpstream(answer)) =>
      if c.cacheable(url) then s else Move(Log(s, who, url, answer), who, Done(answer))
    case (Missed, AskUpstream(answer)) =>
      Move(Log(s, who, url, answer), who, if answer.Some? then Fetched(answer.value) else Done(None))
    case (Fetched(body), CreateTemp(id, ok)) =>
      if !ok || id in s.used then Move(s, who, Done(Some(body)))
      else Move(s.(files := s.files[Temp(id) := []], used := s.used + {id}), who, Writing(body, id))
    case (Writing(body, tmp), Write(written, ok)) =>
      var data := if ok || |body| <= written then body else body[..written];
      Move(s.(files := s.files[Temp(tmp) := data]), who, if ok then Filled(body, tmp) else Cleanup(body, tmp))
    case (Filled(body, tmp), CloseTemp(ok)) =>
      Move(s, who, if ok then Closed(body, tmp) else Cleanup(body, tmp))
    case (Closed(body, tmp), Rename(ok)) =>
      Move(if ok && Temp(tmp) in s.files
           then s.(files := (s.files - {Temp(tmp)})[file := s.files[Temp(tmp)]]) else s,
           who, Cleanup(body, tmp))
    case (Cleanup(body, tmp), Remove(ok)) =>
      Move(if ok then s.(files := s.files - {Temp(tmp)}) else s, who, Done(Some(body)))
    case (phase, Die) => if phase.Done? then s else Move(s, who, Done(None))
    case _ => s
  }

  function Log(s: State, who: nat, url: Bytes, answer: Option<Bytes>): State {
    if answer.Some? then s.(replies := s.replies + {Reply(who, url, answer.value)}) else s
  }

  function Run(c: Config, s: State, steps: seq<(nat, Action)>): State {
    if steps == [] then s
    else Step(c, Run(c, s, steps[..|steps| - 1]), steps[|steps| - 1].0, steps[|steps| - 1].1)
  }

  // -------------------------------------------------------------- invariants

  /** body is what the upstream answered for some URL filed under key. */
  ghost predicate Answered(c: Config, s: State, key: Bytes32, body: Bytes) {
    exists r :: r in s.replies && r.body == body && c.h.sha256(r.url) == key
  }

  predicate Holds(p: Phase, tmp: nat) {
    (p.Writing? || p.Filled? || p.Closed? || p.Cleanup?) && p.tmp == tmp
  }

  /** A getter past its fetch is carrying its own answer; one past its write has
      all of it on disk, in a file no other getter touches. */
  ghost predicate GetterOk(c: Config, s: State, who: nat)
    requires who in s.getters
  {
    var g := s.getters[who];
    && (!c.cacheable(g.url) ==> g.phase.Start? || g.phase.Done?)
    && (match g.phase
        case Start => true
        case Missed => true
        case Done(None) => true
        case Done(Some(b)) =>
          if c.cacheable(g.url) then Answered(c, s, c.h.sha256(g.url), b) else Reply(who, g.url, b) in s.replies
        case _ => Reply(who, g.url, g.phase.body) in s.replies)
    && (g.phase.Writing? || g.phase.Filled? || g.phase.Closed? || g.phase.Cleanup? ==> g.phase.tmp in s.used)
    && (g.phase.Filled? || g.phase.Closed? ==>
          Temp(g.phase.tmp) in s.files && s.files[Temp(g.phase.tmp)] == g.phase.body)
  }

  ghost predicate Exclusive(s: State) {
    forall a, b, tmp: nat :: a in s.getters && b in s.getters && a != b ==>
      !(Holds(s.getters[a].phase, tmp) && Holds(s.getters[b].phase, tmp))
  }

  ghost predicate FilesOk(c: Config, s: State) {
    forall key: Bytes32 :: Cert(key) in s.files ==> Answered(c, s, key, s.files[Cert(key)])
  }

  ghost predicate Inv(c: Config, s: State) {
    && FilesOk(c, s)
    && Exclusive(s)
    && forall who :: who in s.getters ==> GetterOk(c, s, who)
  }

  lemma FilesStep(c: Config, s: State, who: nat, action: Action)
    requires Inv(c, s)
    ensures FilesOk(c, Step(c, s, who, action))
  {
    var s' := Step(c, s, who, action);
    if who in s.getters {
      var g := s.getters[who];
      assert GetterOk(c, s, who);
      forall key: Bytes32 | Cert(key) in s'.files ensures Answered(c, s', key, s'.files[Cert(key)]) {
        if g.phase.Closed? && action == Rename(true) && Cert(key) == FileOf(c, g.url) {
          assert Reply(who, g.url, g.phase.body) in s'.replies;
        } else {
          var r :| r in s.replies && r.body == s.files[Cert(key)] && c.h.sha256(r.url) == key;
          assert r in s'.replies;
        }
      }
    }
  }

  /** A step of who leaves every other getter as it stands. */
  lemma StepKeeps(c: Config, s: State, who: nat, action: Action, other: nat)
    requires other != who
    ensures var s' := Step(c, s, who, action);
            && (other in s'.getters <==> other in s.getters)
            && (other in s.getters ==> s'.getters[other] == s.getters[other])
            && s.replies <= s'.replies && s.used <= s'.used
  {
  }

  /** A getter only comes to hold a temporary no one ever had. */
  lemma HoldsStep(c: Config, s: State, who: nat, action: Action, tmp: nat)
    requires var s' := Step(c, s, who, action); who in s'.getters && Holds(s'.getters[who].phase, tmp)
    ensures tmp !in s.used || (who in s.getters && Holds(s.getters[who].phase, tmp))
  {
  }

  lemma ExclusiveStep(c: Config, s: State, who: nat, action: Action)
    requires Inv(c, s)
    ensures Exclusive(Step(c, s, who, action))
  {
    var s' := Step(c, s, who, action);
    forall a, b, tmp: nat | a in s'.getters && b in s'.getters && a != b
      ensures !(Holds(s'.getters[a].phase, tmp) && Holds(s'.getters[b].phase, tmp))
    {
      if Holds(s'.getters[a].phase, tmp) {
        if a == who && Holds(s'.getters[b].phase, tmp) {
          OtherHolds(c, s, who, action, b, a, tmp);
        } else if a != who {
          OtherHolds(c, s, who, action, a, b, tmp);
        }
      }
    }
  }

  /** A temporary that a bystander holds after a step, no one else does. */
  lemma OtherHolds(c: Config, s: State, who: nat, action: Action, a: nat, b: nat, tmp: nat)
    requires Inv(c, s) && a != who && a != b && a in Step(c, s, who, action).getters
    requires Holds(Step(c, s, who, action).getters[a].phase, tmp)
    ensures b in Step(c, s, who, action).getters ==> !Holds(Step(c, s, who, action).getters[b].phase, tmp)
  {
    var s' := Step(c, s, who, action);
    StepKeeps(c, s, who, action, a);
    assert GetterOk(c, s, a);
    if b != who {
      StepKeeps(c, s, who, action, b);
    } else if b in s'.getters && Holds(s'.getters[b].phase, tmp) {
      HoldsStep(c, s, who, action, tmp);
    }
  }

  /** The getter that moves. */
  lemma MoverStep(c: Config, s: State, who: nat, action: Action)
    requires Inv(c, s) && who in s.getters
    ensures GetterOk(c, Step(c, s, who, action), who)
  {
    var g := s.getters[who];
    var s' := Step(c, s, who, action);
    assert GetterOk(c, s, who);
    if g.phase.Done? && g.phase.result.Some? {
      AnsweredStays(c, s, s', c.h.sha256(g.url), g.phase.result.value);
    }
    if s'.getters[who].phase.Done? && s'.getters[who].phase.result.Some? {
      var b := s'.getters[who].phase.result.value;
      if Reply(who, g.url, b) in s'.replies {
        assert Answered(c, s', c.h.sha256(g.url), b);
      }
    }
  }

  lemma AnsweredStays(c: Config, s: State, s': State, key: Bytes32, body: Bytes)
    requires s.replies <= s'.replies
    ensures Answered(c, s, key, body) ==> Answered(c, s', key, body)
  {
    if Answered(c, s, key, body) {
      var r :| r in s.replies && r.body == body && c.h.sha256(r.url) == key;
      assert r in s'.replies;
    }
  }

  /** A temporary another getter holds is not touched. */
  lemma TempKept(c: Config, s: State, who: nat, action: Action, tmp: nat)
    requires tmp in s.used && Temp(tmp) in s.files
    requires who in s.getters ==> !Holds(s.getters[who].phase, tmp)
    ensures var s' := Step(c, s, who, action); Temp(tmp) in s'.files && s'.files[Temp(tmp)] == s.files[Temp(tmp)]
  {
  }

  /** What keeps a getter in order while it stands still. */
  lemma StandsOk(c: Config, s: State, s': State, other: nat)
    requires other in s.getters && other in s'.getters && s'.getters[other] == s.getters[other]
    requires GetterOk(c, s, other) && s.replies <= s'.replies && s.used <= s'.used
    requires var p := s.getters[other].phase;
             p.Filled? || p.Closed? ==> Temp(p.tmp) in s'.files && s'.files[Temp(p.tmp)] == s.files[Temp(p.tmp)]
    ensures GetterOk(c, s', other)
  {
    var g := s.getters[other];
    if g.phase.Done? && g.phase.result.Some? {
      AnsweredStays(c, s, s', c.h.sha256(g.url), g.phase.result.value);
    }
  }

  /** The getters that do not. */
  lemma BystanderStep(c: Config, s: State, who: nat, action: Action, other: nat)
    requires Inv(c, s) && other != who && other in s.getters
    ensures other in Step(c, s, who, action).getters && GetterOk(c, Step(c, s, who, action), other)
  {
    var p := s.getters[other].phase;
    assert GetterOk(c, s, other);
    StepKeeps(c, s, who, action, other);
    if p.Filled? || p.Closed? {
      assert Holds(p, p.tmp);
      TempKept(c, s, who, action, p.tmp);
    }
    StandsOk(c, s, Step(c, s, who, action), other);
  }

  lemma InvStep(c: Config, s: State, who: nat, action: Action)
    requires Inv(c, s)
    ensures Inv(c, Step(c, s, who, action))
  {
    var s' := Step(c, s, who, action);
    FilesStep(c, s, who, action);
    ExclusiveStep(c, s, who, action);
    forall g | g in s'.getters ensures GetterOk(c, s', g) {
      if g != who {
        BystanderStep(c, s, who, action, g);
      } else if who in s.getters {
        MoverStep(c, s, who, action);
      }
    }
  }

  lemma {:induction false} InvRun(c: Config, s: State, steps: seq<(nat, Action)>)
    requires Inv(c, s)
    ensures Inv(c, Run(c, s, steps))
    decreases |steps|
  {
    if steps != [] {
      InvRun(c, s, steps[..|steps| - 1]);
      InvStep(c, Run(c, s, steps[..|steps| - 1]), steps[|steps| - 1].0, steps[|steps| - 1].1);
    }
  }

  const EMPTY: State := State(map[], {}, map[], {})

  // ---------------------------------------------------------------- theorems

  /** Two URLs filed under one name. */
  ghost predicate ShareFile(c: Config, u: Bytes, v: Bytes) {
    u != v && c.h.sha256(u) == c.h.sha256(v)
  }

  /** Under every interleaving, each published file is one complete body the
      upstream answered for a URL filed there. */
  lemma PublishedComplete(c: Config, steps: seq<(nat, Action)>, url: Bytes)
    requires FileOf(c, url) in Run(c, EMPTY, steps).files
    ensures var s := Run(c, EMPTY, steps);
            exists r :: r in s.replies && r.body == s.files[FileOf(c, url)]
                        && (r.url == url || ShareFile(c, r.url, url))
  {
    InvRun(c, EMPTY, steps);
    var s := Run(c, EMPTY, steps);
    var r :| r in s.replies && r.body == s.files[FileOf(c, url)] && c.h.sha256(r.url) == c.h.sha256(url);
    assert r.url == url || ShareFile(c, r.url, url);
  }

  /** Every successful result is an answer of the upstream: the getter's own for a
      URL that is never cached, and otherwise one for the URL asked, unless two
      URLs share a hash. */
  lemma ResultIsUpstream(c: Config, steps: seq<(nat, Action)>, who: nat, body: Bytes)
    requires who in Run(c, EMPTY, steps).getters
    requires Run(c, EMPTY, steps).getters[who].phase == Done(Some(body))
    ensures var s := Run(c, EMPTY, steps); var url := s.getters[who].url;
            if c.cacheable(url)
            then exists r :: r in s.replies && r.body == body && (r.url == url || ShareFile(c, r.url, url))
            else Reply(who, url, body) in s.replies
  {
    InvRun(c, EMPTY, steps);
    var s := Run(c, EMPTY, steps);
    var url := s.getters[who].url;
    assert GetterOk(c, s, who);
    if c.cacheable(url) {
      var r :| r in s.replies && r.body == body && c.h.sha256(r.url) == c.h.sha256(url);
      assert r.url == url || ShareFile(c, r.url, url);
    }
  }

  // --------------------------------------------------------- one getter alone

  /** The shared directory. */
  class Directory {
    var files: map<FileName, Bytes>
    ghost var used: set<nat>

    constructor ()
      ensures files == map[] && used == {}
    {
      files, used := map[], {};
    }
  }

  /** What the environment does to one call. */
  datatype Weather = Weather(readOk: bool, answer: Option<Bytes>, id: nat, createOk: bool, written: nat,
                             writeOk: bool, closeOk: bool, renameOk: bool, removeOk: bool)

  /** A call up to the upstream's answer, nobody else moving. */
  function Fetch(c: Config, s: State, who: nat, url: Bytes, w: Weather): State {
    var s1 := Step(c, s, who, Begin(url));
    var s2 := Step(c, s1, who, ReadFile(w.readOk));
    Step(c, s2, who, AskUpstream(w.answer))
  }

  /** And from there to its return. */
  function Publish(c: Config, s: State, who: nat, w: Weather): State {
    var s1 := Step(c, s, who, CreateTemp(w.id, w.createOk));
    var s2 := Step(c, s1, who, Write(w.written, w.writeOk));
    var s3 := Step(c, s2, who, CloseTemp(w.closeOk));
    var s4 := Step(c, s3, who, Rename(w.renameOk));
    Step(c, s4, who, Remove(w.removeOk))
  }

  /** The temporary's content after one write. */
  function Data(body: Bytes, w: Weather): Bytes {
    if w.writeOk || |body| <= w.written then body else body[..w.written]
  }

  /** The directory after one publication. */
  function FilesAfter(c: Config, files: map<FileName, Bytes>, url: Bytes, body: Bytes, w: Weather)
    : map<FileName, Bytes> {
    if !w.createOk then files
    else
      var tmp := Temp(w.id);
      var written := files[tmp := Data(body, w)];
      var renamed := if w.writeOk && w.closeOk && w.renameOk then (written - {tmp})[FileOf(c, url) := body]
          else written;
      if w.removeOk then renamed - {tmp} else renamed
  }

  lemma PublishEffect(c: Config, s: State, who: nat, w: Weather)
    requires who in s.getters && s.getters[who].phase.Fetched? && w.id !in s.used
    ensures var g := s.getters[who];
            Publish(c, s, who, w) ==
            Move(s.(files := FilesAfter(c, s.files, g.url, g.phase.body, w),
                    used := if w.createOk then s.used + {w.id} else s.used), who, Done(Some(g.phase.body)))
  {
    var body := s.getters[who].phase.body;
    if w.createOk {
      WriteEffect(c, s, who, w);
      var full := s.(files := s.files[Temp(w.id) := Data(body, w)], used := s.used + {w.id});
      var written := if w.writeOk then Filled(body, w.id) else Cleanup(body, w.id);
      TidyEffect(c, Move(full, who, written), who, w);
      MoveTwice(s, full, who, written, Done(Some(body)), FilesAfter(c, s.files, s.getters[who].url, body, w));
    } else {
      CreateFails(c, s, who, w);
    }
  }

  lemma CreateFails(c: Config, s: State, who: nat, w: Weather)
    requires who in s.getters && s.getters[who].phase.Fetched? && !w.createOk
    ensures Publish(c, s, who, w) == Move(s, who, Done(Some(s.getters[who].phase.body)))
  {
    assert Move(s, who, Done(Some(s.getters[who].phase.body))).getters[who].phase.Done?;
  }

  /** Only where a getter comes to stand last counts. */
  lemma MoveTwice(s: State, full: State, who: nat, p: Phase, q: Phase, files: map<FileName, Bytes>)
    requires who in s.getters && full.getters == s.getters && full.replies == s.replies
    ensures Move(Move(full, who, p).(files := files), who, q) == Move(s.(files := files, used := full.used), who, q)
  {
  }

  lemma WriteEffect(c: Config, s: State, who: nat, w: Weather)
    requires who in s.getters && s.getters[who].phase.Fetched? && w.id !in s.used && w.createOk
    ensures var body := s.getters[who].phase.body;
            Step(c, Step(c, s, who, CreateTemp(w.id, w.createOk)), who, Write(w.written, w.writeOk)) ==
            Move(s.(files := s.files[Temp(w.id) := Data(body, w)], used := s.used + {w.id}), who,
                 if w.writeOk then Filled(body, w.id) else Cleanup(body, w.id))
  {
    var body := s.getters[who].phase.body;
    var s1 := Step(c, s, who, CreateTemp(w.id, w.createOk));
    assert s1 == Move(s.(files := s.files[Temp(w.id) := []], used := s.used + {w.id}), who, Writing(body, w.id));
  }

  /** The files once the temporary, whole or not, was closed and perhaps renamed. */
  function Renamed(c: Config, s: State, who: nat, w: Weather): map<FileName, Bytes>
    requires who in s.getters && (s.getters[who].phase.Filled? || s.getters[who].phase.Cleanup?)
  {
    var g := s.getters[who];
    if g.phase.Filled? && w.closeOk && w.renameOk
    then (s.files - {Temp(w.id)})[FileOf(c, g.url) := g.phase.body] else s.files
  }

  /** Closing, renaming and removing, from a file that may be incomplete. */
  lemma TidyEffect(c: Config, s: State, who: nat, w: Weather)
    requires who in s.getters && Temp(w.id) in s.files
    requires s.getters[who].phase.Filled? || s.getters[who].phase.Cleanup?
    requires s.getters[who].phase.tmp == w.id
             && (s.getters[who].phase.Filled? ==> s.files[Temp(w.id)] == s.getters[who].phase.body)
    ensures var renamed := Renamed(c, s, who, w);
            Step(c, Step(c, Step(c, s, who, CloseTemp(w.closeOk)), who, Rename(w.renameOk)), who, Remove(w.removeOk)) ==
            Move(s.(files := if w.removeOk then renamed - {Temp(w.id)} else renamed), who,
                Done(Some(s.getters[who].phase.body)))
  {
    CloseEffect(c, s, who, w);
    RemoveEffect(c, s.(files := Renamed(c, s, who, w)), who, s.getters[who].phase.body, w);
  }

  lemma CloseEffect(c: Config, s: State, who: nat, w: Weather)
    requires who in s.getters && Temp(w.id) in s.files
    requires s.getters[who].phase.Filled? || s.getters[who].phase.Cleanup?
    requires s.getters[who].phase.tmp == w.id
             && (s.getters[who].phase.Filled? ==> s.files[Temp(w.id)] == s.getters[who].phase.body)
    ensures Step(c, Step(c, s, who, CloseTemp(w.closeOk)), who, Rename(w.renameOk)) ==
            Move(s.(files := Renamed(c, s, who, w)), who, Cleanup(s.getters[who].phase.body, w.id))
  {
    var g := s.getters[who];
    var s1 := Step(c, s, who, CloseTemp(w.closeOk));
    if g.phase.Filled? && w.closeOk {
      assert s1 == Move(s, who, Closed(g.phase.body, w.id));
    } else {
      assert s1 == Move(s, who, Cleanup(g.phase.body, w.id));
    }
  }

  lemma RemoveEffect(c: Config, s: State, who: nat, body: Bytes, w: Weather)
    requires who in s.getters
    ensures Step(c, Move(s, who, Cleanup(body, w.id)), who, Remove(w.removeOk)) ==
            Move(s.(files := if w.removeOk then s.files - {Temp(w.id)} else s.files), who, Done(Some(body)))
  {
  }

  /** Where a getter stands once its fetch is over. */
  function FetchPhase(c: Config, files: map<FileName, Bytes>, url: Bytes, w: Weather): Phase {
    var p := FileOf(c, url);
    if !c.cacheable(url) then Done(w.answer)
    else if w.readOk && p in files && |files[p]| > 0 then Done(Some(files[p]))
    else if w.answer.Some? then Fetched(w.answer.value)
    else Done(None)
  }

  lemma FetchEffect(c: Config, s: State, who: nat, url: Bytes, w: Weather)
    requires who !in s.getters
    ensures var s' := Fetch(c, s, who, url, w);
            s'.files == s.files && s'.used == s.used
            && s'.getters == s.getters[who := Getter(url, FetchPhase(c, s.files, url, w))]
  {
    var s1 := Step(c, s, who, Begin(url));
    assert s1.getters[who] == Getter(url, Start);
    AskEffect(c, s1, who, w);
  }

  lemma AskEffect(c: Config, s: State, who: nat, w: Weather)
    requires who in s.getters && s.getters[who].phase == Start
    ensures var s' := Step(c, Step(c, s, who, ReadFile(w.readOk)), who, AskUpstream(w.answer));
            var url := s.getters[who].url;
            s'.files == s.files && s'.used == s.used
            && s'.getters == s.getters[who := Getter(url, FetchPhase(c, s.files, url, w))]
  {
    var url, p := s.getters[who].url, FetchPhase(c, s.files, s.getters[who].url, w);
    var s2 := Step(c, s, who, ReadFile(w.readOk));
    if !c.cacheable(url) {
      assert s2 == s;
    } else if w.readOk && FileOf(c, url) in s.files && |s.files[FileOf(c, url)]| > 0 {
      assert s2 == Move(s, who, p);
    } else {
      assert s2 == Move(s, who, Missed);
    }
  }

  lemma DoneStays(c: Config, s: State, who: nat, w: Weather)
    requires who in s.getters && s.getters[who].phase.Done?
    ensures Publish(c, s, who, w) == s
  {
  }

  /** GetContext, with no one else at work: its whole effect is its steps in the
      order the machine above takes them. */
  method GetContext(c: Config, dir: Directory, url: Bytes, w: Weather) returns (r: Option<Bytes>)
    requires w.id !in dir.used
    modifies dir
    ensures var fetched := Fetch(c, State(old(dir.files), old(dir.used), map[], {}), 0, url, w);
            var s' := Publish(c, fetched, 0, w);
            && s'.getters == map[0 := Getter(url, Done(r))]
            && s'.files == dir.files && s'.used == dir.used
  {
    ghost var start := State(dir.files, dir.used, map[], {});
    ghost var fetched := Fetch(c, start, 0, url, w);
    FetchEffect(c, start, 0, url, w);
    if fetched.getters[0].phase.Done? {
      DoneStays(c, fetched, 0, w);
    } else {
      PublishEffect(c, fetched, 0, w);
    }
    if !c.cacheable(url) {
      return w.answer;
    }
    var p := FileOf(c, url);
    if w.readOk && p in dir.files && |dir.files[p]| > 0 {
      return Some(dir.files[p]);
    }
    if w.answer.None? {
      return None;
    }
    PublishBody(c, dir, url, w.answer.value, w);
    return w.answer;
  }

  /** The best-effort write behind a successful fetch. */
  method PublishBody(c: Config, dir: Directory, url: Bytes, b: Bytes, w: Weather)
    modifies dir
    ensures dir.files == FilesAfter(c, old(dir.files), url, b, w)
    ensures dir.used == if w.createOk then old(dir.used) + {w.id} else old(dir.used)
  {
    if !w.createOk {
      return;
    }
    FillTemp(dir, b, w);
    if w.writeOk && w.closeOk && w.renameOk {
      dir.files := (dir.files - {Temp(w.id)})[FileOf(c, url) := dir.files[Temp(w.id)]];
    }
    if w.removeOk {
      dir.files := dir.files - {Temp(w.id)};
    }
  }

  /** Creates the temporary and writes b into it, or a first part of b. */
  method FillTemp(dir: Directory, b: Bytes, w: Weather)
    modifies dir
    ensures dir.files == old(dir.files)[Temp(w.id) := Data(b, w)] && dir.used == old(dir.used) + {w.id}
  {
    dir.files := dir.files[Temp(w.id) := []];
    dir.used := dir.used + {w.id};
    dir.files := dir.files[Temp(w.id) := Data(b, w)];
  }

  // ----------------------------------------------------- one call, spelled out

  /** A call on a URL that is never cached asks the upstream and touches no file. */
  lemma UncachedCall(c: Config, s: State, who: nat, url: Bytes, w: Weather)
    requires who !in s.getters && !c.cacheable(url)
    ensures var s' := Publish(c, Fetch(c, s, who, url, w), who, w);
            && who in s'.getters && s'.getters[who] == Getter(url, Done(w.answer))
            && s'.files == s.files && s'.used == s.used
            && s'.replies == s.replies + if w.answer.Some? then {Reply(who, url, w.answer.value)} else {}
  {
    FetchReplies(c, s, who, url, w);
    FetchEffect(c, s, who, url, w);
    DoneStays(c, Fetch(c, s, who, url, w), who, w);
  }

  /** A cached, readable, non-empty certificate is returned as it is: the upstream is
      not asked, and nothing is written. */
  lemma CachedCall(c: Config, s: State, who: nat, url: Bytes, w: Weather)
    requires who !in s.getters && c.cacheable(url) && w.readOk
    requires Cert(c.h.sha256(url)) in s.files && s.files[Cert(c.h.sha256(url))] != []
    ensures var s' := Publish(c, Fetch(c, s, who, url, w), who, w);
            && who in s'.getters && s'.getters[who] == Getter(url, Done(Some(s.files[Cert(c.h.sha256(url))])))
            && s'.files == s.files && s'.used == s.used && s'.replies == s.replies
  {
    FetchReplies(c, s, who, url, w);
    FetchEffect(c, s, who, url, w);
    DoneStays(c, Fetch(c, s, who, url, w), who, w);
  }

  ghost predicate Misses(c: Config, s: State, url: Bytes, w: Weather) {
    && c.cacheable(url)
    && !(w.readOk && Cert(c.h.sha256(url)) in s.files && s.files[Cert(c.h.sha256(url))] != [])
  }

  /** Anything else is a miss: the answer is returned whether or not it could be
      written. It is published under its URL's hash exactly when every step of writing
      it worked, no other file changes, and no temporary outlives a rename or removal. */
  lemma MissedCall(c: Config, s: State, who: nat, url: Bytes, w: Weather, body: Bytes, name: FileName)
    requires who !in s.getters && w.id !in s.used && Temp(w.id) !in s.files
    requires Misses(c, s, url, w) && w.answer == Some(body)
    ensures var s' := Publish(c, Fetch(c, s, who, url, w), who, w);
            var published := w.createOk && w.writeOk && w.closeOk && w.renameOk;
            && who in s'.getters && s'.getters[who] == Getter(url, Done(Some(body)))
            && s'.replies == s.replies + {Reply(who, url, body)}
            && (if name == Cert(c.h.sha256(url)) && published then name in s'.files && s'.files[name] == body
                else if name == Temp(w.id) then name in s'.files ==> w.createOk && !published && !w.removeOk
                else (name in s'.files <==> name in s.files) && (name in s.files ==> s'.files[name] == s.files[name]))
  {
    FetchReplies(c, s, who, url, w);
    FetchEffect(c, s, who, url, w);
    PublishEffect(c, Fetch(c, s, who, url, w), who, w);
    FilesAfterExact(c, s.files, url, body, w, name);
  }

  lemma FailedCall(c: Config, s: State, who: nat, url: Bytes, w: Weather)
    requires who !in s.getters && Misses(c, s, url, w) && w.answer == None
    ensures var s' := Publish(c, Fetch(c, s, who, url, w), who, w);
            && who in s'.getters && s'.getters[who] == Getter(url, Done(None))
            && s'.files == s.files && s'.used == s.used && s'.replies == s.replies
  {
    FetchReplies(c, s, who, url, w);
    FetchEffect(c, s, who, url, w);
    DoneStays(c, Fetch(c, s, who, url, w), who, w);
  }

  lemma FilesAfterExact(c: Config, files: map<FileName, Bytes>, url: Bytes, body: Bytes, w: Weather, name: FileName)
    requires Temp(w.id) !in files
    ensures var after := FilesAfter(c, files, url, body, w);
            var published := w.createOk && w.writeOk && w.closeOk && w.renameOk;
            if name == Cert(c.h.sha256(url)) && published then name in after && after[name] == body
            else if name == Temp(w.id) then name in after ==> w.createOk && !published && !w.removeOk
            else (name in after <==> name in files) && (name in files ==> after[name] == files[name])
  {
  }

  lemma FetchReplies(c: Config, s: State, who: nat, url: Bytes, w: Weather)
    requires who !in s.getters
    ensures var s' := Fetch(c, s, who, url, w);
            s'.replies == s.replies + if (!c.cacheable(url) || Misses(c, s, url, w)) && w.answer.Some?
                                      then {Reply(who, url, w.answer.value)} else {}
  {
    var s1 := Step(c, s, who, Begin(url));
    assert s1.getters[who] == Getter(url, Start) && s1.files == s.files && s1.replies == s.replies;
    AskReplies(c, s1, who, w);
  }

  lemma AskReplies(c: Config, s: State, who: nat, w: Weather)
    requires who in s.getters && s.getters[who].phase == Start
    ensures var url := s.getters[who].url;
            Step(c, Step(c, s, who, ReadFile(w.readOk)), who, AskUpstream(w.answer)).replies ==
            s.replies + if (!c.cacheable(url) || Misses(c, s, url, w)) && w.answer.Some?
                        then {Reply(who, url, w.answer.value)} else {}
  {
    var s2 := Step(c, s, who, ReadFile(w.readOk));
    assert s2.replies == s.replies && s2.getters[who].url == s.getters[who].url;
  }
}
