/** TCB level selection: the first level each component meets, and the status
    reported for what was matched. */
module TcbLevels {
  import opened Octets

  /** Intel's statuses, most to least favourable; Unlisted is any other spelling. */
  datatype TcbStatus =
    | UpToDate
    | SwHardeningNeeded
    | ConfigurationNeeded
    | ConfigurationAndSwHardeningNeeded
    | OutOfDate
    | OutOfDateConfigurationNeeded
    | Revoked
    | Unlisted(name: Bytes)
  {
    function Rank(): (r: int)
      ensures r >= -1 && (r == -1 <==> Unlisted?)
    {
      match this
      case UpToDate => 0
      case SwHardeningNeeded => 1
      case ConfigurationNeeded => 2
      case ConfigurationAndSwHardeningNeeded => 3
      case OutOfDate => 4
      case OutOfDateConfigurationNeeded => 5
      case Revoked => 6
      case Unlisted(_) => -1
    }
  }

  datatype TcbLevel = TcbLevel(sgx: seq<nat>, tdx: seq<nat>, pceSvn: nat, isvSvn: nat, status: TcbStatus,
                               advisories: seq<Bytes>)
  datatype PckTcb = PckTcb(cpuSvn: seq<nat>, pceSvn: nat)
  datatype ModuleIdentity = ModuleIdentity(id: Bytes, levels: seq<TcbLevel>)
  datatype TcbInfo = TcbInfo(levels: seq<TcbLevel>, modules: seq<ModuleIdentity>)
  datatype TcbError = BadSvnWidth | NoPlatformLevel | NoModuleIdentity | NoModuleLevel | NoQeLevel

  // -------------------------------------------------------------- selection

  /** The first level meeting p; levels are listed from highest to lowest. */
  function FirstLevel(levels: seq<TcbLevel>, p: TcbLevel -> bool): (r: Option<nat>)
    ensures r.Some? ==> r.value < |levels| && p(levels[r.value]) && forall i :: 0 <= i < r.value ==> !p(levels[i])
    ensures r.None? ==> forall i :: 0 <= i < |levels| ==> !p(levels[i])
  {
    if levels == [] then None
    else if p(levels[0]) then Some(0)
    else match FirstLevel(levels[1..], p) case Some(i) => Some(i + 1) case None => None
  }

  predicate MeetsPlatform(l: TcbLevel, tee: seq<nat>, pck: PckTcb)
    requires |tee| == 16
  {
    && |l.sgx| == |pck.cpuSvn| && |l.tdx| == |tee|
    && (forall i :: 0 <= i < |l.sgx| ==> l.sgx[i] <= pck.cpuSvn[i])
    && l.pceSvn <= pck.pceSvn
    && forall i :: (if tee[1] > 0 then 2 else 0) <= i < 16 ==> l.tdx[i] <= tee[i]
  }

  function PlatformTest(tee: seq<nat>, pck: PckTcb): TcbLevel -> bool
    requires |tee| == 16
  {
    (l: TcbLevel) => MeetsPlatform(l, tee, pck)
  }

  function IsvTest(isvSvn: nat): TcbLevel -> bool {
    (l: TcbLevel) => l.isvSvn <= isvSvn
  }

  function PlatformLevel(levels: seq<TcbLevel>, tee: seq<nat>, pck: PckTcb): Option<nat>
    requires |tee| == 16
  {
    FirstLevel(levels, PlatformTest(tee, pck))
  }

  function ModuleId(major: nat): Bytes
    requires major < 256
  {
    [0x54, 0x44, 0x58, 0x5F] + HexEncode([major])   // "TDX_" and two hex digits
  }

  /** m is the first identity called id. */
  predicate FirstNamed(modules: seq<ModuleIdentity>, id: Bytes, m: nat) {
    m < |modules| && modules[m].id == id && forall k :: 0 <= k < m ==> modules[k].id != id
  }

  function FindModule(modules: seq<ModuleIdentity>, id: Bytes): (r: Option<nat>)
    ensures r.Some? ==> FirstNamed(modules, id, r.value)
    ensures r.None? ==> forall k :: 0 <= k < |modules| ==> modules[k].id != id
  {
    if modules == [] then None
    else if modules[0].id == id then Some(0)
    else match FindModule(modules[1..], id) case Some(i) => Some(i + 1) case None => None
  }

  function IsvLevel(levels: seq<TcbLevel>, isvSvn: nat): Option<nat> {
    FirstLevel(levels, IsvTest(isvSvn))
  }

  /** Where each component's level stands in its list. */
  datatype Matched = Matched(platform: nat, mod: Option<(nat, nat)>, qe: nat)

  function MatchModule(modules: seq<ModuleIdentity>, tee: seq<nat>): Result<Option<(nat, nat)>, TcbError>
    requires |tee| == 16 && tee[1] < 256
  {
    if tee[1] == 0 then Ok(None)
    else match FindModule(modules, ModuleId(tee[1]))
      case None => Err(NoModuleIdentity)
      case Some(m) =>
        match IsvLevel(modules[m].levels, tee[0])
        case None => Err(NoModuleLevel)
        case Some(l) => Ok(Some((m, l)))
  }

  /** m names levels that are there. */
  predicate InRange(info: TcbInfo, qe: seq<TcbLevel>, m: Matched) {
    && m.platform < |info.levels| && m.qe < |qe|
    && (m.mod.Some? ==> m.mod.value.0 < |info.modules| && m.mod.value.1 < |info.modules[m.mod.value.0].levels|)
  }

  function MatchTcbLevels(info: TcbInfo, qe: seq<TcbLevel>, tee: Bytes, pck: PckTcb, qeIsvSvn: nat)
    : (r: Result<Matched, TcbError>)
    ensures r.Ok? ==> InRange(info, qe, r.value)
  {
    if |tee| != 16 then Err(BadSvnWidth)
    else match PlatformLevel(info.levels, tee, pck)
      case None => Err(NoPlatformLevel)
      case Some(p) =>
        match MatchModule(info.modules, tee)
        case Err(e) => Err(e)
        case Ok(m) =>
          match IsvLevel(qe, qeIsvSvn)
          case None => Err(NoQeLevel)
          case Some(q) => Ok(Matched(p, m, q))
  }

  // ------------------------------------------------------------ monotonicity

  ghost predicate AtLeast(hi: seq<nat>, lo: seq<nat>) {
    |hi| == |lo| && forall i :: 0 <= i < |lo| ==> lo[i] <= hi[i]
  }

  /** A weaker condition is met no later. */
  lemma FirstLevelMonotone(levels: seq<TcbLevel>, p: TcbLevel -> bool, q: TcbLevel -> bool)
    requires FirstLevel(levels, p).Some? && forall l :: p(l) ==> q(l)
    ensures FirstLevel(levels, q).Some? && FirstLevel(levels, q).value <= FirstLevel(levels, p).value
  {
    var i := FirstLevel(levels, p).value;
    assert q(levels[i]);
  }

  /** Raising any SVN, the one that moves SVNs 0 and 1 to the module included,
      never moves the matched platform level later. */
  lemma PlatformNeverLater(levels: seq<TcbLevel>, tee: seq<nat>, tee': seq<nat>, pck: PckTcb, pck': PckTcb)
    requires |tee| == 16 && AtLeast(tee', tee) && AtLeast(pck'.cpuSvn, pck.cpuSvn) && pck.pceSvn <= pck'.pceSvn
    requires PlatformLevel(levels, tee, pck).Some?
    ensures PlatformLevel(levels, tee', pck').Some?
    ensures PlatformLevel(levels, tee', pck').value <= PlatformLevel(levels, tee, pck).value
  {
    FirstLevelMonotone(levels, PlatformTest(tee, pck), PlatformTest(tee', pck'));
  }

  /** With a module identity named, SVNs 0 and 1 are the module's: they do not
      decide the platform level, neither the quote's nor the level's own. */
  lemma ModuleSvnsIgnored(levels: seq<TcbLevel>, tee: seq<nat>, tee': seq<nat>, pck: PckTcb)
    requires |tee| == |tee'| == 16 && tee[1] > 0 && tee'[1] > 0 && tee[2..] == tee'[2..]
    ensures PlatformLevel(levels, tee, pck) == PlatformLevel(levels, tee', pck)
  {
    forall l ensures MeetsPlatform(l, tee, pck) <==> MeetsPlatform(l, tee', pck) {
      assert forall i :: 2 <= i < 16 ==> tee[i] == tee[2..][i - 2] && tee'[i] == tee'[2..][i - 2];
    }
    if PlatformLevel(levels, tee, pck).Some? {
      FirstLevelMonotone(levels, PlatformTest(tee, pck), PlatformTest(tee', pck));
    }
    if PlatformLevel(levels, tee', pck).Some? {
      FirstLevelMonotone(levels, PlatformTest(tee', pck), PlatformTest(tee, pck));
    }
  }

  /** While the module's major version stays, no component moves later and a match
      is never lost. */
  lemma MatchNeverLater(info: TcbInfo, qe: seq<TcbLevel>, tee: Bytes, tee': Bytes, pck: PckTcb, pck': PckTcb, isv: nat,
                        isv': nat)
    requires AtLeast(tee', tee) && AtLeast(pck'.cpuSvn, pck.cpuSvn) && pck.pceSvn <= pck'.pceSvn && isv <= isv'
    requires MatchTcbLevels(info, qe, tee, pck, isv).Ok? && tee'[1] == tee[1]
    ensures var m := MatchTcbLevels(info, qe, tee, pck, isv).value;
            var r' := MatchTcbLevels(info, qe, tee', pck', isv');
            && r'.Ok? && r'.value.platform <= m.platform && r'.value.qe <= m.qe
            && (m.mod.None? <==> r'.value.mod.None?)
            && (m.mod.Some? ==> r'.value.mod.value.0 == m.mod.value.0 && r'.value.mod.value.1 <= m.mod.value.1)
  {
    PlatformNeverLater(info.levels, tee, tee', pck, pck');
    FirstLevelMonotone(qe, IsvTest(isv), IsvTest(isv'));
    if tee[1] > 0 {
      var ls := info.modules[FindModule(info.modules, ModuleId(tee[1])).value].levels;
      FirstLevelMonotone(ls, IsvTest(tee[0]), IsvTest(tee'[0]));
    }
  }

  /** tee names a module, and the first identity of that name, if there is one, has
      no level low enough for it. */
  ghost predicate ModuleUncovered(modules: seq<ModuleIdentity>, tee: Bytes)
    requires |tee| == 16
  {
    && tee[1] > 0
    && forall m: nat :: FirstNamed(modules, ModuleId(tee[1]), m) ==>
         forall i :: 0 <= i < |modules[m].levels| ==> tee[0] < modules[m].levels[i].isvSvn
  }

  /** Raising SVNs loses a match exactly when the module then named has no level to
      meet: a raised major version names another module. */
  lemma MajorVersionRaise(info: TcbInfo, qe: seq<TcbLevel>, tee: Bytes, tee': Bytes, pck: PckTcb, pck': PckTcb,
                          isv: nat, isv': nat)
    requires AtLeast(tee', tee) && AtLeast(pck'.cpuSvn, pck.cpuSvn) && pck.pceSvn <= pck'.pceSvn && isv <= isv'
    requires MatchTcbLevels(info, qe, tee, pck, isv).Ok?
    ensures MatchTcbLevels(info, qe, tee', pck', isv').Err? <==> ModuleUncovered(info.modules, tee')
  {
    PlatformNeverLater(info.levels, tee, tee', pck, pck');
    FirstLevelMonotone(qe, IsvTest(isv), IsvTest(isv'));
    MatchModuleErr(info.modules, tee');
  }

  lemma MatchModuleErr(modules: seq<ModuleIdentity>, tee: Bytes)
    requires |tee| == 16
    ensures MatchModule(modules, tee).Err? <==> ModuleUncovered(modules, tee)
  {
    if tee[1] > 0 {
      var id := ModuleId(tee[1]);
      match FindModule(modules, id)
      case None =>
      case Some(m) =>
        assert forall k: nat :: FirstNamed(modules, id, k) ==> k == m;
        if IsvLevel(modules[m].levels, tee[0]).None? {
          forall i | 0 <= i < |modules[m].levels| ensures tee[0] < modules[m].levels[i].isvSvn {
            assert !IsvTest(tee[0])(modules[m].levels[i]);
          }
        }
    }
  }

  /** It happens: collateral without identities, and TEE_TCB_SVN[1] raised to 1. */
  lemma RaiseLosesMatch()
    ensures var level := TcbLevel([], Zeros(16), 0, 0, UpToDate, []);
            var info := TcbInfo([level], []);
            && AtLeast([0, 1] + Zeros(14), Zeros(16))
            && MatchTcbLevels(info, [level], Zeros(16), PckTcb([], 0), 0).Ok?
            && MatchTcbLevels(info, [level], [0, 1] + Zeros(14), PckTcb([], 0), 0) == Err(NoModuleIdentity)
  {
    var level := TcbLevel([], Zeros(16), 0, 0, UpToDate, []);
    assert PlatformTest(Zeros(16), PckTcb([], 0))([level][0]);
    assert PlatformTest([0, 1] + Zeros(14), PckTcb([], 0))([level][0]);
    assert IsvTest(0)([level][0]);
  }

  // --------------------------------------------------------------- verdicts

  /** The levels a match selects, in the order they are judged. */
  function LevelsOf(info: TcbInfo, qe: seq<TcbLevel>, m: Matched): (r: seq<TcbLevel>)
    requires InRange(info, qe, m)
    ensures r != []
  {
    [info.levels[m.platform]]
    + (if m.mod.Some? then [info.modules[m.mod.value.0].levels[m.mod.value.1]] else [])
    + [qe[m.qe]]
  }

  function MatchedLevels(info: TcbInfo, qe: seq<TcbLevel>, tee: Bytes, pck: PckTcb, isv: nat)
    : (r: Result<seq<TcbLevel>, TcbError>)
    ensures r.Ok? ==> r.value != []
  {
    match MatchTcbLevels(info, qe, tee, pck, isv)
    case Err(e) => Err(e)
    case Ok(m) => Ok(LevelsOf(info, qe, m))
  }

  /** checkAcceptedTCBStatuses, for a caller that asks for evaluation. */
  predicate AcceptableStatuses(accepted: seq<TcbStatus>) {
    forall s :: s in accepted ==> !s.Unlisted? && s != Revoked
  }

  datatype Verdict = Verdict(status: Option<TcbStatus>, advisories: seq<Bytes>)
  datatype EvaluationError = NoMatch(why: TcbError) | NotAccepted(status: TcbStatus)

  /** Every advisory of every level, as listed. */
  function Mentioned(levels: seq<TcbLevel>): seq<Bytes> {
    if levels == [] then [] else Mentioned(levels[..|levels| - 1]) + levels[|levels| - 1].advisories
  }

  /** status is the worst-ranked among levels; none when none is ranked. */
  ghost predicate IsWorst(levels: seq<TcbLevel>, status: Option<TcbStatus>) {
    match status
    case None => forall i :: 0 <= i < |levels| ==> levels[i].status.Unlisted?
    case Some(s) =>
      && !s.Unlisted?
      && (exists i :: 0 <= i < |levels| && levels[i].status == s)
      && forall i :: 0 <= i < |levels| ==> levels[i].status.Rank() <= s.Rank()
  }

  ghost predicate AllAccepted(levels: seq<TcbLevel>, accepted: seq<TcbStatus>) {
    forall i :: 0 <= i < |levels| ==> levels[i].status in accepted
  }

  /** The first status among levels that is not accepted. */
  ghost predicate FirstRefused(levels: seq<TcbLevel>, accepted: seq<TcbStatus>, status: TcbStatus) {
    exists k :: 0 <= k < |levels| && levels[k].status == status && status !in accepted
        && AllAccepted(levels[..k], accepted)
  }

  ghost predicate IsVerdict(levels: seq<TcbLevel>, v: Verdict) {
    IsWorst(levels, v.status) && FirstMentions(v.advisories, Mentioned(levels))
  }

  method MergeAdvisories(seen: seq<Bytes>, more: seq<Bytes>, ghost all: seq<Bytes>) returns (r: seq<Bytes>)
    requires FirstMentions(seen, all)
    ensures FirstMentions(r, all + more)
  {
    r := seen;
    assert all + more[..0] == all;
    for i := 0 to |more|
      invariant FirstMentions(r, all + more[..i])
    {
      assert all + more[..i + 1] == all + more[..i] + [more[i]];
      MentionSnoc(r, all + more[..i], more[i]);
      if more[i] !in r { r := r + [more[i]]; }
    }
    assert more[..|more|] == more;
  }

  /** The level loop of evaluateTCBStatus. */
  method EvaluateLevels(levels: seq<TcbLevel>, accepted: seq<TcbStatus>) returns (r: Result<Verdict, TcbStatus>)
    ensures r.Ok? <==> AllAccepted(levels, accepted)
    ensures r.Ok? ==> IsVerdict(levels, r.value)
    ensures r.Err? ==> FirstRefused(levels, accepted, r.error)
  {
    var worst: int := -1;
    var v := Verdict(None, []);
    for k := 0 to |levels|
      invariant AllAccepted(levels[..k], accepted) && IsVerdict(levels[..k], v)
      invariant worst == RankOf(v.status)
    {
      var l := levels[k];
      if l.status !in accepted {
        RefusedAt(levels, k, accepted);
        return Err(l.status);
      }
      assert levels[..k + 1] == levels[..k] + [l];
      v := Judge(levels[..k], v, worst, l);
      worst := RankOf(v.status);
    }
    assert levels[..|levels|] == levels;
    return Ok(v);
  }

  function RankOf(status: Option<TcbStatus>): int {
    if status.Some? then status.value.Rank() else -1
  }

  lemma RefusedAt(levels: seq<TcbLevel>, k: nat, accepted: seq<TcbStatus>)
    requires k < |levels| && AllAccepted(levels[..k], accepted) && levels[k].status !in accepted
    ensures !AllAccepted(levels, accepted) && FirstRefused(levels, accepted, levels[k].status)
  {
  }

  /** What one more accepted level changes. */
  method Judge(ghost levels: seq<TcbLevel>, v: Verdict, worst: int, l: TcbLevel) returns (r: Verdict)
    requires IsVerdict(levels, v) && worst == RankOf(v.status)
    ensures IsVerdict(levels + [l], r)
  {
    WorstSnoc(levels, v.status, l);
    assert (levels + [l])[..|levels|] == levels;
    var advisories := MergeAdvisories(v.advisories, l.advisories, Mentioned(levels));
    return Verdict(if l.status.Rank() > worst then Some(l.status) else v.status, advisories);
  }

  lemma WorstSnoc(levels: seq<TcbLevel>, status: Option<TcbStatus>, l: TcbLevel)
    requires IsWorst(levels, status)
    ensures IsWorst(levels + [l], if l.status.Rank() > RankOf(status) then Some(l.status) else status)
  {
    var all := levels + [l];
    assert all[|levels|] == l;
    if status.Some? {
      var i :| 0 <= i < |levels| && levels[i].status == status.value;
      assert all[i].status == status.value;
    }
  }

  /** The quote's matched levels are all accepted. */
  ghost predicate Accepts(info: TcbInfo, qe: seq<TcbLevel>, tee: Bytes, pck: PckTcb, isv: nat,
                          accepted: seq<TcbStatus>) {
    && MatchedLevels(info, qe, tee, pck, isv).Ok?
    && AllAccepted(MatchedLevels(info, qe, tee, pck, isv).value, accepted)
  }

  /** evaluateTCBStatus, from the parsed collateral on: match, then judge. */
  method EvaluateTcbStatus(info: TcbInfo, qe: seq<TcbLevel>, tee: Bytes, pck: PckTcb, isv: nat,
                           accepted: seq<TcbStatus>)
    returns (r: Result<Verdict, EvaluationError>)
    ensures r.Ok? <==> Accepts(info, qe, tee, pck, isv, accepted)
    ensures r.Ok? ==> IsVerdict(MatchedLevels(info, qe, tee, pck, isv).value, r.value)
    ensures r.Err? ==> match r.error
                       case NoMatch(why) => MatchedLevels(info, qe, tee, pck, isv) == Err(why)
                       case NotAccepted(s) => MatchedLevels(info, qe, tee, pck, isv).Ok?
                                              && FirstRefused(MatchedLevels(info, qe, tee, pck, isv).value, accepted, s)
  {
    var levels := MatchedLevels(info, qe, tee, pck, isv);
    if levels.Err? {
      return Err(NoMatch(levels.error));
    }
    var v := EvaluateLevels(levels.value, accepted);
    return if v.Ok? then Ok(v.value) else Err(NotAccepted(v.error));
  }

  /** Levels have one verdict: the worst ranked status, and the advisories once each. */
  lemma VerdictUnique(levels: seq<TcbLevel>, v: Verdict, w: Verdict)
    requires IsVerdict(levels, v) && IsVerdict(levels, w)
    ensures v == w
  {
    MentionsUnique(v.advisories, w.advisories, Mentioned(levels));
    if v.status.Some? && w.status.Some? {
      var i :| 0 <= i < |levels| && levels[i].status == v.status.value;
      var j :| 0 <= j < |levels| && levels[j].status == w.status.value;
      RankInjective(v.status.value, w.status.value);
    }
  }

  /** Under an acceptable accepted set, what an evaluation reports is the one worst
      status among the matched levels, is itself accepted, and is never Revoked. */
  lemma ReportedStatus(info: TcbInfo, qe: seq<TcbLevel>, tee: Bytes, pck: PckTcb, isv: nat, accepted: seq<TcbStatus>,
                       v: Verdict)
    requires AcceptableStatuses(accepted) && Accepts(info, qe, tee, pck, isv, accepted)
    requires IsVerdict(MatchedLevels(info, qe, tee, pck, isv).value, v)
    ensures v.status.Some? && v.status.value in accepted && v.status.value != Revoked
    ensures forall other :: IsWorst(MatchedLevels(info, qe, tee, pck, isv).value, other) ==> other == v.status
  {
    var levels := MatchedLevels(info, qe, tee, pck, isv).value;
    assert levels[0].status in accepted;
    forall other | IsWorst(levels, other) ensures other == v.status {
      var i :| 0 <= i < |levels| && levels[i].status == v.status.value;
      var j :| 0 <= j < |levels| && levels[j].status == other.value;
      RankInjective(v.status.value, other.value);
    }
  }

  lemma RankInjective(a: TcbStatus, b: TcbStatus)
    requires !a.Unlisted? && !b.Unlisted?
    ensures a.Rank() == b.Rank() <==> a == b
  {
  }

  // ------------------------------------------------- what changes a verdict

  /** Collateral whose levels all match a quote of zeros, the platform's first level
      asking for SVN 1. */
  function TwoLevels(best: TcbStatus, other: TcbStatus): TcbInfo {
    TcbInfo([TcbLevel([], [1] + Zeros(15), 0, 0, best, []), TcbLevel([], Zeros(16), 0, 0, other, [])], [])
  }

  function QeLevels(status: TcbStatus): seq<TcbLevel> {
    [TcbLevel([], [], 0, 0, status, [])]
  }

  lemma TwoLevelsMatch(best: TcbStatus, other: TcbStatus)
    ensures MatchedLevels(TwoLevels(best, other), QeLevels(other), Zeros(16), PckTcb([], 0), 0)
            == Ok([TwoLevels(best, other).levels[1], QeLevels(other)[0]])
    ensures MatchedLevels(TwoLevels(best, other), QeLevels(other), [1] + Zeros(15), PckTcb([], 0), 0)
            == Ok([TwoLevels(best, other).levels[0], QeLevels(other)[0]])
  {
    var levels, pck := TwoLevels(best, other).levels, PckTcb([], 0);
    assert !PlatformTest(Zeros(16), pck)(levels[0]) by { assert levels[0].tdx[0] > Zeros(16)[0]; }
    assert PlatformTest(Zeros(16), pck)(levels[1]);
    assert PlatformTest([1] + Zeros(15), pck)(levels[0]);
    assert PlatformLevel(levels, Zeros(16), pck) == Some(1) && PlatformLevel(levels, [1] + Zeros(15), pck) == Some(0);
    assert IsvTest(0)(QeLevels(other)[0]);
    assert IsvLevel(QeLevels(other), 0) == Some(0);
    assert MatchTcbLevels(TwoLevels(best, other), QeLevels(other), Zeros(16), pck, 0) == Ok(Matched(1, None, 0));
    assert MatchTcbLevels(TwoLevels(best, other), QeLevels(other), [1] + Zeros(15), pck, 0) == Ok(Matched(0, None, 0));
    assert LevelsOf(TwoLevels(best, other), QeLevels(other), Matched(1, None, 0)) == [levels[1], QeLevels(other)[0]];
    assert LevelsOf(TwoLevels(best, other), QeLevels(other), Matched(0, None, 0)) == [levels[0], QeLevels(other)[0]];
  }

  /** One accepted set takes everything another does, whatever the collateral and
      the quote, exactly when it holds all of that other's statuses. */
  lemma AcceptingMore(accepted: seq<TcbStatus>, more: seq<TcbStatus>)
    ensures (forall info, qe, tee, pck, isv ::
               Accepts(info, qe, tee, pck, isv, accepted) ==> Accepts(info, qe, tee, pck, isv, more))
            <==> forall s :: s in accepted ==> s in more
  {
    if s :| s in accepted && s !in more {
      TwoLevelsMatch(s, s);
      var levels := MatchedLevels(TwoLevels(s, s), QeLevels(s), Zeros(16), PckTcb([], 0), 0).value;
      assert levels[0].status == s;
      assert Accepts(TwoLevels(s, s), QeLevels(s), Zeros(16), PckTcb([], 0), 0, accepted);
      assert !Accepts(TwoLevels(s, s), QeLevels(s), Zeros(16), PckTcb([], 0), 0, more);
    }
  }

  /** Levels are ranked, and listed from the best status to the worst. */
  ghost predicate BestFirst(levels: seq<TcbLevel>) {
    forall i, j :: 0 <= i <= j < |levels| ==> 0 <= levels[i].status.Rank() <= levels[j].status.Rank()
  }

  ghost predicate CollateralBestFirst(info: TcbInfo, qe: seq<TcbLevel>) {
    && BestFirst(info.levels) && BestFirst(qe)
    && forall m :: 0 <= m < |info.modules| ==> BestFirst(info.modules[m].levels)
  }

  /** Whoever accepts a status accepts every better one. */
  ghost predicate TakesBetter(accepted: seq<TcbStatus>) {
    forall s, t: TcbStatus :: s in accepted && 0 <= t.Rank() <= s.Rank() ==> t in accepted
  }

  /** tee', pck' and isv' are raised from tee, pck and isv, on the same module. */
  ghost predicate Raised(tee: Bytes, pck: PckTcb, isv: nat, tee': Bytes, pck': PckTcb, isv': nat) {
    && AtLeast(tee', tee) && (|tee| == 16 ==> tee'[1] == tee[1])
    && AtLeast(pck'.cpuSvn, pck.cpuSvn) && pck.pceSvn <= pck'.pceSvn && isv <= isv'
  }

  /** The same levels, or others that rank no worse, one by one. */
  ghost predicate NoWorse(better: seq<TcbLevel>, levels: seq<TcbLevel>) {
    |better| == |levels| && forall i :: 0 <= i < |levels| ==> 0 <= better[i].status.Rank() <= levels[i].status.Rank()
  }

  /** Matches that are no later in lists ordered best first. */
  lemma EarlierLevels(info: TcbInfo, qe: seq<TcbLevel>, m: Matched, m': Matched)
    requires InRange(info, qe, m) && InRange(info, qe, m') && CollateralBestFirst(info, qe)
    requires m'.platform <= m.platform && m'.qe <= m.qe && (m.mod.None? <==> m'.mod.None?)
    requires m.mod.Some? ==> m'.mod.value.0 == m.mod.value.0 && m'.mod.value.1 <= m.mod.value.1
    ensures NoWorse(LevelsOf(info, qe, m'), LevelsOf(info, qe, m))
  {
  }

  /** Level by level, a raised quote matches statuses that rank no worse. */
  lemma RaisedLevels(info: TcbInfo, qe: seq<TcbLevel>, tee: Bytes, tee': Bytes, pck: PckTcb, pck': PckTcb, isv: nat,
                     isv': nat)
    requires Raised(tee, pck, isv, tee', pck', isv') && CollateralBestFirst(info, qe)
    requires MatchedLevels(info, qe, tee, pck, isv).Ok?
    ensures MatchedLevels(info, qe, tee', pck', isv').Ok?
    ensures NoWorse(MatchedLevels(info, qe, tee', pck', isv').value, MatchedLevels(info, qe, tee, pck, isv).value)
  {
    MatchNeverLater(info, qe, tee, tee', pck, pck', isv, isv');
    EarlierLevels(info, qe, MatchTcbLevels(info, qe, tee, pck, isv).value,
        MatchTcbLevels(info, qe, tee', pck', isv').value);
  }

  /** On collateral listed best first, raising SVNs of one module never turns
      acceptance into refusal for a caller who takes every better status, and never
      worsens what is reported. */
  lemma RaisingNeverRefuses(info: TcbInfo, qe: seq<TcbLevel>, tee: Bytes, tee': Bytes, pck: PckTcb, pck': PckTcb,
                            isv: nat, isv': nat, accepted: seq<TcbStatus>)
    requires Raised(tee, pck, isv, tee', pck', isv') && CollateralBestFirst(info, qe) && TakesBetter(accepted)
    requires Accepts(info, qe, tee, pck, isv, accepted)
    ensures Accepts(info, qe, tee', pck', isv', accepted)
    ensures var levels := MatchedLevels(info, qe, tee, pck, isv).value;
            var levels' := MatchedLevels(info, qe, tee', pck', isv').value;
            forall s, s' :: (IsWorst(levels, Some(s)) && IsWorst(levels', Some(s'))) ==> s'.Rank() <= s.Rank()
  {
    RaisedLevels(info, qe, tee, tee', pck, pck', isv, isv');
    var levels, levels' := MatchedLevels(info, qe, tee, pck, isv).value,
        MatchedLevels(info, qe, tee', pck', isv').value;
    forall i | 0 <= i < |levels'| ensures levels'[i].status in accepted {
      assert levels[i].status in accepted;
    }
    forall s, s' | IsWorst(levels, Some(s)) && IsWorst(levels', Some(s')) ensures s'.Rank() <= s.Rank() {
      var i :| 0 <= i < |levels'| && levels'[i].status == s';
      assert levels[i].status.Rank() <= s.Rank();
    }
  }

  ghost predicate NeverRefusesRaised(accepted: seq<TcbStatus>) {
    forall info, qe, tee, pck, isv, tee', pck', isv' ::
      Raised(tee, pck, isv, tee', pck', isv') && CollateralBestFirst(info, qe)
          && Accepts(info, qe, tee, pck, isv, accepted)
      ==> Accepts(info, qe, tee', pck', isv', accepted)
  }

  /** And exactly such callers are safe from it. */
  lemma RaisingExact(accepted: seq<TcbStatus>)
    ensures NeverRefusesRaised(accepted) <==> TakesBetter(accepted)
  {
    if TakesBetter(accepted) {
      forall info, qe, tee, pck, isv, tee', pck', isv' |
        Raised(tee, pck, isv, tee', pck', isv') && CollateralBestFirst(info, qe)
            && Accepts(info, qe, tee, pck, isv, accepted)
        ensures Accepts(info, qe, tee', pck', isv', accepted)
      {
        RaisingNeverRefuses(info, qe, tee, tee', pck, pck', isv, isv', accepted);
      }
    } else {
      var s, t: TcbStatus :| s in accepted && 0 <= t.Rank() <= s.Rank() && t !in accepted;
      RaisedIntoRefusal(accepted, s, t);
    }
  }

  lemma RaisedIntoRefusal(accepted: seq<TcbStatus>, s: TcbStatus, t: TcbStatus)
    requires s in accepted && t !in accepted && 0 <= t.Rank() <= s.Rank()
    ensures !NeverRefusesRaised(accepted)
  {
    TwoLevelsVerdicts(accepted, s, t);
    RefusedRaised(TwoLevels(t, s), QeLevels(s), Zeros(16), [1] + Zeros(15), PckTcb([], 0), 0, accepted);
  }

  lemma RefusedRaised(info: TcbInfo, qe: seq<TcbLevel>, tee: Bytes, tee': Bytes, pck: PckTcb, isv: nat,
                      accepted: seq<TcbStatus>)
    requires Raised(tee, pck, isv, tee', pck, isv) && CollateralBestFirst(info, qe)
    requires Accepts(info, qe, tee, pck, isv, accepted) && !Accepts(info, qe, tee', pck, isv, accepted)
    ensures !NeverRefusesRaised(accepted)
  {
  }

  lemma TwoLevelsVerdicts(accepted: seq<TcbStatus>, s: TcbStatus, t: TcbStatus)
    requires s in accepted && t !in accepted
    ensures Accepts(TwoLevels(t, s), QeLevels(s), Zeros(16), PckTcb([], 0), 0, accepted)
    ensures !Accepts(TwoLevels(t, s), QeLevels(s), [1] + Zeros(15), PckTcb([], 0), 0, accepted)
  {
    TwoLevelsMatch(t, s);
    assert MatchedLevels(TwoLevels(t, s), QeLevels(s), [1] + Zeros(15), PckTcb([], 0), 0).value[0].status == t;
  }

  // --------------------------------------------- evaluation, on the collateral

  /** The statuses in Intel's order, as tcbStatusOrder lists them. */
  const STATUS_ORDER: seq<TcbStatus> :=
    [UpToDate, SwHardeningNeeded, ConfigurationNeeded, ConfigurationAndSwHardeningNeeded, OutOfDate,
     OutOfDateConfigurationNeeded, Revoked]

  lemma RankExact(s: TcbStatus)
    ensures if s in STATUS_ORDER then 0 <= s.Rank() < 7 && STATUS_ORDER[s.Rank()] == s
            else s.Unlisted? && s.Rank() == -1
  {
    var order := STATUS_ORDER;
    assert order[0] == UpToDate && order[1] == SwHardeningNeeded && order[2] == ConfigurationNeeded
           && order[3] == ConfigurationAndSwHardeningNeeded && order[4] == OutOfDate
           && order[5] == OutOfDateConfigurationNeeded && order[6] == Revoked;
  }

  lemma ModuleIdSpelled(major: nat)
    requires major < 256
    ensures ModuleId(major) == Ascii("TDX_") + HexEncode([major])
  {
    assert [0x54, 0x44, 0x58, 0x5F] == Ascii("TDX_");
  }

  /** A platform level the quote and the certificate meet: every SVN is at least the
      level's, SVNs 0 and 1 only when no module identity is named. */
  ghost predicate MeetsLevel(l: TcbLevel, tee: Bytes, pck: PckTcb)
    requires |tee| == 16
  {
    && |l.sgx| == |pck.cpuSvn| && |l.tdx| == 16
    && (forall i :: 0 <= i < |pck.cpuSvn| ==> pck.cpuSvn[i] >= l.sgx[i])
    && pck.pceSvn >= l.pceSvn
    && (forall i :: 2 <= i < 16 ==> tee[i] >= l.tdx[i])
    && (tee[1] == 0 ==> tee[0] >= l.tdx[0] && tee[1] >= l.tdx[1])
  }

  lemma MeetsExact(l: TcbLevel, tee: Bytes, pck: PckTcb)
    requires |tee| == 16
    ensures MeetsPlatform(l, tee, pck) <==> MeetsLevel(l, tee, pck)
  {
  }

  ghost predicate FirstMet(levels: seq<TcbLevel>, tee: Bytes, pck: PckTcb, p: int)
    requires |tee| == 16
  {
    0 <= p < |levels| && MeetsLevel(levels[p], tee, pck) && forall i :: 0 <= i < p ==> !MeetsLevel(levels[i], tee, pck)
  }

  ghost predicate FirstIsv(levels: seq<TcbLevel>, svn: nat, l: int) {
    0 <= l < |levels| && levels[l].isvSvn <= svn && forall i :: 0 <= i < l ==> levels[i].isvSvn > svn
  }

  /** The level each component stands at: the platform's, the QE's, and, when
      TEE_TCB_SVN[1] is not zero, that of the first module identity it names. */
  ghost predicate StandsAt(info: TcbInfo, qe: seq<TcbLevel>, tee: Bytes, pck: PckTcb, isv: nat, m: Matched) {
    && |tee| == 16
    && FirstMet(info.levels, tee, pck, m.platform)
    && FirstIsv(qe, isv, m.qe)
    && (m.mod.Some? <==> tee[1] > 0)
    && (m.mod.Some? ==>
          && FirstNamed(info.modules, Ascii("TDX_") + HexEncode([tee[1]]), m.mod.value.0)
          && FirstIsv(info.modules[m.mod.value.0].levels, tee[0], m.mod.value.1))
  }

  lemma PlatformLevelExact(levels: seq<TcbLevel>, tee: Bytes, pck: PckTcb, p: nat)
    requires |tee| == 16
    ensures PlatformLevel(levels, tee, pck) == Some(p) <==> FirstMet(levels, tee, pck, p)
  {
    forall l ensures PlatformTest(tee, pck)(l) <==> MeetsLevel(l, tee, pck) {
      MeetsExact(l, tee, pck);
    }
  }

  lemma IsvLevelExact(levels: seq<TcbLevel>, svn: nat, l: nat)
    ensures IsvLevel(levels, svn) == Some(l) <==> FirstIsv(levels, svn, l)
  {
    forall x ensures IsvTest(svn)(x) <==> x.isvSvn <= svn {
    }
  }

  lemma ModuleExact(modules: seq<ModuleIdentity>, tee: Bytes, m: Option<(nat, nat)>)
    requires |tee| == 16
    ensures MatchModule(modules, tee) == Ok(m) <==>
            && (m.Some? <==> tee[1] > 0)
            && (m.Some? ==> && FirstNamed(modules, Ascii("TDX_") + HexEncode([tee[1]]), m.value.0)
                            && FirstIsv(modules[m.value.0].levels, tee[0], m.value.1))
  {
    ModuleIdSpelled(tee[1]);
    var named := FindModule(modules, ModuleId(tee[1]));
    assert forall k: nat :: FirstNamed(modules, ModuleId(tee[1]), k) ==> named == Some(k);
    if m.Some? && named == Some(m.value.0) {
      IsvLevelExact(modules[m.value.0].levels, tee[0], m.value.1);
    }
  }

  /** Matching finds exactly where each component stands. */
  lemma MatchExact(info: TcbInfo, qe: seq<TcbLevel>, tee: Bytes, pck: PckTcb, isv: nat, m: Matched)
    ensures MatchTcbLevels(info, qe, tee, pck, isv) == Ok(m) <==> StandsAt(info, qe, tee, pck, isv, m)
  {
    if |tee| == 16 {
      PlatformLevelExact(info.levels, tee, pck, m.platform);
      ModuleExact(info.modules, tee, m.mod);
      IsvLevelExact(qe, isv, m.qe);
    }
  }

  /** The component that fails a match is named in this order: platform, module
      identity, its level, the QE. */
  lemma NoMatchExact(info: TcbInfo, qe: seq<TcbLevel>, tee: Bytes, pck: PckTcb, isv: nat)
    requires |tee| == 16 && MatchTcbLevels(info, qe, tee, pck, isv).Err?
    ensures var id := Ascii("TDX_") + HexEncode([tee[1]]);
            MatchTcbLevels(info, qe, tee, pck, isv) ==
            if forall p :: !FirstMet(info.levels, tee, pck, p) then Err(NoPlatformLevel)
            else if tee[1] > 0 && (forall m: nat :: !FirstNamed(info.modules, id, m)) then Err(NoModuleIdentity)
            else if ModuleUncovered(info.modules, tee) then Err(NoModuleLevel)
            else Err(NoQeLevel)
  {
    ModuleIdSpelled(tee[1]);
    MatchModuleErr(info.modules, tee);
    if PlatformLevel(info.levels, tee, pck).Some? {
      PlatformLevelExact(info.levels, tee, pck, PlatformLevel(info.levels, tee, pck).value);
    } else {
      forall p: nat ensures !FirstMet(info.levels, tee, pck, p) { PlatformLevelExact(info.levels, tee, pck, p); }
    }
    var named := FindModule(info.modules, ModuleId(tee[1]));
    assert named.Some? ==> FirstNamed(info.modules, ModuleId(tee[1]), named.value);
  }

  /** An evaluation accepts exactly when every component stands at a level, and the
      status of each is accepted: the module's with the others. */
  lemma AcceptsExact(info: TcbInfo, qe: seq<TcbLevel>, tee: Bytes, pck: PckTcb, isv: nat, accepted: seq<TcbStatus>)
    ensures Accepts(info, qe, tee, pck, isv, accepted) <==>
            exists m :: && StandsAt(info, qe, tee, pck, isv, m)
                        && info.levels[m.platform].status in accepted && qe[m.qe].status in accepted
                        && (m.mod.Some? ==> info.modules[m.mod.value.0].levels[m.mod.value.1].status in accepted)
  {
    forall m ensures MatchTcbLevels(info, qe, tee, pck, isv) == Ok(m) <==> StandsAt(info, qe, tee, pck, isv, m) {
      MatchExact(info, qe, tee, pck, isv, m);
    }
    if MatchTcbLevels(info, qe, tee, pck, isv).Ok? {
      LevelsExact(info, qe, MatchTcbLevels(info, qe, tee, pck, isv).value, accepted);
    }
  }

  lemma LevelsExact(info: TcbInfo, qe: seq<TcbLevel>, m: Matched, accepted: seq<TcbStatus>)
    requires InRange(info, qe, m)
    ensures AllAccepted(LevelsOf(info, qe, m), accepted) <==>
            && info.levels[m.platform].status in accepted && qe[m.qe].status in accepted
            && (m.mod.Some? ==> info.modules[m.mod.value.0].levels[m.mod.value.1].status in accepted)
  {
    var levels := LevelsOf(info, qe, m);
    assert levels[0] == info.levels[m.platform] && levels[|levels| - 1] == qe[m.qe];
    assert m.mod.Some? ==> |levels| == 3 && levels[1] == info.modules[m.mod.value.0].levels[m.mod.value.1];
  }

  /** The advisories judged are those of the levels, of all of them, in their order. */
  lemma {:induction false} MentionedExact(levels: seq<TcbLevel>, x: Bytes)
    ensures x in Mentioned(levels) <==> exists i :: 0 <= i < |levels| && x in levels[i].advisories
    ensures levels != [] ==> Mentioned(levels) == Mentioned(levels[..|levels| - 1]) + levels[|levels| - 1].advisories
  {
    if levels != [] {
      var front, n := levels[..|levels| - 1], |levels| - 1;
      MentionedExact(front, x);
      if i :| 0 <= i < |levels| && x in levels[i].advisories {
        assert i < n ==> x in front[i].advisories;
      }
      if i :| 0 <= i < |front| && x in front[i].advisories {
        assert x in levels[i].advisories;
      }
    }
  }
}
