/**
  `init_security` of src/main.c: the fail-fast sequence that clears the
  environment, sanitises descriptors, resolves the unprivileged user,
  drops groups, regains effective root, installs the POSIX.1e capability
  set and finally detaches.

  The process is an immutable `ProcessContext` threaded through the steps.
  Every system or library call the sequence makes is appended to its
  `calls` log, so that ordering and short-circuiting can be stated. The
  results of the foreign calls (`getrlimit`, `open`, `getpwnam`, `setgid`,
  `setgroups`, `seteuid`, the libcap calls, `daemon`) come from a
  `SystemOracle`; only their effect on the process on success is modelled.
*/
module Security {
  import opened Common
  import opened Descriptors

  /** A POSIX.1e capability, by its Linux number. */
  type Cap = nat

  const CAP_SETUID: Cap := 7
  const CAP_NET_ADMIN: Cap := 12
  const CAP_SYS_CHROOT: Cap := 18

  /** The capabilities the daemon keeps, permitted and effective. */
  const RetainedCaps: set<Cap> := {CAP_SYS_CHROOT, CAP_SETUID, CAP_NET_ADMIN}

  /** A capability state, as libcap's `cap_t` or the process's own. */
  datatype CapState = CapState(permitted: set<Cap>, effective: set<Cap>, inheritable: set<Cap>)

  /** What `cap_init` returns: every flag of every capability clear. */
  const ClearedCaps: CapState := CapState({}, {}, {})

  /** The part of a `struct passwd` that is used. */
  datatype Passwd = Passwd(uid: nat, gid: nat)

  /** The calls `init_security` makes, in the order they appear. */
  datatype Call =
    | ClearEnv | SanitizeFds | GetPwNam | SetGid | SetGroups | SetEuidRoot
    | CapInit | CapSetPermitted | CapSetEffective | CapSetProc | Daemon

  /** The process state the bootstrap acts on. `unprivUid` is the global
      `unpriv_uid` that the service later switches to. */
  datatype ProcessContext = ProcessContext(
    env: map<string, string>,
    fds: FdTable,
    uid: nat,
    euid: nat,
    gid: nat,
    groups: set<nat>,
    caps: CapState,
    detached: bool,
    cwd: string,
    unprivUid: Option<nat>,
    calls: seq<Call>)

  /** The outcomes of the foreign calls. `rlimit` is the soft RLIMIT_NOFILE
      (None when `getrlimit` fails); `users` is the user database as
      `getpwnam` sees it (a lookup error is an absent entry). */
  datatype SystemOracle = SystemOracle(
    rlimit: Option<nat>,
    nullOk: bool,
    users: map<string, Passwd>,
    setgidOk: bool,
    setgroupsOk: bool,
    seteuidOk: bool,
    capInitOk: bool,
    capSetPermittedOk: bool,
    capSetEffectiveOk: bool,
    capSetProcOk: bool,
    daemonOk: bool)

  /** The return value of `init_security` (0 or -1) and the process after it. */
  datatype SecResult = SecResult(ret: int, ctx: ProcessContext)

  /** Record that `call` was made. */
  function Log(c: ProcessContext, call: Call): ProcessContext {
    c.(calls := c.calls + [call])
  }

  /** The capability block (HAVE_LIBCAP): build a cleared state, set the
      three retained capabilities as permitted, then as effective, then
      apply it to the process. */
  function InstallCaps(c: ProcessContext, o: SystemOracle): SecResult {
    var c1 := Log(c, CapInit);
    if !o.capInitOk then SecResult(-1, c1)
    else
      var s := ClearedCaps;
      var c2 := Log(c1, CapSetPermitted);
      if !o.capSetPermittedOk then SecResult(-1, c2)
      else
        var s := s.(permitted := s.permitted + RetainedCaps);
        var c3 := Log(c2, CapSetEffective);
        if !o.capSetEffectiveOk then SecResult(-1, c3)
        else
          var s := s.(effective := s.effective + RetainedCaps);
          var c4 := Log(c3, CapSetProc);
          if !o.capSetProcOk then SecResult(-1, c4)
          else SecResult(0, c4.(caps := s))
  }

  /** `if (!nodetach && daemon (0, 0))`: `daemon(0, 0)` starts a new session,
      changes to "/" and points 0, 1 and 2 at the null device. */
  function Detach(c: ProcessContext, nodetach: bool, o: SystemOracle): SecResult {
    if nodetach then SecResult(0, c)
    else
      var c1 := Log(c, Daemon);
      if !o.daemonOk then SecResult(-1, c1)
      else SecResult(0, c1.(detached := true, cwd := "/",
                            fds := c1.fds[0 := NullDevice][1 := NullDevice][2 := NullDevice]))
  }

  /** The environment is cleared, then descriptors are sanitised. */
  function Prepare(ctx: ProcessContext, o: SystemOracle): SecResult {
    var c0 := Log(ctx.(env := map[]), ClearEnv);
    var (sret, fds) := SanitizeModel(c0.fds, o.rlimit, o.nullOk);
    SecResult(if sret == 0 then 0 else -1, Log(c0.(fds := fds), SanitizeFds))
  }

  /** The user lookup and root check, `setgid`, `setgroups` (result
      discarded) and `seteuid(0)`. `unpriv_uid` is assigned only once the
      user is known not to be root. */
  function DropGroups(username: string, c: ProcessContext, o: SystemOracle): SecResult {
    var c1 := Log(c, GetPwNam);
    if username !in o.users then SecResult(-1, c1)
    else
      var pw := o.users[username];
      if pw.uid == 0 then SecResult(-1, c1)
      else
        var c2 := Log(c1.(unprivUid := Some(pw.uid)), SetGid);
        if !o.setgidOk then SecResult(-1, c2)
        else
          var c3 := c2.(gid := pw.gid);
          var c4 := Log(if o.setgroupsOk then c3.(groups := {}) else c3, SetGroups);
          var c5 := Log(c4, SetEuidRoot);
          if !o.seteuidOk then SecResult(-1, c5)
          else SecResult(0, c5.(euid := 0))
  }

  /**
    `init_security(username, nodetach)`; `libcap` selects the build with
    HAVE_LIBCAP. Each stage runs only if the one before returned 0. The
    environment is cleared whatever happens later, and the result is 0
    or -1.
  */
  function InitSecurity(username: string, nodetach: bool, libcap: bool,
                        ctx: ProcessContext, o: SystemOracle): (r: SecResult)
    ensures r.ret == 0 || r.ret == -1
    ensures r.ctx.env == map[]
  {
    var r1 := Prepare(ctx, o);
    if r1.ret != 0 then r1
    else
      var r2 := DropGroups(username, r1.ctx, o);
      if r2.ret != 0 then r2
      else
        var r3 := if libcap then InstallCaps(r2.ctx, o) else r2;
        if r3.ret != 0 then r3
        else Detach(r3.ctx, nodetach, o)
  }

  // ---------------------------------------------------------------------
  // The fixed order, stated independently of the code.
  // ---------------------------------------------------------------------

  /** The calls of a run in which nothing fails. */
  function Plan(libcap: bool, nodetach: bool): seq<Call> {
    [ClearEnv, SanitizeFds, GetPwNam, SetGid, SetGroups, SetEuidRoot]
    + (if libcap then [CapInit, CapSetPermitted, CapSetEffective, CapSetProc] else [])
    + (if nodetach then [] else [Daemon])
  }


  /** Whether the call lets `init_security` continue. `setgroups` always
      does: its result is discarded. A user lookup that finds root stops
      the sequence like one that finds nothing. */
  predicate Passes(call: Call, username: string, o: SystemOracle) {
    match call
    case ClearEnv => true
    case SanitizeFds => o.rlimit.Some? && o.nullOk && o.rlimit.value > 3
    case GetPwNam => username in o.users && o.users[username].uid != 0
    case SetGid => o.setgidOk
    case SetGroups => true
    case SetEuidRoot => o.seteuidOk
    case CapInit => o.capInitOk
    case CapSetPermitted => o.capSetPermittedOk
    case CapSetEffective => o.capSetEffectiveOk
    case CapSetProc => o.capSetProcOk
    case Daemon => o.daemonOk
  }

  /** How many calls of `plan` are made when each stops the run on failure. */
  function CallsMade(plan: seq<Call>, username: string, o: SystemOracle): (n: nat)
    ensures n <= |plan|
    decreases |plan|
  {
    if |plan| == 0 then 0
    else if !Passes(plan[0], username, o) then 1
    else 1 + CallsMade(plan[1..], username, o)
  }

  /** Every call of `plan` passes. */
  predicate AllPass(plan: seq<Call>, username: string, o: SystemOracle) {
    forall i :: 0 <= i < |plan| ==> Passes(plan[i], username, o)
  }

  /** The calls of each stage when nothing fails. */
  const PreparePlan: seq<Call> := [ClearEnv, SanitizeFds]
  const DropPlan: seq<Call> := [GetPwNam, SetGid, SetGroups, SetEuidRoot]
  const CapsPlan: seq<Call> := [CapInit, CapSetPermitted, CapSetEffective, CapSetProc]

  function DetachPlan(nodetach: bool): seq<Call> {
    if nodetach then [] else [Daemon]
  }

  /** `r` is what running `plan` from a log `before` yields: the calls up to
      and including the first failing one are appended, and the result is
      0 exactly when every call passes, -1 otherwise. */
  predicate Follows(before: seq<Call>, r: SecResult, plan: seq<Call>, username: string, o: SystemOracle) {
    && r.ctx.calls == before + plan[..CallsMade(plan, username, o)]
    && (r.ret == 0 || r.ret == -1)
    && (r.ret == 0 <==> AllPass(plan, username, o))
  }

  /** `init_security` makes the planned calls in order, stopping right after
      the first one that fails, and returns 0 exactly when none fails. */
  lemma InitSecurityFollowsPlan(username: string, nodetach: bool, libcap: bool,
                                ctx: ProcessContext, o: SystemOracle)
    ensures Follows(ctx.calls, InitSecurity(username, nodetach, libcap, ctx, o),
                    Plan(libcap, nodetach), username, o)
  {
    var r1 := Prepare(ctx, o);
    PrepareFollows(ctx, o, username);
    var caps := if libcap then CapsPlan else [];
    assert Plan(libcap, nodetach) == PreparePlan + DropPlan + caps + DetachPlan(nodetach);
    if r1.ret != 0 {
      Sequence(ctx.calls, r1, PreparePlan, r1, DropPlan + caps + DetachPlan(nodetach), username, o);
      assert PreparePlan + (DropPlan + caps + DetachPlan(nodetach)) == Plan(libcap, nodetach);
      return;
    }
    var r2 := DropGroups(username, r1.ctx, o);
    DropGroupsFollows(username, r1.ctx, o);
    var r3 := if libcap then InstallCaps(r2.ctx, o) else r2;
    var r4 := if r3.ret != 0 then r3 else Detach(r3.ctx, nodetach, o);
    if r2.ret == 0 {
      if libcap {
        InstallCapsFollows(r2.ctx, o, username);
      } else {
        NoCalls(r2.ctx.calls, r2, username, o);
      }
      if r3.ret == 0 {
        DetachFollows(r3.ctx, nodetach, o, username);
      }
      Sequence(r2.ctx.calls, r3, caps, r4, DetachPlan(nodetach), username, o);
    }
    var r34 := if r2.ret != 0 then r2 else r4;
    Sequence(r1.ctx.calls, r2, DropPlan, r34, caps + DetachPlan(nodetach), username, o);
    assert DropPlan + caps + DetachPlan(nodetach) == DropPlan + (caps + DetachPlan(nodetach));
    Sequence(ctx.calls, r1, PreparePlan, r34, DropPlan + caps + DetachPlan(nodetach), username, o);
    assert PreparePlan + (DropPlan + caps + DetachPlan(nodetach)) == Plan(libcap, nodetach);
  }

  lemma PrepareFollows(ctx: ProcessContext, o: SystemOracle, username: string)
    ensures Follows(ctx.calls, Prepare(ctx, o), PreparePlan, username, o)
  {
    SanitizeGuarantees(ctx.fds, o.rlimit, o.nullOk);
    var k := if Passes(SanitizeFds, username, o) then 2 else 1;
    CallsMadeAt(PreparePlan, username, o, k);
    assert PreparePlan[..2] == PreparePlan;
  }

  lemma DropGroupsFollows(username: string, c: ProcessContext, o: SystemOracle)
    ensures Follows(c.calls, DropGroups(username, c, o), DropPlan, username, o)
  {
    var k :=
      if !Passes(GetPwNam, username, o) then 0
      else if !o.setgidOk then 1
      else if !o.seteuidOk then 3
      else 4;
    CallsMadeAt(DropPlan, username, o, k);
    assert DropPlan[..4] == DropPlan;
  }

  lemma InstallCapsFollows(c: ProcessContext, o: SystemOracle, username: string)
    ensures Follows(c.calls, InstallCaps(c, o), CapsPlan, username, o)
  {
    var k :=
      if !o.capInitOk then 0
      else if !o.capSetPermittedOk then 1
      else if !o.capSetEffectiveOk then 2
      else if !o.capSetProcOk then 3
      else 4;
    CallsMadeAt(CapsPlan, username, o, k);
    assert CapsPlan[..4] == CapsPlan;
  }

  lemma DetachFollows(c: ProcessContext, nodetach: bool, o: SystemOracle, username: string)
    ensures Follows(c.calls, Detach(c, nodetach, o), DetachPlan(nodetach), username, o)
  {
    CallsMadeAt(DetachPlan(nodetach), username, o,
                if !nodetach && !o.daemonOk then 0 else |DetachPlan(nodetach)|);
    assert DetachPlan(nodetach)[..|DetachPlan(nodetach)|] == DetachPlan(nodetach);
  }

  lemma NoCalls(before: seq<Call>, r: SecResult, username: string, o: SystemOracle)
    requires r.ret == 0 && r.ctx.calls == before
    ensures Follows(before, r, [], username, o)
  {
  }

  /** Running `a` then, only if it returned 0, `b`, follows `a + b`. */
  lemma Sequence(before: seq<Call>, r1: SecResult, a: seq<Call>, r2: SecResult, b: seq<Call>,
                 username: string, o: SystemOracle)
    requires Follows(before, r1, a, username, o)
    requires r1.ret == 0 ==> Follows(r1.ctx.calls, r2, b, username, o)
    ensures Follows(before, if r1.ret != 0 then r1 else r2, a + b, username, o)
  {
    CallsMadeAppend(a, b, username, o);
    AllPassAppend(a, b, username, o);
    if r1.ret == 0 {
      assert a[..CallsMade(a, username, o)] == a by {
        AllPassMakesAll(a, username, o);
      }
      assert (a + b)[..|a| + CallsMade(b, username, o)] == a + b[..CallsMade(b, username, o)];
    } else {
      var n := CallsMade(a, username, o);
      assert (a + b)[..n] == a[..n];
    }
  }

  lemma {:induction false} CallsMadeAppend(a: seq<Call>, b: seq<Call>, username: string, o: SystemOracle)
    ensures CallsMade(a + b, username, o) ==
              if AllPass(a, username, o) then |a| + CallsMade(b, username, o) else CallsMade(a, username, o)
    decreases |a|
  {
    if |a| == 0 {
      assert a + b == b;
    } else {
      assert (a + b)[0] == a[0];
      assert (a + b)[1..] == a[1..] + b;
      CallsMadeAppend(a[1..], b, username, o);
      AllPassCons(a, username, o);
    }
  }

  lemma AllPassCons(a: seq<Call>, username: string, o: SystemOracle)
    requires |a| > 0
    ensures AllPass(a, username, o) <==> Passes(a[0], username, o) && AllPass(a[1..], username, o)
  {
    if Passes(a[0], username, o) && AllPass(a[1..], username, o) {
      forall i | 0 <= i < |a| ensures Passes(a[i], username, o) {
        if i > 0 { assert a[i] == a[1..][i - 1]; }
      }
    }
  }

  lemma AllPassAppend(a: seq<Call>, b: seq<Call>, username: string, o: SystemOracle)
    ensures AllPass(a + b, username, o) <==> AllPass(a, username, o) && AllPass(b, username, o)
  {
    if AllPass(a, username, o) && AllPass(b, username, o) {
      forall i | 0 <= i < |a + b| ensures Passes((a + b)[i], username, o) {
        if i >= |a| { assert (a + b)[i] == b[i - |a|]; }
      }
    }
    if AllPass(a + b, username, o) {
      forall i | 0 <= i < |b| ensures Passes(b[i], username, o) {
        assert (a + b)[|a| + i] == b[i];
      }
      forall i | 0 <= i < |a| ensures Passes(a[i], username, o) {
        assert (a + b)[i] == a[i];
      }
    }
  }

  /** When the first `k` calls of `plan` pass and call `k` (if any) fails,
      `k + 1` calls are made (all of them when none fails), and the plan
      passes as a whole exactly when `k` reaches its end. */
  lemma {:induction false} CallsMadeAt(plan: seq<Call>, username: string, o: SystemOracle, k: nat)
    requires k <= |plan|
    requires forall i :: 0 <= i < k ==> Passes(plan[i], username, o)
    requires k < |plan| ==> !Passes(plan[k], username, o)
    ensures CallsMade(plan, username, o) == if k < |plan| then k + 1 else |plan|
    ensures AllPass(plan, username, o) <==> k == |plan|
    decreases k
  {
    if |plan| > 0 {
      AllPassCons(plan, username, o);
      if k > 0 {
        forall i | 0 <= i < k - 1 ensures Passes(plan[1..][i], username, o) {
          assert plan[1..][i] == plan[i + 1];
        }
        assert k - 1 < |plan[1..]| ==> plan[1..][k - 1] == plan[k];
        CallsMadeAt(plan[1..], username, o, k - 1);
      }
    }
  }

  /** A plan whose every call passes is made in full. */
  lemma {:induction false} AllPassMakesAll(plan: seq<Call>, username: string, o: SystemOracle)
    requires AllPass(plan, username, o)
    ensures CallsMade(plan, username, o) == |plan|
    decreases |plan|
  {
    if |plan| > 0 {
      AllPassCons(plan, username, o);
      AllPassMakesAll(plan[1..], username, o);
    }
  }

  // ---------------------------------------------------------------------
  // What a run leaves behind.
  // ---------------------------------------------------------------------

  /** A user that does not exist or is root stops the run right after the
      lookup: -1, and no group, identity, capability or session change. */
  lemma RejectedUserChangesNothing(username: string, nodetach: bool, libcap: bool,
                                   ctx: ProcessContext, o: SystemOracle)
    requires Passes(SanitizeFds, username, o)
    requires username !in o.users || o.users[username].uid == 0
    ensures var r := InitSecurity(username, nodetach, libcap, ctx, o);
            && r.ret == -1
            && r.ctx.calls == ctx.calls + [ClearEnv, SanitizeFds, GetPwNam]
            && r.ctx.unprivUid == ctx.unprivUid
            && r.ctx.gid == ctx.gid && r.ctx.groups == ctx.groups
            && r.ctx.euid == ctx.euid && r.ctx.caps == ctx.caps
            && r.ctx.detached == ctx.detached
  {
    SanitizeGuarantees(ctx.fds, o.rlimit, o.nullOk);
  }

  /** `unpriv_uid` is only ever set to the uid of the named user, and only
      when that uid is not 0. */
  lemma UnprivUidOnlyAfterRootCheck(username: string, nodetach: bool, libcap: bool,
                                    ctx: ProcessContext, o: SystemOracle)
    ensures var r := InitSecurity(username, nodetach, libcap, ctx, o);
            r.ctx.unprivUid != ctx.unprivUid ==>
              && username in o.users
              && o.users[username].uid != 0
              && r.ctx.unprivUid == Some(o.users[username].uid)
  {
  }

  /** The outcome of `setgroups` never changes the result, nor which calls
      are made; it only decides whether the supplementary groups are gone. */
  lemma SetgroupsOutcomeIgnored(username: string, nodetach: bool, libcap: bool,
                                ctx: ProcessContext, o: SystemOracle, ok: bool)
    ensures var r := InitSecurity(username, nodetach, libcap, ctx, o);
            var r' := InitSecurity(username, nodetach, libcap, ctx, o.(setgroupsOk := ok));
            r'.ret == r.ret && r'.ctx.calls == r.ctx.calls
  {
    InitSecurityFollowsPlan(username, nodetach, libcap, ctx, o);
    InitSecurityFollowsPlan(username, nodetach, libcap, ctx, o.(setgroupsOk := ok));
    PassesIgnoresSetgroups(Plan(libcap, nodetach), username, o, ok);
  }

  lemma {:induction false} PassesIgnoresSetgroups(plan: seq<Call>, username: string, o: SystemOracle, ok: bool)
    ensures CallsMade(plan, username, o.(setgroupsOk := ok)) == CallsMade(plan, username, o)
    ensures AllPass(plan, username, o.(setgroupsOk := ok)) <==> AllPass(plan, username, o)
    decreases |plan|
  {
    if |plan| > 0 {
      PassesIgnoresSetgroups(plan[1..], username, o, ok);
      AllPassCons(plan, username, o);
      AllPassCons(plan, username, o.(setgroupsOk := ok));
    }
  }

  /** On success the identity is the one the service needs: the named user
      is not root and is remembered as `unpriv_uid`, the group is the user's
      primary group, effective uid is 0 again, the supplementary groups are
      cleared when `setgroups` succeeded, 0, 1 and 2 are open, and every
      descriptor from 3 up to the soft limit is closed. */
  lemma SuccessfulIdentity(username: string, nodetach: bool, libcap: bool,
                           ctx: ProcessContext, o: SystemOracle)
    requires InitSecurity(username, nodetach, libcap, ctx, o).ret == 0
    ensures var r := InitSecurity(username, nodetach, libcap, ctx, o);
            && username in o.users
            && o.users[username].uid != 0
            && r.ctx.unprivUid == Some(o.users[username].uid)
            && r.ctx.gid == o.users[username].gid
            && r.ctx.euid == 0
            && r.ctx.uid == ctx.uid
            && r.ctx.groups == (if o.setgroupsOk then {} else ctx.groups)
            && 0 in r.ctx.fds && 1 in r.ctx.fds && 2 in r.ctx.fds
            && o.rlimit.Some?
            && (forall k :: 3 <= k < o.rlimit.value ==> k !in r.ctx.fds)
  {
    SanitizeGuarantees(ctx.fds, o.rlimit, o.nullOk);
  }

  /** With libcap, a successful run leaves exactly CAP_SYS_CHROOT, CAP_SETUID
      and CAP_NET_ADMIN permitted and effective and nothing inheritable,
      whatever the process held before; without it the capability state is
      untouched (full root is kept). */
  lemma CapabilitiesExact(username: string, nodetach: bool, libcap: bool,
                          ctx: ProcessContext, o: SystemOracle)
    requires InitSecurity(username, nodetach, libcap, ctx, o).ret == 0
    ensures var r := InitSecurity(username, nodetach, libcap, ctx, o);
            r.ctx.caps == if libcap then CapState(RetainedCaps, RetainedCaps, {}) else ctx.caps
  {
  }

  /** `daemon` is called exactly when not asked to stay in the foreground
      and every earlier step passed. */
  lemma DaemonOnlyWhenDetaching(username: string, nodetach: bool, libcap: bool,
                                ctx: ProcessContext, o: SystemOracle)
    ensures var r := InitSecurity(username, nodetach, libcap, ctx, o);
            Daemon in r.ctx.calls[|ctx.calls|..] <==>
              !nodetach && AllPass(Plan(libcap, true), username, o)
  {
    InitSecurityFollowsPlan(username, nodetach, libcap, ctx, o);
    var r := InitSecurity(username, nodetach, libcap, ctx, o);
    var plan := Plan(libcap, nodetach);
    assert plan == Plan(libcap, true) + DetachPlan(nodetach);
    assert r.ctx.calls[|ctx.calls|..] == plan[..CallsMade(plan, username, o)];
    DaemonInPlanPrefix(Plan(libcap, true), nodetach, username, o);
  }

  lemma DaemonInPlanPrefix(base: seq<Call>, nodetach: bool, username: string, o: SystemOracle)
    requires Daemon !in base
    ensures var plan := base + DetachPlan(nodetach);
            Daemon in plan[..CallsMade(plan, username, o)] <==> !nodetach && AllPass(base, username, o)
  {
    var plan := base + DetachPlan(nodetach);
    CallsMadeAppend(base, DetachPlan(nodetach), username, o);
    if AllPass(base, username, o) { AllPassMakesAll(base, username, o); }
    var n := CallsMade(plan, username, o);
    if AllPass(base, username, o) && !nodetach {
      assert plan[..n][|base|] == Daemon;
    } else {
      assert plan[..n] == base[..n];
      assert forall i :: 0 <= i < n ==> plan[..n][i] == base[i];
    }
  }

  /** A successful run is detached exactly when it already was or the
      foreground flag was not given; detaching leaves 0, 1 and 2 on the null
      device and the working directory at "/". */
  lemma DetachedUnlessForeground(username: string, nodetach: bool, libcap: bool,
                                 ctx: ProcessContext, o: SystemOracle)
    requires InitSecurity(username, nodetach, libcap, ctx, o).ret == 0
    ensures var r := InitSecurity(username, nodetach, libcap, ctx, o);
            && r.ctx.detached == (ctx.detached || !nodetach)
            && (!nodetach ==>
                  && r.ctx.cwd == "/"
                  && (forall k :: 0 <= k < 3 ==> k in r.ctx.fds && r.ctx.fds[k] == NullDevice))
  {
  }
}
