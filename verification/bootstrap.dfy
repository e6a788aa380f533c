/**
  The bootstrap sequence of miredo's `main` (src/main.c) once the command
  line is read: the configuration-file check, the optional chroot-directory
  check, the tunnel-driver check, `init_security`, the pidfile, the
  service itself, pidfile removal and the mapping of the service's result
  to an exit status.

  The driver diagnosis and the service entry point (`miredo`) are opaque:
  only their results are modelled, as fields of a `World`.
*/
module Bootstrap {
  import opened Common
  import opened CommandLine
  import opened Security
  import opened Pidfile

  /** The build choices the code depends on: HAVE_LIBCAP, the pidfile path
      (present when MIREDO_PIDFILEDIR is defined), MIREDO_CHROOT, and the
      default configuration file path. */
  datatype BuildConfig = BuildConfig(
    libcap: bool, pidfile: Option<string>, chroot: bool, defaultConf: string)

  /** The outcomes of what `main` asks the system and its collaborators. */
  datatype World = World(
    readable: set<string>,    // paths for which access(path, R_OK) == 0
    chrootOk: bool,           // MIREDO_CHROOT exists, is a directory, is searchable
    driverOk: bool,           // libtun6_driver_diagnose reported no problem
    sys: SystemOracle,        // the calls of init_security
    pidfileIo: PidfileOracle, // the calls of create_pidfile
    pid: nat,                 // getpid() once init_security is done
    serviceStatus: int,       // what miredo(conffile, servername) returns
    removeWritable: bool)     // the pidfile directory still lets the process
                              // remove entries when remove_pidfile runs

  /** The steps of `main`, in the order they can happen. */
  datatype Phase =
    | CheckConfig
    | CheckChroot
    | CheckDriver
    | Secure
    | CreatePid
    | Service(conffile: string, servername: Option<string>)
    | RemovePid

  /** The exit status of `main`, the steps it took, the process context the
      service starts with (or the one `main` stopped in, when it returned
      earlier), the file system at the end, and `duringService`, the file
      system the service started with, when it ran. */
  datatype Run = Run(exit: int, phases: seq<Phase>, ctx: ProcessContext,
                     fs: FileSystem, duringService: Option<FileSystem>)

  /** `create_pidfile ()` as written, whose result `main` discards; a no-op
      when the build has no pidfile. */
  function PidfileCreated(build: BuildConfig, w: World, fs: FileSystem): FileSystem {
    if build.pidfile.Some? then CreatePidfileAsWritten(fs, build.pidfile.value, w.pid, w.pidfileIo).fs
    else fs
  }

  /** `remove_pidfile ()`, likewise. It runs after the service, whose
      identity changes may have taken away the right to remove the file,
      so its outcome is an oracle of its own. */
  function PidfileRemoved(build: BuildConfig, w: World, fs: FileSystem): FileSystem {
    if build.pidfile.Some? then RemovePidfile(fs, build.pidfile.value, w.removeWritable).fs
    else fs
  }

  /** `main` after the command line: each check that fails returns 1 at
      once; a service result other than 0 becomes exit status 1. */
  function Boot(inv: Invocation, build: BuildConfig, w: World,
                ctx: ProcessContext, fs: FileSystem): Run
  {
    var p0 := if inv.servername.None? then [CheckConfig] else [];
    if inv.servername.None? && inv.conffile !in w.readable then Run(1, p0, ctx, fs, None)
    else
      var p1 := p0 + (if build.chroot then [CheckChroot] else []);
      if build.chroot && !w.chrootOk then Run(1, p1, ctx, fs, None)
      else
        var p2 := p1 + [CheckDriver];
        if !w.driverOk then Run(1, p2, ctx, fs, None)
        else
          var sec := InitSecurity(inv.username, inv.foreground, build.libcap, ctx, w.sys);
          var p3 := p2 + [Secure];
          if sec.ret != 0 then Run(1, p3, sec.ctx, fs, None)
          else
            var fs1 := PidfileCreated(build, w, fs);
            var fs2 := PidfileRemoved(build, w, fs1);
            Run(if w.serviceStatus != 0 then 1 else 0,
                p3 + [CreatePid, Service(inv.conffile, inv.servername), RemovePid],
                sec.ctx, fs2, Some(fs1))
  }

  /** `main (argc, argv)`: the exit status is always 0, 1 or 2, and 2, the
      status for a command-line syntax error, comes from the command line
      alone. */
  function Main(events: seq<OptEvent>, positional: seq<string>, build: BuildConfig,
                w: World, ctx: ProcessContext, fs: FileSystem): (r: Run)
    ensures r.exit == 0 || r.exit == 1 || r.exit == 2
    ensures r.exit == 2 <==>
              Parse(events, positional, build.defaultConf).Exit?
              && Parse(events, positional, build.defaultConf).code == 2
  {
    match Parse(events, positional, build.defaultConf)
    case Exit(code, _) =>
      assert code == 0 || code == 1 || code == 2 by { ParseExitCodes(events, positional, build.defaultConf); }
      Run(code, [], ctx, fs, None)
    case Proceed(inv) => Boot(inv, build, w, ctx, fs)
  }

  /** The command line alone exits with 0 (-h, -V), 1 (an unexpected option
      code) or 2 (usage errors). */
  lemma ParseExitCodes(events: seq<OptEvent>, positional: seq<string>, defaultConf: string)
    ensures Parse(events, positional, defaultConf).Exit? ==>
              var code := Parse(events, positional, defaultConf).code;
              code == 0 || code == 1 || code == 2
  {
    RunOptionsCodes(Initial, events);
  }

  lemma {:induction false} RunOptionsCodes(s: Settings, events: seq<OptEvent>)
    ensures RunOptions(s, events).Stop? ==>
              var code := RunOptions(s, events).code;
              code == 0 || code == 1 || code == 2
    decreases |events|
  {
    if |events| > 0 {
      match Step(s, events[0])
      case Stop(_, _) =>
      case Continue(s') => RunOptionsCodes(s', events[1..]);
    }
  }

  // ---------------------------------------------------------------------
  // Ordering and exit mapping.
  // ---------------------------------------------------------------------

  /** Every step `main` can take after the command line, in order. */
  function Schedule(inv: Invocation, build: BuildConfig): seq<Phase> {
    (if inv.servername.None? then [CheckConfig] else [])
    + (if build.chroot then [CheckChroot] else [])
    + [CheckDriver, Secure, CreatePid, Service(inv.conffile, inv.servername), RemovePid]
  }

  /** A command-line exit happens before anything else: nothing is checked,
      no privilege is touched and no file is changed. */
  lemma CommandLineExitRunsNothing(events: seq<OptEvent>, positional: seq<string>,
                                   build: BuildConfig, w: World, ctx: ProcessContext, fs: FileSystem)
    requires Parse(events, positional, build.defaultConf).Exit?
    ensures var r := Main(events, positional, build, w, ctx, fs);
            && r.exit == Parse(events, positional, build.defaultConf).code
            && r.phases == [] && r.ctx == ctx && r.fs == fs
  {
  }

  /** The steps taken are always a prefix of the schedule, and the service
      runs only when every check before it passed. */
  lemma PhasesFollowSchedule(inv: Invocation, build: BuildConfig, w: World,
                             ctx: ProcessContext, fs: FileSystem)
    ensures var r := Boot(inv, build, w, ctx, fs);
            && |r.phases| <= |Schedule(inv, build)|
            && r.phases == Schedule(inv, build)[..|r.phases|]
            && (r.phases == Schedule(inv, build) <==>
                  (inv.servername.None? ==> inv.conffile in w.readable)
                  && (build.chroot ==> w.chrootOk) && w.driverOk
                  && InitSecurity(inv.username, inv.foreground, build.libcap, ctx, w.sys).ret == 0)
  {
    var sched := Schedule(inv, build);
    var r := Boot(inv, build, w, ctx, fs);
    assert r.phases == sched[..|r.phases|];
  }

  /** Without a server name, an unreadable configuration file ends `main`
      with 1 before the driver check and before any privilege is touched. */
  lemma UnreadableConfigStopsFirst(inv: Invocation, build: BuildConfig, w: World,
                                   ctx: ProcessContext, fs: FileSystem)
    requires inv.servername.None? && inv.conffile !in w.readable
    ensures Boot(inv, build, w, ctx, fs) == Run(1, [CheckConfig], ctx, fs, None)
  {
  }

  /** After the command line `main` exits only with 0 or 1; unless the
      service ran, it exits with 1 and no file has changed. */
  lemma BootExitCodes(inv: Invocation, build: BuildConfig, w: World,
                      ctx: ProcessContext, fs: FileSystem)
    ensures var r := Boot(inv, build, w, ctx, fs);
            && (r.exit == 0 || r.exit == 1)
            && (r.duringService.None? ==> r.exit == 1 && r.fs == fs)
  {
  }

  /** With MIREDO_CHROOT built in and its directory missing or unusable,
      `main` exits with 1 before the driver check and before any privilege
      is touched. */
  lemma ChrootFailureStops(inv: Invocation, build: BuildConfig, w: World,
                           ctx: ProcessContext, fs: FileSystem)
    requires inv.servername.None? ==> inv.conffile in w.readable
    requires build.chroot && !w.chrootOk
    ensures var r := Boot(inv, build, w, ctx, fs);
            && r.exit == 1 && r.ctx == ctx && r.fs == fs
            && CheckDriver !in r.phases && Secure !in r.phases
            && r.phases[|r.phases| - 1] == CheckChroot
  {
  }

  /** A failed driver check ends `main` with 1 without calling
      `init_security`: the process is untouched. */
  lemma DriverFailureSkipsSecurity(inv: Invocation, build: BuildConfig, w: World,
                                   ctx: ProcessContext, fs: FileSystem)
    requires !w.driverOk
    ensures var r := Boot(inv, build, w, ctx, fs);
            r.exit == 1 && Secure !in r.phases && r.ctx == ctx && r.fs == fs
  {
  }

  /** A failing `init_security` ends `main` with 1 before the pidfile. */
  lemma SecurityFailureExits(inv: Invocation, build: BuildConfig, w: World,
                             ctx: ProcessContext, fs: FileSystem)
    requires (inv.servername.None? ==> inv.conffile in w.readable)
    requires (build.chroot ==> w.chrootOk) && w.driverOk
    requires InitSecurity(inv.username, inv.foreground, build.libcap, ctx, w.sys).ret != 0
    ensures var r := Boot(inv, build, w, ctx, fs);
            r.exit == 1 && r.phases[|r.phases| - 1] == Secure && r.fs == fs
  {
  }

  /** What happens to the pidfile never changes the exit status or the
      steps taken. */
  lemma PidfileNeverDecides(events: seq<OptEvent>, positional: seq<string>, build: BuildConfig,
                            w: World, ctx: ProcessContext, fs: FileSystem,
                            io: PidfileOracle, pid: nat, removable: bool, build': BuildConfig)
    requires build'.libcap == build.libcap && build'.chroot == build.chroot
    requires build'.defaultConf == build.defaultConf
    ensures var r := Main(events, positional, build, w, ctx, fs);
            var r' := Main(events, positional, build', w.(pidfileIo := io, pid := pid, removeWritable := removable), ctx, fs);
            r'.exit == r.exit && r'.phases == r.phases && r'.ctx == r.ctx
  {
  }

  /** Once the service has run, removal of the pidfile is the next and last
      step, and the exit status is 0 exactly when the service returned 0. */
  lemma ServiceThenRemoval(inv: Invocation, build: BuildConfig, w: World,
                           ctx: ProcessContext, fs: FileSystem)
    ensures var r := Boot(inv, build, w, ctx, fs);
            (exists i :: 0 <= i < |r.phases| && r.phases[i].Service?) ==>
              && |r.phases| >= 2
              && r.phases[|r.phases| - 2] == Service(inv.conffile, inv.servername)
              && r.phases[|r.phases| - 1] == RemovePid
              && (r.exit == 0 <==> w.serviceStatus == 0)
  {
  }

  /** `main` exits with 0 exactly when the command line returns 0 (-h or -V
      reached after options that were all accepted), or the service ran
      and returned 0. */
  lemma ExitZeroIff(events: seq<OptEvent>, positional: seq<string>, build: BuildConfig,
                    w: World, ctx: ProcessContext, fs: FileSystem)
    ensures var r := Main(events, positional, build, w, ctx, fs);
            r.exit == 0 <==>
              (Parse(events, positional, build.defaultConf).Exit?
               && Parse(events, positional, build.defaultConf).code == 0)
              || (r.duringService.Some? && w.serviceStatus == 0)
    ensures var r := Main(events, positional, build, w, ctx, fs);
            r.exit == 0 <==>
              (exists i :: 0 <= i < |events| && RunOptions(Initial, events[..i]).Continue?
                           && (events[i].code == 'h' || events[i].code == 'V'))
              || (r.duringService.Some? && w.serviceStatus == 0)
  {
    CommandLineSuccess(events, positional, build.defaultConf);
  }

  /** The service only starts in the state `init_security` promised: the
      environment is empty, the user it will switch to is not root,
      descriptors 0, 1 and 2 are open and every descriptor from 3 up to the
      soft limit is closed. */
  lemma ServiceStartsSecured(inv: Invocation, build: BuildConfig, w: World,
                             ctx: ProcessContext, fs: FileSystem)
    requires Boot(inv, build, w, ctx, fs).duringService.Some?
    ensures var r := Boot(inv, build, w, ctx, fs);
            && r.ctx.env == map[]
            && inv.username in w.sys.users
            && r.ctx.unprivUid == Some(w.sys.users[inv.username].uid)
            && w.sys.users[inv.username].uid != 0
            && 0 in r.ctx.fds && 1 in r.ctx.fds && 2 in r.ctx.fds
            && w.sys.rlimit.Some?
            && (forall k :: 3 <= k < w.sys.rlimit.value ==> k !in r.ctx.fds)
  {
    SuccessfulIdentity(inv.username, inv.foreground, build.libcap, ctx, w.sys);
  }

  /** When the directory no longer lets the process remove entries by the
      time `remove_pidfile` runs, the file system at exit is the one the
      service started with: a created pidfile is left behind. */
  lemma PidfileLeftWhenRemovalRefused(inv: Invocation, build: BuildConfig, w: World,
                                      ctx: ProcessContext, fs: FileSystem)
    requires Boot(inv, build, w, ctx, fs).duringService.Some?
    requires !w.removeWritable
    ensures var r := Boot(inv, build, w, ctx, fs);
            r.fs == r.duringService.value
  {
  }

  // ---------------------------------------------------------------------
  // Scenarios.
  // ---------------------------------------------------------------------

  /** `-u nosuchuser` with everything else in order: exit 1, and the user
      lookup was the last call made. */
  lemma UnknownUserScenario(name: string, build: BuildConfig, w: World,
                            ctx: ProcessContext, fs: FileSystem)
    requires name !in w.sys.users
    requires build.defaultConf in w.readable && (build.chroot ==> w.chrootOk) && w.driverOk
    requires Passes(SanitizeFds, name, w.sys)
    ensures var r := Main([OptEvent('u', name)], [], build, w, ctx, fs);
            && r.exit == 1
            && r.ctx.calls == ctx.calls + [ClearEnv, SanitizeFds, GetPwNam]
            && r.ctx.unprivUid == ctx.unprivUid
  {
    var inv := Invocation(name, build.defaultConf, None, false);
    assert RunOptions(Initial, [OptEvent('u', name)]) == Continue(Settings(Some(name), None, false));
    assert Parse([OptEvent('u', name)], [], build.defaultConf) == Proceed(inv);
    RejectedUserChangesNothing(name, false, build.libcap, ctx, w.sys);
  }

  /** `-u alice -u bob`: a usage error naming both values, before anything
      else runs. */
  lemma TwoUsersScenario(build: BuildConfig, w: World, ctx: ProcessContext, fs: FileSystem)
    ensures Parse([OptEvent('u', "alice"), OptEvent('u', "bob")], [], build.defaultConf)
            == Exit(2, DuplicateSetting('u', "alice", "bob"))
    ensures Main([OptEvent('u', "alice"), OptEvent('u', "bob")], [], build, w, ctx, fs)
            == Run(2, [], ctx, fs, None)
  {
    var events := [OptEvent('u', "alice"), OptEvent('u', "bob")];
    assert events[1..] == [OptEvent('u', "bob")];
    assert events[1..][1..] == [];
  }

  /** The full happy path in the background: the service runs with the
      pidfile in place holding the pid, and the pidfile is gone at exit. */
  lemma HappyPathScenario(inv: Invocation, build: BuildConfig, w: World,
                          ctx: ProcessContext, fs: FileSystem)
    requires build.pidfile.Some?
    requires (inv.servername.None? ==> inv.conffile in w.readable)
    requires (build.chroot ==> w.chrootOk) && w.driverOk && w.serviceStatus == 0
    requires !inv.foreground
    requires InitSecurity(inv.username, inv.foreground, build.libcap, ctx, w.sys).ret == 0
    requires var io := w.pidfileIo;
             io.dirWritable && io.fstatOk && io.fdopenOk && io.printOk && io.flushOk
    requires var p := build.pidfile.value; p !in fs || !fs[p].Directory?
    requires w.removeWritable
    ensures var r := Boot(inv, build, w, ctx, fs);
            var p := build.pidfile.value;
            && r.exit == 0
            && r.ctx.detached
            && r.duringService.Some?
            && p in r.duringService.value
            && r.duringService.value[p] == Regular(Decimal(w.pid))
            && p !in r.fs
  {
    var p := build.pidfile.value;
    RemoveAfterCreate(fs, p, w.pid, w.pidfileIo);
    DetachedUnlessForeground(inv.username, inv.foreground, build.libcap, ctx, w.sys);
  }
}
