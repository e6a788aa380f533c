# Miredo privileged bootstrap — a Dafny model

This project models the core of `src/main.c` of Miredo, the Teredo IPv6
tunnelling daemon: the part that runs while the process still holds root.
It covers:

- the command-line decision in `main`: the one-time `-c` and `-u`
  settings, the early exits for `-h`, `-V` and `?`, the single positional
  server name, and the default user `nobody`;
- `init_security`, the fail-fast sequence that runs in this order:
  1. clear the environment;
  2. close inherited descriptors and make 0, 1 and 2 valid;
  3. look up the user and refuse root;
  4. `setgid`, then `setgroups` with its result discarded, then `seteuid(0)`;
  5. install the POSIX.1e capability set;
  6. detach with `daemon`.
- the pidfile helpers `safe_fopen_w`, `create_pidfile` and `remove_pidfile`;
- the bootstrap order in `main` and how the result maps to an exit status.
  The steps are the configuration check, the chroot check, the driver
  check, `init_security`, pidfile creation, the service, then pidfile
  removal.

The process is an immutable `ProcessContext` record threaded through pure
functions. It holds the environment, the descriptor table, the
uid/euid/gid, the supplementary groups, the capability state, the detached
flag, the working directory, `unpriv_uid` and a log of the calls made.
Foreign calls are oracles whose results are parameters. These are
`getrlimit`, `open` of `/dev/null`, `getpwnam`, `setgid`, `setgroups`,
`seteuid`, the libcap calls, `daemon`, `access`, the chroot probe, the
driver diagnosis, `fstat`, `fdopen`, `fprintf`, `fclose` and the service
entry point `miredo`. Only the effect of each call on success is modelled.
The build configuration is a parameter too: HAVE_LIBCAP, the pidfile path
(MIREDO_PIDFILEDIR) and MIREDO_CHROOT.

Files:

- `common.dfy`: `Option`.
- `command_line.dfy`: module `CommandLine`.
- `descriptors.dfy`: module `Descriptors`. The table maps each descriptor
  to what it refers to. `open` and `dup` take the lowest free number and
  fail with EMFILE when that number is not below the soft limit.
- `security.dfy`: module `Security`, which models `init_security`.
- `pidfile.dfy`: module `Pidfile`. The file system maps each path to the
  kind of entry there.
- `bootstrap.dfy`: module `Bootstrap`, which models `main`.

Behaviour of the code that the model keeps:

- Descriptor sanitisation opens `/dev/null` only on those of 0, 1 and 2
  that were closed. Descriptors already open there are kept. `daemon`
  later points all three at the null device, unless -f is given: then
  `daemon` is not called and inherited 0, 1 and 2 stay as they were.
- The result of `setgroups` is discarded, so its failure is not fatal.
- `create_pidfile` first unlinks whatever is at the path. A second
  creation on the same path therefore replaces the file instead of failing.
- The check that the pidfile is a regular file can never reject in a
  sequential run. Whatever the exclusive `open` creates is a regular file,
  and anything that was there before (symlink, fifo, device) has already
  been unlinked.
- Sanitisation succeeds exactly when `getrlimit` works, the null device
  opens and the soft limit is above 3. With a limit of 3 or less, the final
  `dup` (or the `open`) above descriptor 2 fails with EMFILE.

## Model

| member | source | states |
|---|---|---|
| CommandLine.Step | src/main.c:451-479 | No contract of its own: one pass through the `switch`. `CommandLine.RunOptionsCharacterized` and `CommandLine.ImmediateExit` characterise it. |
| CommandLine.RunOptions | src/main.c:449-479 | No contract of its own: the option loop up to its first `return`. `CommandLine.RunOptionsCharacterized` characterises it. |
| CommandLine.Parse | src/main.c:441-494 | No contract of its own: the command-line part of `main`. `CommandLine.ParseCharacterized` characterises it. |
| CommandLine.RunOptionsCharacterized | src/main.c:447-479 | The option loop finishes exactly when every code is -c, -f or -u and neither -c nor -u occurs twice. It then holds the first value of each and whether -f occurred. |
| CommandLine.ParseCharacterized | src/main.c:441-494 | `main` continues past the command line iff only -c/-f/-u occur, neither one-time option repeats, and at most one positional argument remains. The invocation then has the first -u value or "nobody", the first -c value or the default file, the server name and the foreground flag. |
| CommandLine.DuplicateKeepsFirst | src/main.c:441-469 | A second -c or -u returns 2 and reports the first value as the one kept and the second as rejected. |
| CommandLine.ImmediateExit | src/main.c:453-478 | Codes other than c/f/u end `main` at once: -h and -V with 0, '?' with 2, any other code with 1. |
| CommandLine.RunOptionsSucceedsEarly | src/main.c:449-479 | The loop returns 0 exactly when it reads -h or -V after options that were all accepted. An unknown code or a repeated -c/-u before it returns its own status first. |
| CommandLine.CommandLineSuccess | src/main.c:449-479 | The command line makes `main` return 0 iff -h or -V is reached before any error. For example, `-u a -u b -h` returns 2. |
| CommandLine.ExitOptionDecides | src/main.c:449-479 | After accepted options, an exiting code decides the outcome whatever follows it. |
| CommandLine.ForegroundRepeatHarmless | src/main.c:460-462 | Repeating -f gives the same outcome as giving it once, whatever argument text either occurrence carries. |
| CommandLine.PositionalArguments | src/main.c:481-485 | The first positional argument becomes the server name. A second one is a usage error (2) that names it. |
| CommandLine.Defaults | src/main.c:487-494 | Without -u the user is "nobody"; without -c the configuration file is the built-in default. |
| Descriptors.LowestFreeFrom | src/main.c:261-269 | The number `open`/`dup` hands out is free and every number below it is in use. |
| Descriptors.SanitizeDescriptors | src/main.c:252-272 | The close loop, `open` and `dup` loop terminate. The result equals the closed form. Once the limit is read, nothing in 3..rlim_cur-1 is open afterwards, whatever the outcome. On success 0, 1 and 2 are open too. |
| Descriptors.CloseLoopAsWritten | src/main.c:255-256 | No contract of its own: the close loop with its `int` counter, as written. `Descriptors.CloseLoopOverflow` characterises it. |
| Descriptors.CloseLoopOverflow | src/main.c:255-256 | With its `int` counter, the close loop run from 3 reaches the overflow of `fd++` exactly when the soft limit exceeds INT_MAX. Below that it closes 3..lim-1, the same table as the loop with an unbounded counter. |
| Descriptors.SanitizeGuarantees | src/main.c:252-272 | Success iff `getrlimit` works, the null device opens and the limit exceeds 3. On success, 0/1/2 are open; ones already open are untouched and the others are the null device; 3..lim-1 are closed; numbers at or above the limit are unchanged. |
| Security.Prepare | src/main.c:244-272 | No contract of its own: `clearenv` and descriptor sanitisation. `Security.PrepareFollows` and `Descriptors.SanitizeGuarantees` characterise it. |
| Security.DropGroups | src/main.c:276-332 | No contract of its own: the user lookup, `setgid`, `setgroups` and `seteuid(0)`. `Security.DropGroupsFollows`, `Security.RejectedUserChangesNothing` and `Security.SuccessfulIdentity` characterise it. |
| Security.InstallCaps | src/main.c:334-374 | No contract of its own: the libcap block. `Security.InstallCapsFollows` and `Security.CapabilitiesExact` characterise it. |
| Security.Detach | src/main.c:376-386 | No contract of its own: the `daemon` call. `Security.DetachFollows` and `Security.DetachedUnlessForeground` characterise it. |
| Security.InitSecurity | src/main.c:237-387 | Returns 0 or -1, and the environment is empty afterwards whatever the outcome. |
| Security.InitSecurityFollowsPlan | src/main.c:244-386 | Calls are made in the fixed order clearenv, fd sanitisation, getpwnam, setgid, setgroups, seteuid(0), cap_init, cap_set_flag x2, cap_set_proc, daemon. The run stops right after the first failing call; the result is 0 iff none fails. |
| Security.RejectedUserChangesNothing | src/main.c:276-305 | A missing user or uid 0 returns -1 right after the lookup. No setgid, setgroups, seteuid, capability or daemon call follows, and `unpriv_uid`, gid, groups, euid, caps and session are unchanged. |
| Security.UnprivUidOnlyAfterRootCheck | src/main.c:296-307 | `unpriv_uid` changes only to the named user's uid, and only when that uid is not 0. |
| Security.SetgroupsOutcomeIgnored | src/main.c:322-324 | The `setgroups` outcome never changes the result or the calls made. |
| Security.SuccessfulIdentity | src/main.c:276-332 | On success the user exists and is not root, and `unpriv_uid` is its uid. The gid is its primary group and euid is 0 again. Supplementary groups are cleared iff `setgroups` succeeded. Descriptors 0/1/2 are open, and every descriptor from 3 up to the soft limit is closed. |
| Security.CapabilitiesExact | src/main.c:334-374 | With libcap, success leaves exactly CAP_SYS_CHROOT, CAP_SETUID and CAP_NET_ADMIN permitted and effective and nothing inheritable. Without libcap the capability state is untouched. |
| Security.DaemonOnlyWhenDetaching | src/main.c:376-386 | `daemon` is called iff not in the foreground and every earlier step passed. |
| Security.DetachedUnlessForeground | src/main.c:380-386 | Success leaves the process detached iff the foreground flag was off (or it was already detached). Detaching puts 0/1/2 on the null device and the working directory at "/". |
| Pidfile.Decimal | src/main.c:192 | The `%d` text of the pid is non-empty and only digits, so it has no sign and no newline. |
| Pidfile.DecimalRoundTrip | src/main.c:192 | Reading the decimal pid text back gives the pid; there are no leading zeros. |
| Pidfile.SafeFopenW | src/main.c:150-175 | No contract of its own: `safe_fopen_w`. `Pidfile.CreatedEntryIsRegular` characterises it. |
| Pidfile.CreatedEntryIsRegular | src/main.c:150-175 | `safe_fopen_w` yields a stream iff the directory allows it, no directory is at the path, and `fstat` and `fdopen` succeed. What it created is an empty regular file. |
| Pidfile.CreatePidfileAsWritten | src/main.c:183-198 | `create_pidfile` as written returns 0 or -1. For every input, it returns 0 iff the directory allows it, no directory is at the path, `fstat` and `fdopen` succeed and `fprintf` succeeds; the flush in `fclose` plays no part. A regular file is then at the path. |
| Pidfile.CreatePidfile | src/main.c:150-198 | The corrected helper returns 0 or -1. It returns 0 iff the directory allows it, no directory is at the path, and `fstat`, `fdopen`, `fprintf` and the flush all succeed. The path then holds exactly the decimal pid, which reads back as the pid. No other path changes, and the file system is the one the code as written leaves. |
| Pidfile.DirectoryBlocksPidfile | src/main.c:150-175 | A directory at the pidfile path cannot be unlinked, so creation fails and nothing changes. |
| Pidfile.SecondCreateReplaces | src/main.c:150-198 | Creating the pidfile twice on one path succeeds again and holds the second pid. |
| Pidfile.RemovePidfile | src/main.c:201-205 | Returns 0 or -1. It returns 0 iff the directory allows it and something other than a directory is at the path. On success exactly that entry is gone; on failure nothing changes. |
| Pidfile.RemoveAfterCreate | src/main.c:183-205 | Removing a freshly created pidfile succeeds and leaves the file system as before, minus the stale entry at that path. |
| Pidfile.RemoveMissing | src/main.c:201-205 | Removing an absent pidfile returns -1 and changes nothing. |
| Pidfile.AsWrittenReportsUnwrittenPidfile | src/main.c:183-198 | As written, a failed flush in `fclose` still gives 0 while the pidfile stays empty. |
| Bootstrap.Boot | src/main.c:496-543 | No contract of its own: `main` after the command line. `Bootstrap.PhasesFollowSchedule` characterises it. |
| Bootstrap.Main | src/main.c:57-62 | The exit status is always 0, 1 or 2. It is 2, the status for a command-line syntax error, exactly when the command line itself returns 2. |
| Bootstrap.ParseExitCodes | src/main.c:449-485 | The command line alone exits only with 0, 1 or 2. |
| Bootstrap.CommandLineExitRunsNothing | src/main.c:449-485 | A command-line exit takes no further step and changes neither process nor file system. |
| Bootstrap.PhasesFollowSchedule | src/main.c:496-543 | The steps taken are a prefix of: config check (no server name), chroot check, driver check, init_security, create pidfile, service, remove pidfile. The whole schedule runs iff every check and init_security pass. |
| Bootstrap.BootExitCodes | src/main.c:496-543 | After the command line `main` exits only with 0 or 1. Unless the service ran, it exits with 1 and no file has changed. |
| Bootstrap.ChrootFailureStops | src/main.c:503-521 | With MIREDO_CHROOT built in and the directory missing, not a directory or not searchable, `main` exits 1 right after the chroot check. It runs neither the driver check nor `init_security`, and process and file system are untouched. |
| Bootstrap.UnreadableConfigStopsFirst | src/main.c:496-502 | Without a server name, an unreadable config gives exit 1 after the config check alone. The process is untouched. |
| Bootstrap.DriverFailureSkipsSecurity | src/main.c:525-526 | A failed driver check gives exit 1 without calling `init_security`. |
| Bootstrap.SecurityFailureExits | src/main.c:525-526 | A failing `init_security` gives exit 1 before any pidfile step. |
| Bootstrap.PidfileNeverDecides | src/main.c:528-534 | Pidfile outcomes (and whether a pidfile is built in) never change the exit status, the steps or the process. |
| Bootstrap.ServiceThenRemoval | src/main.c:536-543 | Once the service runs, pidfile removal is the next and last step. The exit status is then 0 iff the service returned 0. |
| Bootstrap.ExitZeroIff | src/main.c:464-543 | `main` exits 0 iff the command line itself returns 0, or the service ran and returned 0. The command line returns 0 exactly when it reaches -h or -V after options that were all accepted, so `-u a -u b -h` exits 2. |
| Bootstrap.ServiceStartsSecured | src/main.c:525-539 | The service starts only with an empty environment, a non-root `unpriv_uid`, 0/1/2 open, and every descriptor from 3 up to the soft limit closed. |
| Bootstrap.UnknownUserScenario | src/main.c:277-294 | `-u nosuchuser` gives exit 1, with the user lookup as the last call. |
| Bootstrap.TwoUsersScenario | src/main.c:441-469 | `-u alice -u bob` gives exit 2, reports both values and runs nothing. |
| Bootstrap.PidfileLeftWhenRemovalRefused | src/main.c:539-541 | If the final `unlink` is refused (the directory no longer lets the process remove entries after the service), the file system at exit is the one the service started with, so a created pidfile is left behind. |
| Bootstrap.HappyPathScenario | src/main.c:525-543 | On the full background path, with the final `unlink` allowed, the service runs with the pidfile holding the pid. The process is detached, the pidfile is gone at exit and the status is 0. |

## Findings

| source | as written | input that shows it | evidently intended | confidence | as-written member | corrected member |
|---|---|---|---|---|---|---|
| src/main.c:189-197 | `create_pidfile` returns 0 when `fprintf` succeeds and ignores `fclose`. On a fully buffered stream the pid only reaches the file in the flush that `fclose` performs. | A pidfile directory with no space left: `fprintf` fills the buffer and returns the digit count, the flush fails with ENOSPC, and the return value is 0 with an empty pidfile | Return 0 only if the pid text was written, i.e. also check `fclose` | medium; not executed | Pidfile.CreatePidfileAsWritten | Pidfile.CreatePidfile |
| src/main.c:255-256 | `fd` is an `int`, compared after conversion with the unsigned `rlim_cur`, and `fd++` runs until `fd` reaches it. | A platform whose `getrlimit(RLIMIT_NOFILE)` reports RLIM_INFINITY, or any soft limit above INT_MAX: `fd` reaches INT_MAX while still below the limit, and `fd++` overflows, which is undefined behaviour | A loop bound no descriptor number can exceed, e.g. a counter as wide as `rlim_t` or a cap at INT_MAX | low (Linux refuses such a limit for RLIMIT_NOFILE); not executed | Descriptors.CloseLoopAsWritten | Descriptors.SanitizeDescriptors |

For the first row, `Pidfile.AsWrittenReportsUnwrittenPidfile` exhibits
the discrepancy on one input, and the contract of
`Pidfile.CreatePidfileAsWritten` shows it for every input: the flush
plays no part in its success condition. The contract of
`Pidfile.CreatePidfile` states the intended property. `main` discards
the result, so the exit status is unaffected.

For the second row, `Descriptors.CloseLoopOverflow` shows that the loop
as written (`Descriptors.CloseLoopAsWritten`) reaches the overflow
exactly when the limit exceeds INT_MAX. The rest of the model uses
`Descriptors.SanitizeDescriptors`, whose counter cannot overflow. Its
contract says that it terminates and closes 3..lim-1 for every limit.

## Left out

- Message text, `gettext`/locale setup, `strerror`, and the order of the arguments `error_dup` prints. These are presentation only. Each exit instead carries a `Diagnostic` saying which report is made.
- `getopt_long` itself (argument permutation, long-option matching). The model takes its sequence of returned codes and the remaining positional arguments as input.
- The real behaviour of `getpwnam`, `setgid`, `setgroups`, `seteuid`, the libcap calls, `daemon`, `getrlimit`, `access` and `stat` is left out: they are foreign calls. Each is an oracle result, with the effect on the process applied when it succeeds. A failed `getpwnam` with errno set is the same as a missing entry, since both return NULL.
- `libtun6_driver_diagnose` and `miredo(conffile, servername)` are opaque collaborators. They appear only as a success flag and an integer result.
- The BR_SYSCONFDIR path construction is a `defaultConf` parameter. The MIREDO_CHROOT probe (stat, S_ISDIR, access X_OK) is one boolean.
- `cap_free` is left out: it only releases memory.
- The `#if 0` helpers `error_qty` and `error_missing` are left out: they are compiled out and only print a message. The fallback `clearenv` (used without HAVE_CLEARENV) sets `environ` to NULL. The model treats it like the library `clearenv`: the environment becomes empty.
- Races between `unlink` and the exclusive `open`, signals, and the fork inside `daemon` are left out. The model is sequential, and `getpid` after `init_security` is a parameter.
- Security.Detach: without -f, the process that was started exits 0 inside `daemon`, once the fork succeeds. `Run.exit` is the status of the child that continues, and a failure after the fork is seen only by that child.
- Descriptors.SanitizeDescriptors: the soft limit is a finite natural number and the loop counter is unbounded. The `int` counter of the code is modelled separately by `Descriptors.CloseLoopAsWritten` (see Findings).
- Pidfile.CreatePidfile: when `fprintf` or the flush fails, the model leaves the new file empty. It does not model partially written text.
- Security.InitSecurity: `setgid` sets a single group id. The real, effective and saved gids are not distinguished, and neither are the real and saved uids. `seteuid(0)` only sets the effective uid.
- Bootstrap.Boot: the service is assumed to leave the file system and the process context unchanged. Its own identity changes, such as the switch to `unpriv_uid`, are not modelled, and `Run.ctx` is the context the service starts with. `remove_pidfile` acts on the file system as `create_pidfile` left it. Whether its `unlink` is still allowed after the service is a separate oracle result (`World.removeWritable`), since the service may have changed the process identity.
