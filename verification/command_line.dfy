/**
  The command-line decision logic of miredo's `main` (src/main.c): the
  `getopt_long` loop with its one-time settings, the positional server
  name, and the defaults applied afterwards.

  `getopt_long` itself is not modelled; its results are the input, as the
  sequence of option codes (with their `optarg`) it returns before -1,
  followed by the positional arguments left from `optind`.
*/
module CommandLine {
  import opened Common

  /** One value returned by `getopt_long`, with the `optarg` it set. */
  datatype OptEvent = OptEvent(code: char, optarg: string)

  /** What `main` reports on the way out, instead of the message text. */
  datatype Diagnostic =
    | QuickUsage                                                // '?'
    | UsageText                                                 // -h
    | VersionText                                               // -V
    | DuplicateSetting(opt: char, previous: string, rejected: string)
    | UnknownOptionCode(code: char)                             // default branch
    | ExtraParameter(extra: string)

  /** The variables the option loop writes; NULL is `None`. */
  datatype Settings = Settings(username: Option<string>, conffile: Option<string>, foreground: bool)

  /** The resolved invocation handed to the rest of `main`. */
  datatype Invocation = Invocation(username: string, conffile: string,
                                   servername: Option<string>, foreground: bool)

  /** Either carry on with an invocation or return `code` from `main`. */
  datatype CliOutcome = Proceed(inv: Invocation) | Exit(code: int, diag: Diagnostic)

  /** The effect of one pass through the `switch`. */
  datatype StepOutcome = Continue(settings: Settings) | Stop(code: int, diag: Diagnostic)

  /** MIREDO_DEFAULT_USERNAME. */
  const DefaultUsername: string := "nobody"

  /** Settings before the first option: everything NULL, flags zeroed. */
  const Initial: Settings := Settings(None, None, false)

  /** The codes after which the loop keeps going (when not a duplicate). */
  predicate IsSettingCode(ch: char) {
    ch == 'c' || ch == 'f' || ch == 'u'
  }

  /** One pass through the `switch` on the code `getopt_long` returned. */
  function Step(s: Settings, e: OptEvent): StepOutcome
  {
    if e.code == '?' then Stop(2, QuickUsage)
    else if e.code == 'c' then
      if s.conffile.Some? then Stop(2, DuplicateSetting('c', s.conffile.value, e.optarg))
      else Continue(s.(conffile := Some(e.optarg)))
    else if e.code == 'f' then Continue(s.(foreground := true))
    else if e.code == 'h' then Stop(0, UsageText)
    else if e.code == 'u' then
      if s.username.Some? then Stop(2, DuplicateSetting('u', s.username.value, e.optarg))
      else Continue(s.(username := Some(e.optarg)))
    else if e.code == 'V' then Stop(0, VersionText)
    else Stop(1, UnknownOptionCode(e.code))
  }

  /** The `while` loop over the codes: the first `return` ends it. */
  function RunOptions(s: Settings, events: seq<OptEvent>): StepOutcome
    decreases |events|
  {
    if |events| == 0 then Continue(s)
    else match Step(s, events[0])
      case Stop(code, d) => Stop(code, d)
      case Continue(s') => RunOptions(s', events[1..])
  }

  /**
    `main` up to the configuration-file default: the option loop, at most
    one positional server name, then the defaults for the user name and
    the configuration file (`defaultConf` stands for the path that
    BR_SYSCONFDIR builds).
  */
  function Parse(events: seq<OptEvent>, positional: seq<string>, defaultConf: string): CliOutcome
  {
    match RunOptions(Initial, events)
    case Stop(code, d) => Exit(code, d)
    case Continue(s) =>
      if |positional| > 1 then Exit(2, ExtraParameter(positional[1]))
      else Proceed(Invocation(
        s.username.GetOr(DefaultUsername),
        s.conffile.GetOr(defaultConf),
        if |positional| == 1 then Some(positional[0]) else None,
        s.foreground))
  }

  // ---------------------------------------------------------------------
  // A declarative reading of the option rules, independent of the loop.
  // ---------------------------------------------------------------------

  /** How many times `getopt_long` returned `ch`. */
  function CountCode(events: seq<OptEvent>, ch: char): nat
    decreases |events|
  {
    if |events| == 0 then 0
    else (if events[0].code == ch then 1 else 0) + CountCode(events[1..], ch)
  }

  /** The argument of the first occurrence of `ch`, if any. */
  function FirstArg(events: seq<OptEvent>, ch: char): Option<string>
    decreases |events|
  {
    if |events| == 0 then None
    else if events[0].code == ch then Some(events[0].optarg)
    else FirstArg(events[1..], ch)
  }

  /** Every code is one of -c, -f, -u. */
  predicate OnlySettings(events: seq<OptEvent>) {
    forall i :: 0 <= i < |events| ==> IsSettingCode(events[i].code)
  }

  /** A one-time setting already held counts as one earlier occurrence. */
  function Held(o: Option<string>): nat {
    if o.Some? then 1 else 0
  }

  /** The loop runs to completion exactly when only -c/-f/-u occur and neither
      one-time setting is given twice (counting what `s` already holds); the
      settings it ends with are the first value of each and whether -f occurred. */
  lemma {:induction false} RunOptionsCharacterized(s: Settings, events: seq<OptEvent>)
    ensures RunOptions(s, events).Continue? <==>
              OnlySettings(events)
              && Held(s.conffile) + CountCode(events, 'c') <= 1
              && Held(s.username) + CountCode(events, 'u') <= 1
    ensures RunOptions(s, events).Continue? ==>
              var r := RunOptions(s, events).settings;
              && r.conffile == (if s.conffile.Some? then s.conffile else FirstArg(events, 'c'))
              && r.username == (if s.username.Some? then s.username else FirstArg(events, 'u'))
              && r.foreground == (s.foreground || CountCode(events, 'f') > 0)
    decreases |events|
  {
    if |events| == 0 {
    } else {
      var e := events[0];
      var rest := events[1..];
      assert OnlySettings(events) ==> OnlySettings(rest) by {
        if OnlySettings(events) {
          forall i | 0 <= i < |rest| ensures IsSettingCode(rest[i].code) {
            assert rest[i] == events[i + 1];
          }
        }
      }
      match Step(s, e)
      case Stop(code, d) => {
        assert !IsSettingCode(e.code)
               || (e.code == 'c' && s.conffile.Some?)
               || (e.code == 'u' && s.username.Some?);
        if !IsSettingCode(e.code) {
          assert !OnlySettings(events) by { assert !IsSettingCode(events[0].code); }
        }
      }
      case Continue(s') => {
        RunOptionsCharacterized(s', rest);
        assert IsSettingCode(e.code);
        assert OnlySettings(rest) ==> OnlySettings(events) by {
          if OnlySettings(rest) {
            forall i | 0 <= i < |events| ensures IsSettingCode(events[i].code) {
              if i > 0 { assert events[i] == rest[i - 1]; }
            }
          }
        }
      }
    }
  }

  /** `Parse` proceeds exactly when the options are only -c/-f/-u, neither -c
      nor -u is repeated, and at most one positional argument remains; the
      invocation then holds the first -c/-u values or the defaults, the
      server name, and whether -f occurred. */
  lemma ParseCharacterized(events: seq<OptEvent>, positional: seq<string>, defaultConf: string)
    ensures Parse(events, positional, defaultConf).Proceed? <==>
              OnlySettings(events) && CountCode(events, 'c') <= 1
              && CountCode(events, 'u') <= 1 && |positional| <= 1
    ensures Parse(events, positional, defaultConf).Proceed? ==>
              Parse(events, positional, defaultConf).inv ==
                Invocation(FirstArg(events, 'u').GetOr(DefaultUsername),
                           FirstArg(events, 'c').GetOr(defaultConf),
                           if |positional| == 1 then Some(positional[0]) else None,
                           CountCode(events, 'f') > 0)
  {
    RunOptionsCharacterized(Initial, events);
  }

  // ---------------------------------------------------------------------
  // Early exits and repeated options.
  // ---------------------------------------------------------------------

  /** Running the loop over `a + b` is running it over `a`, then over `b`
      from where `a` left off, unless `a` already returned. */
  lemma {:induction false} RunOptionsAppend(s: Settings, a: seq<OptEvent>, b: seq<OptEvent>)
    ensures RunOptions(s, a + b) ==
              match RunOptions(s, a)
              case Stop(code, d) => Stop(code, d)
              case Continue(s') => RunOptions(s', b)
    decreases |a|
  {
    if |a| == 0 {
      assert a + b == b;
    } else {
      assert (a + b)[0] == a[0];
      assert (a + b)[1..] == a[1..] + b;
      match Step(s, a[0])
      case Stop(_, _) =>
      case Continue(s') => RunOptionsAppend(s', a[1..], b);
    }
  }

  /** The loop ends with status 0 exactly when it reaches a -h or -V with
      every option before it accepted: an earlier error (an unknown code,
      a repeated -c or -u) returns its own status first. */
  lemma {:induction false} RunOptionsSucceedsEarly(s: Settings, events: seq<OptEvent>)
    ensures (RunOptions(s, events).Stop? && RunOptions(s, events).code == 0) <==>
              exists i :: 0 <= i < |events| && RunOptions(s, events[..i]).Continue?
                          && (events[i].code == 'h' || events[i].code == 'V')
    decreases |events|
  {
    if |events| > 0 {
      var rest := events[1..];
      assert events[..0] == [];
      match Step(s, events[0])
      case Stop(code, d) => {
        forall i | 0 < i <= |events| ensures RunOptions(s, events[..i]).Stop? {
          assert events[..i][0] == events[0];
        }
      }
      case Continue(s') => {
        RunOptionsSucceedsEarly(s', rest);
        forall i | 0 < i <= |events|
          ensures RunOptions(s, events[..i]) == RunOptions(s', rest[..i - 1])
        {
          assert events[..i][0] == events[0];
          assert events[..i][1..] == rest[..i - 1];
        }
        if exists i :: 0 <= i < |rest| && RunOptions(s', rest[..i]).Continue?
                       && (rest[i].code == 'h' || rest[i].code == 'V') {
          var i :| 0 <= i < |rest| && RunOptions(s', rest[..i]).Continue?
                   && (rest[i].code == 'h' || rest[i].code == 'V');
          assert events[i + 1] == rest[i];
          assert RunOptions(s, events[..i + 1]) == RunOptions(s', rest[..i]);
        }
        if exists i :: 0 <= i < |events| && RunOptions(s, events[..i]).Continue?
                       && (events[i].code == 'h' || events[i].code == 'V') {
          var i :| 0 <= i < |events| && RunOptions(s, events[..i]).Continue?
                   && (events[i].code == 'h' || events[i].code == 'V');
          assert i > 0;
          assert rest[i - 1] == events[i];
        }
      }
    }
  }

  /** `main` returns 0 before doing anything else exactly when -h or -V is
      read after options that were all accepted. */
  lemma CommandLineSuccess(events: seq<OptEvent>, positional: seq<string>, defaultConf: string)
    ensures (Parse(events, positional, defaultConf).Exit?
             && Parse(events, positional, defaultConf).code == 0) <==>
              exists i :: 0 <= i < |events| && RunOptions(Initial, events[..i]).Continue?
                          && (events[i].code == 'h' || events[i].code == 'V')
  {
    RunOptionsSucceedsEarly(Initial, events);
  }

  /** Codes that make `main` return as soon as the loop reads them. */
  predicate IsExitCode(ch: char) {
    !IsSettingCode(ch)
  }

  /** The exit status and report for an option that ends the loop at once:
      -h and -V succeed, '?' is a usage error, any other code is reported
      as a bug with status 1. */
  function ImmediateExit(e: OptEvent): (r: CliOutcome)
    requires IsExitCode(e.code)
    ensures r.Exit?
    ensures r.code == 0 <==> e.code == 'h' || e.code == 'V'
    ensures r.code == 2 <==> e.code == '?'
    ensures r.code == 1 <==> e.code != 'h' && e.code != 'V' && e.code != '?'
  {
    match Step(Initial, e)
    case Stop(code, d) => Exit(code, d)
    case Continue(_) => assert false; Exit(1, UnknownOptionCode(e.code))
  }

  /** After a run of -c/-f/-u that is itself accepted, an exiting option
      decides the outcome regardless of what follows it. */
  lemma ExitOptionDecides(pre: seq<OptEvent>, e: OptEvent, post: seq<OptEvent>,
                          positional: seq<string>, defaultConf: string)
    requires RunOptions(Initial, pre).Continue?
    requires IsExitCode(e.code)
    ensures Parse(pre + [e] + post, positional, defaultConf) == ImmediateExit(e)
  {
    var s := RunOptions(Initial, pre).settings;
    RunOptionsAppend(Initial, pre, [e] + post);
    assert pre + [e] + post == pre + ([e] + post);
    assert ([e] + post)[0] == e;
    assert ([e] + post)[1..] == post;
  }

  /** A second -c or -u is a usage error that reports the first value as
      the one kept and the second as the one rejected. */
  lemma DuplicateKeepsFirst(pre: seq<OptEvent>, ch: char, first: string, mid: seq<OptEvent>,
                            second: string, post: seq<OptEvent>,
                            positional: seq<string>, defaultConf: string)
    requires ch == 'c' || ch == 'u'
    requires OnlySettings(pre + mid)
    requires CountCode(pre + mid, ch) == 0
    requires CountCode(pre + mid, OtherSetting(ch)) <= 1
    ensures Parse(pre + [OptEvent(ch, first)] + mid + [OptEvent(ch, second)] + post,
                  positional, defaultConf)
            == Exit(2, DuplicateSetting(ch, first, second))
  {
    var events := pre + [OptEvent(ch, first)] + mid + [OptEvent(ch, second)] + post;
    var a := pre + [OptEvent(ch, first)] + mid;
    assert events == a + ([OptEvent(ch, second)] + post);
    CountAppend(pre, mid, ch);
    CountAppend(pre, mid, 'c');
    CountAppend(pre, mid, 'u');
    var other := OtherSetting(ch);
    CountSingleton(OptEvent(ch, first), ch);
    CountSingleton(OptEvent(ch, first), other);
    CountAppend(pre + [OptEvent(ch, first)], mid, ch);
    CountAppend(pre + [OptEvent(ch, first)], mid, other);
    CountAppend(pre, [OptEvent(ch, first)], ch);
    CountAppend(pre, [OptEvent(ch, first)], other);
    assert OnlySettings(a) by {
      forall i | 0 <= i < |a| ensures IsSettingCode(a[i].code) {
        if i < |pre| { assert a[i] == (pre + mid)[i]; }
        else if i > |pre| { assert a[i] == (pre + mid)[i - 1]; }
      }
    }
    RunOptionsCharacterized(Initial, a);
    var s := RunOptions(Initial, a).settings;
    assert FirstArg(pre + [OptEvent(ch, first)], ch) == Some(first) by {
      FirstArgAbsent(pre, [OptEvent(ch, first)], ch);
    }
    FirstArgPrefix(pre + [OptEvent(ch, first)], mid, ch);
    RunOptionsAppend(Initial, a, [OptEvent(ch, second)] + post);
    assert ([OptEvent(ch, second)] + post)[0] == OptEvent(ch, second);
  }

  /** The one-time setting that is not `ch`. */
  function OtherSetting(ch: char): char {
    if ch == 'c' then 'u' else 'c'
  }

  /** Giving -f again changes nothing: the flag is simply set once more,
      whatever argument text either occurrence carries. */
  lemma ForegroundRepeatHarmless(pre: seq<OptEvent>, post: seq<OptEvent>, a: string, b: string,
                                 positional: seq<string>, defaultConf: string)
    ensures Parse(pre + [OptEvent('f', a)] + post, positional, defaultConf)
         == Parse(pre + [OptEvent('f', a), OptEvent('f', b)] + post, positional, defaultConf)
  {
    var f, g := OptEvent('f', a), OptEvent('f', b);
    RunOptionsAppend(Initial, pre, [f] + post);
    RunOptionsAppend(Initial, pre, [f, g] + post);
    assert pre + [f] + post == pre + ([f] + post);
    assert pre + [f, g] + post == pre + ([f, g] + post);
    assert ([f] + post)[0] == f && ([f] + post)[1..] == post;
    assert ([f, g] + post)[0] == f && ([f, g] + post)[1..] == [g] + post;
    assert ([g] + post)[0] == g && ([g] + post)[1..] == post;
  }

  /** Options accepted, a second positional argument is a usage error that
      names it; with at most one, the first becomes the server name. */
  lemma PositionalArguments(events: seq<OptEvent>, positional: seq<string>, defaultConf: string)
    requires RunOptions(Initial, events).Continue?
    ensures |positional| > 1 ==>
              Parse(events, positional, defaultConf) == Exit(2, ExtraParameter(positional[1]))
    ensures |positional| == 1 ==>
              Parse(events, positional, defaultConf).Proceed?
              && Parse(events, positional, defaultConf).inv.servername == Some(positional[0])
    ensures |positional| == 0 ==>
              Parse(events, positional, defaultConf).Proceed?
              && Parse(events, positional, defaultConf).inv.servername == None
  {
  }

  /** Without -u the user name is "nobody"; without -c the configuration
      file is the built-in default. */
  lemma Defaults(events: seq<OptEvent>, positional: seq<string>, defaultConf: string)
    requires Parse(events, positional, defaultConf).Proceed?
    ensures CountCode(events, 'u') == 0 ==> Parse(events, positional, defaultConf).inv.username == "nobody"
    ensures CountCode(events, 'c') == 0 ==> Parse(events, positional, defaultConf).inv.conffile == defaultConf
  {
    ParseCharacterized(events, positional, defaultConf);
    if CountCode(events, 'u') == 0 { FirstArgNone(events, 'u'); }
    if CountCode(events, 'c') == 0 { FirstArgNone(events, 'c'); }
  }

  // Counting helpers.

  lemma {:induction false} CountAppend(a: seq<OptEvent>, b: seq<OptEvent>, ch: char)
    ensures CountCode(a + b, ch) == CountCode(a, ch) + CountCode(b, ch)
    decreases |a|
  {
    if |a| == 0 {
      assert a + b == b;
    } else {
      assert (a + b)[1..] == a[1..] + b;
      CountAppend(a[1..], b, ch);
    }
  }

  lemma CountSingleton(e: OptEvent, ch: char)
    ensures CountCode([e], ch) == if e.code == ch then 1 else 0
  {
    assert [e][1..] == [];
  }

  lemma {:induction false} FirstArgAbsent(a: seq<OptEvent>, b: seq<OptEvent>, ch: char)
    requires CountCode(a, ch) == 0
    ensures FirstArg(a + b, ch) == FirstArg(b, ch)
    decreases |a|
  {
    if |a| == 0 {
      assert a + b == b;
    } else {
      assert (a + b)[0] == a[0];
      assert (a + b)[1..] == a[1..] + b;
      FirstArgAbsent(a[1..], b, ch);
    }
  }

  lemma {:induction false} FirstArgPrefix(a: seq<OptEvent>, b: seq<OptEvent>, ch: char)
    requires FirstArg(a, ch).Some?
    ensures FirstArg(a + b, ch) == FirstArg(a, ch)
    decreases |a|
  {
    assert (a + b)[0] == a[0];
    if a[0].code != ch {
      assert (a + b)[1..] == a[1..] + b;
      FirstArgPrefix(a[1..], b, ch);
    }
  }

  lemma {:induction false} FirstArgNone(events: seq<OptEvent>, ch: char)
    requires CountCode(events, ch) == 0
    ensures FirstArg(events, ch) == None
    decreases |events|
  {
    if |events| > 0 {
      FirstArgNone(events[1..], ch);
    }
  }
}
