/** `main`: fold the options into the environment, check that a command is
    left, build its argument vector, set LD_PRELOAD and exec it. */
module Launcher {
  import opened Wrappers
  import opened Environment
  import opened Options
  import opened Preload

  /** A NULL-terminated `char *` vector: None is the NULL pointer. */
  type ArgVector = seq<Option<string>>

  /** How a run ends: `main` returns a status, or the process image is
      replaced by the target command with the given arguments and
      environment. */
  datatype Outcome = Exit(code: int) | Exec(argv: ArgVector, env: Env)

  /** The `malloc`/`memcpy` of `newargv`: the words, then the terminator. */
  function Terminated(args: seq<string>): (v: ArgVector)
    ensures |v| == |args| + 1
    ensures v[|args|] == None
    ensures forall k :: 0 <= k < |args| ==> v[k] == Some(args[k])
    decreases |args|
  {
    if args == [] then [None] else [Some(args[0])] + Terminated(args[1..])
  }

  /** How execvp reads a vector: the words before the first NULL. */
  function ReadArgv(v: ArgVector): seq<string>
    decreases |v|
  {
    if v == [] || v[0].None? then [] else [v[0].value] + ReadArgv(v[1..])
  }

  /** Reading a terminated vector gives back exactly its words. */
  lemma {:induction false} ReadTerminated(args: seq<string>)
    ensures ReadArgv(Terminated(args)) == args
    decreases |args|
  {
    if args != [] {
      var v := Terminated(args);
      assert v[1..] == Terminated(args[1..]);
      ReadTerminated(args[1..]);
    }
  }

  /** `newargv`: `argc - optind + 1` slots holding `argv[optind..argc)` in
      order and then NULL. */
  function NewArgv(argv: seq<string>, optind: nat): (v: ArgVector)
    requires optind <= |argv|
    ensures |v| == |argv| - optind + 1
    ensures forall k :: 0 <= k < |argv| - optind ==> v[k] == Some(argv[optind + k])
    ensures v[|argv| - optind] == None
    ensures ReadArgv(v) == argv[optind..]
  {
    ReadTerminated(argv[optind..]);
    Terminated(argv[optind..])
  }

  /** Everything `main` does before calling execvp. `opts` and `optind` are
      what getopt reported, and `argv` is the vector as getopt leaves it:
      GNU getopt_long, given "i:e:s:r:dhv" without a leading '+', permutes
      `argv` in place so that the options come before the remaining words,
      and lines 116-117 copy from that permuted vector (so `zzuf cat -d file`
      execs `cat file` with ZZUF_DEBUG set). `libdir` is the configure-time
      LIBDIR; `readable` answers `access(path, R_OK) == 0`. */
  function Prepare(argv: seq<string>, opts: seq<Opt>, optind: nat, env: Env,
                   libdir: string, readable: string -> bool): (r: Outcome)
    ensures r.Exit? <==> !NoQuit(opts) || optind >= |argv|
    ensures !NoQuit(opts) ==> r.Exit? && (r.code == 0 || r.code == 1)
    ensures NoQuit(opts) && optind >= |argv| ==> r == Exit(-1)
    ensures r.Exec? ==> |r.argv| == |argv| - optind + 1
                        && r.argv[0] == Some(argv[optind])
                        && r.argv[|argv| - optind] == None
                        && ReadArgv(r.argv) == argv[optind..]
    ensures r.Exec? ==> Lookup(r.env, LD_PRELOAD) == Some(SelectPreload(argv[0], libdir, readable))
  {
    match ApplyOptions(opts, env)
    case Stop(code) => Exit(code)
    case Continue(e) =>
      if optind >= |argv| then Exit(-1)
      else Exec(NewArgv(argv, optind), SetLdPreload(argv[0], libdir, readable, e))
  }

  /** The whole of `main`, over the same getopt-permuted `argv` as Prepare.
      `execFails` answers whether execvp returns for the given vector and
      environment; when it does, `main` returns -1. */
  function Main(argv: seq<string>, opts: seq<Opt>, optind: nat, env: Env,
                libdir: string, readable: string -> bool,
                execFails: (ArgVector, Env) -> bool): (r: Outcome)
    ensures r.Exit? ==> r.code == 0 || r.code == 1 || r.code == -1
    ensures (var p := Prepare(argv, opts, optind, env, libdir, readable);
             r.Exec? <==> p.Exec? && !execFails(p.argv, p.env))
    ensures (var p := Prepare(argv, opts, optind, env, libdir, readable);
             p.Exit? ==> r == p)
    ensures r.Exec? ==> r == Prepare(argv, opts, optind, env, libdir, readable)
    ensures (var p := Prepare(argv, opts, optind, env, libdir, readable);
             p.Exec? && execFails(p.argv, p.env) ==> r == Exit(-1))
  {
    var p := Prepare(argv, opts, optind, env, libdir, readable);
    if p.Exec? && execFails(p.argv, p.env) then Exit(-1) else p
  }

  /** The status the invoking shell sees: `main`'s return value truncated
      to its low eight bits, so `return -1` reads as 255. */
  function ExitStatus(code: int): (s: nat)
    ensures s < 256 && (code - s) % 256 == 0
  {
    code % 256
  }

  /** The environment handed to the target: the requested configuration
      over the inherited entries, then LD_PRELOAD; and every variable that
      is neither a ZZUF_* one nor LD_PRELOAD is inherited unchanged. */
  lemma ExecEnvironment(argv: seq<string>, opts: seq<Opt>, optind: nat, env: Env,
                        libdir: string, readable: string -> bool)
    requires Prepare(argv, opts, optind, env, libdir, readable).Exec?
    ensures Prepare(argv, opts, optind, env, libdir, readable).env
         == SetLdPreload(argv[0], libdir, readable, Propagate(ConfigOf(opts), env))
    ensures forall k :: k !in ZZUF_VARS && k != LD_PRELOAD ==>
              Lookup(Prepare(argv, opts, optind, env, libdir, readable).env, k) == Lookup(env, k)
  {
    assert NoQuit(opts);
    ApplyOptionsIsPropagate(opts, env);
  }

  /** Help, version and unknown options return before LD_PRELOAD is set or
      exec is tried, with the status of the first such option. */
  lemma QuitReturnsFirstCode(argv: seq<string>, opts: seq<Opt>, optind: nat, env: Env,
                             libdir: string, readable: string -> bool, i: nat)
    requires IsFirstQuit(opts, i)
    ensures Prepare(argv, opts, optind, env, libdir, readable) == Exit(Classify(opts[i]).code)
  {
    var r := ApplyOptions(opts, env);
    assert r.Stop?;
    var i' :| IsFirstQuit(opts, i') && Classify(opts[i']) == Quit(r.code);
    FirstQuitUnique(opts, i, i');
  }

  /** The statuses the shell can see from `main`: 0 exactly when the first
      option that ends the run is help or version, 1 exactly when it is any
      other (invalid) option, and 255 (the `return -1`) exactly when every
      option passed and either no command is left or execvp failed. */
  lemma MainExitStatus(argv: seq<string>, opts: seq<Opt>, optind: nat, env: Env,
                       libdir: string, readable: string -> bool,
                       execFails: (ArgVector, Env) -> bool)
    ensures var r := Main(argv, opts, optind, env, libdir, readable, execFails);
            r.Exit? ==> ExitStatus(r.code) == 0 || ExitStatus(r.code) == 1 || ExitStatus(r.code) == 255
    ensures var r := Main(argv, opts, optind, env, libdir, readable, execFails);
            var p := Prepare(argv, opts, optind, env, libdir, readable);
            (r.Exit? && ExitStatus(r.code) == 255)
              <==> NoQuit(opts) && (optind >= |argv| || execFails(p.argv, p.env))
    ensures var r := Main(argv, opts, optind, env, libdir, readable, execFails);
            (r.Exit? && ExitStatus(r.code) == 1)
              <==> exists i :: IsFirstQuit(opts, i) && !(opts[i].code == 'h' || opts[i].code == 'v')
    ensures var r := Main(argv, opts, optind, env, libdir, readable, execFails);
            (r.Exit? && ExitStatus(r.code) == 0)
              <==> exists i :: IsFirstQuit(opts, i) && (opts[i].code == 'h' || opts[i].code == 'v')
  {
    if !NoQuit(opts) {
      var f := ApplyOptions(opts, env);
      var i :| IsFirstQuit(opts, i) && Classify(opts[i]) == Quit(f.code);
      QuitStatus(argv, opts, optind, env, libdir, readable, execFails, i);
      forall j | IsFirstQuit(opts, j)
        ensures j == i
      {
        FirstQuitUnique(opts, i, j);
      }
    } else {
      NoQuitStatus(argv, opts, optind, env, libdir, readable, execFails);
      assert forall j :: !IsFirstQuit(opts, j);
    }
  }

  /** When an option ends the run, the status is 0 or 1 according to that
      first option alone. */
  lemma QuitStatus(argv: seq<string>, opts: seq<Opt>, optind: nat, env: Env,
                   libdir: string, readable: string -> bool,
                   execFails: (ArgVector, Env) -> bool, i: nat)
    requires IsFirstQuit(opts, i)
    ensures var r := Main(argv, opts, optind, env, libdir, readable, execFails);
            r.Exit? && ExitStatus(r.code) == (if opts[i].code == 'h' || opts[i].code == 'v' then 0 else 1)
  {
    QuitReturnsFirstCode(argv, opts, optind, env, libdir, readable, i);
    assert ExitStatus(0) == 0 && ExitStatus(1) == 1;
  }

  /** When every option passes, `main` either execs or returns -1. */
  lemma NoQuitStatus(argv: seq<string>, opts: seq<Opt>, optind: nat, env: Env,
                     libdir: string, readable: string -> bool,
                     execFails: (ArgVector, Env) -> bool)
    requires NoQuit(opts)
    ensures var r := Main(argv, opts, optind, env, libdir, readable, execFails);
            var p := Prepare(argv, opts, optind, env, libdir, readable);
            r.Exit? <==> optind >= |argv| || execFails(p.argv, p.env)
    ensures var r := Main(argv, opts, optind, env, libdir, readable, execFails);
            r.Exit? ==> ExitStatus(r.code) == 255
  {
    assert ExitStatus(-1) == 255;
  }

  /** `zzuf -s 42 -r 0.01 -- cat file.txt`: exec of `cat file.txt` with the
      seed and ratio visible in its environment. */
  lemma SeedRatioScenario(env: Env, libdir: string, readable: string -> bool)
    ensures var argv := ["zzuf", "-s", "42", "-r", "0.01", "--", "cat", "file.txt"];
            var r := Prepare(argv, [Opt('s', "42"), Opt('r', "0.01")], 6, env, libdir, readable);
            && r.Exec?
            && r.argv == [Some("cat"), Some("file.txt"), None]
            && Lookup(r.env, ZZUF_SEED) == Some("42")
            && Lookup(r.env, ZZUF_RATIO) == Some("0.01")
  {
    var argv := ["zzuf", "-s", "42", "-r", "0.01", "--", "cat", "file.txt"];
    var opts := [Opt('s', "42"), Opt('r', "0.01")];
    var e := SetEnv(SetEnv(env, ZZUF_SEED, "42"), ZZUF_RATIO, "0.01");
    assert ApplyOptions(opts, env) == Continue(e) by {
      assert opts[1..] == [Opt('r', "0.01")];
      assert opts[1..][1..] == [];
    }
    assert argv[6..] == ["cat", "file.txt"];
    assert Prepare(argv, opts, 6, env, libdir, readable)
        == Exec(NewArgv(argv, 6), SetLdPreload(argv[0], libdir, readable, e));
  }
}
