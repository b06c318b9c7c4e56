/** The option switch of the launcher: each option reported by getopt is
    turned into one `setenv` of a ZZUF_* variable, or ends the run. */
module Options {
  import opened Wrappers
  import opened Environment

  const ZZUF_INCLUDE: string := "ZZUF_INCLUDE"
  const ZZUF_EXCLUDE: string := "ZZUF_EXCLUDE"
  const ZZUF_SEED: string := "ZZUF_SEED"
  const ZZUF_RATIO: string := "ZZUF_RATIO"
  const ZZUF_DEBUG: string := "ZZUF_DEBUG"

  /** The variables the switch may write; nothing else is ever set by it. */
  const ZZUF_VARS: set<string> := {ZZUF_INCLUDE, ZZUF_EXCLUDE, ZZUF_SEED, ZZUF_RATIO, ZZUF_DEBUG}

  /** One option as getopt reports it: the character it returned and the
      value of `optarg` at that moment. `optarg` is only read for the value
      options; an unknown option or a missing argument comes back as '?'. */
  datatype Opt = Opt(code: char, optarg: string)

  /** What one case of the switch does: a `setenv`, or a `return`. */
  datatype Action = SetVar(name: string, value: string) | Quit(code: int)

  /** The result of running the switch over every option in turn. */
  datatype FoldResult = Continue(env: Env) | Stop(code: int)

  /** The option characters that take an argument ("i:e:s:r:"). */
  predicate IsValueCode(c: char)
  {
    c == 'i' || c == 'e' || c == 's' || c == 'r'
  }

  /** The switch on the option character. */
  function Classify(o: Opt): (a: Action)
    ensures a.SetVar? <==> IsValueCode(o.code) || o.code == 'd'
    ensures a.SetVar? ==> a.name in ZZUF_VARS
    ensures a.SetVar? ==> (a.name == ZZUF_DEBUG <==> o.code == 'd')
    ensures a.SetVar? && a.name == ZZUF_DEBUG ==> a.value == "1"
    ensures a.SetVar? && a.name != ZZUF_DEBUG ==> a.value == o.optarg
    ensures a.Quit? ==> (a.code == 0 <==> o.code == 'h' || o.code == 'v')
    ensures a.Quit? ==> a.code == 0 || a.code == 1
  {
    match o.code
    case 'i' => SetVar(ZZUF_INCLUDE, o.optarg)
    case 'e' => SetVar(ZZUF_EXCLUDE, o.optarg)
    case 's' => SetVar(ZZUF_SEED, o.optarg)
    case 'r' => SetVar(ZZUF_RATIO, o.optarg)
    case 'd' => SetVar(ZZUF_DEBUG, "1")
    case 'h' => Quit(0)
    case 'v' => Quit(0)
    case _ => Quit(1)
  }

  /** Which variable each option of the switch writes: these names are the
      interface the interception library reads. */
  lemma SwitchTable(o: Opt)
    ensures o.code == 'i' ==> Classify(o) == SetVar(ZZUF_INCLUDE, o.optarg)
    ensures o.code == 'e' ==> Classify(o) == SetVar(ZZUF_EXCLUDE, o.optarg)
    ensures o.code == 's' ==> Classify(o) == SetVar(ZZUF_SEED, o.optarg)
    ensures o.code == 'r' ==> Classify(o) == SetVar(ZZUF_RATIO, o.optarg)
    ensures o.code == 'd' ==> Classify(o) == SetVar(ZZUF_DEBUG, "1")
    ensures o.code == 'h' || o.code == 'v' ==> Classify(o) == Quit(0)
  {
  }

  /** The option ends the run (help, version, or anything unrecognised). */
  predicate IsQuit(o: Opt)
  {
    Classify(o).Quit?
  }

  /** The option writes the variable `name`. */
  predicate Writes(o: Opt, name: string)
  {
    Classify(o).SetVar? && Classify(o).name == name
  }

  /** No option in the list ends the run. */
  predicate NoQuit(opts: seq<Opt>)
  {
    forall i :: 0 <= i < |opts| ==> !IsQuit(opts[i])
  }

  /** Index `i` holds the first option that ends the run. */
  predicate IsFirstQuit(opts: seq<Opt>, i: int)
  {
    0 <= i < |opts| && IsQuit(opts[i]) && NoQuit(opts[..i])
  }

  /** There is at most one first quitting option. */
  lemma FirstQuitUnique(opts: seq<Opt>, i: int, j: int)
    requires IsFirstQuit(opts, i) && IsFirstQuit(opts, j)
    ensures i == j
  {
  }

  /** The getopt loop: options are handled left to right, each `setenv`
      overwriting, until the first one that returns from `main`. */
  function ApplyOptions(opts: seq<Opt>, env: Env): (r: FoldResult)
    ensures r.Stop? <==> !NoQuit(opts)
    ensures r.Stop? ==> exists i :: IsFirstQuit(opts, i) && Classify(opts[i]) == Quit(r.code)
    decreases |opts|
  {
    if opts == [] then Continue(env)
    else
      match Classify(opts[0])
      case SetVar(n, v) =>
        var r := ApplyOptions(opts[1..], SetEnv(env, n, v));
        assert forall i :: 0 <= i < |opts| - 1 ==> opts[1..][i] == opts[i + 1];
        assert r.Stop? ==> !NoQuit(opts);
        assert !NoQuit(opts) ==> r.Stop?;
        assert r.Stop? ==> exists i :: IsFirstQuit(opts, i) && Classify(opts[i]) == Quit(r.code) by {
          if r.Stop? {
            var i :| IsFirstQuit(opts[1..], i) && Classify(opts[1..][i]) == Quit(r.code);
            assert opts[..i + 1] == [opts[0]] + opts[1..][..i];
            assert IsFirstQuit(opts, i + 1);
          }
        }
        r
      case Quit(c) =>
        assert opts[..0] == [];
        Stop(c)
  }

  /** Reference definition of "the last occurrence wins": the value of the
      last option in the list that writes `name`, found scanning backwards. */
  function LastValue(opts: seq<Opt>, name: string): (r: Option<string>)
    ensures r.Some? <==> exists i :: 0 <= i < |opts| && Writes(opts[i], name)
    ensures r.Some? ==> exists i :: 0 <= i < |opts| && Classify(opts[i]) == SetVar(name, r.value)
                                   && forall j :: i < j < |opts| ==> !Writes(opts[j], name)
    decreases |opts|
  {
    if opts == [] then None
    else if Writes(opts[|opts| - 1], name) then Some(Classify(opts[|opts| - 1]).value)
    else
      var init := opts[..|opts| - 1];
      var r := LastValue(init, name);
      assert forall i :: 0 <= i < |init| ==> init[i] == opts[i];
      assert r.Some? ==> exists i :: 0 <= i < |opts| && Classify(opts[i]) == SetVar(name, r.value)
                                   && forall j :: i < j < |opts| ==> !Writes(opts[j], name) by {
        if r.Some? {
          var i :| 0 <= i < |init| && Classify(init[i]) == SetVar(name, r.value)
                   && forall j :: i < j < |init| ==> !Writes(init[j], name);
          assert Classify(opts[i]) == SetVar(name, r.value);
        }
      }
      r
  }

  /** Adding an option in front only matters when no later option writes
      the same variable. */
  lemma {:induction false} LastValueCons(o: Opt, rest: seq<Opt>, name: string)
    ensures LastValue([o] + rest, name)
         == LastValue(rest, name).Or(if Writes(o, name) then Some(Classify(o).value) else None)
    decreases |rest|
  {
    var s := [o] + rest;
    if rest == [] {
      assert s == [o];
    } else {
      var init := rest[..|rest| - 1];
      assert s[..|s| - 1] == [o] + init;
      assert s[|s| - 1] == rest[|rest| - 1];
      assert rest[..|rest| - 1] == init;
      LastValueCons(o, init, name);
    }
  }

  /** When no option ends the run, every variable ends up holding the value
      of the last option that wrote it, or its inherited value when none did. */
  lemma {:induction false} ApplyOptionsLookup(opts: seq<Opt>, env: Env, name: string)
    requires NoQuit(opts)
    ensures ApplyOptions(opts, env).Continue?
    ensures Lookup(ApplyOptions(opts, env).env, name) == LastValue(opts, name).Or(Lookup(env, name))
    decreases |opts|
  {
    if opts != [] {
      var o := opts[0];
      assert !IsQuit(opts[0]);
      var rest := opts[1..];
      assert NoQuit(rest) by {
        forall i | 0 <= i < |rest| ensures !IsQuit(rest[i]) {
          assert rest[i] == opts[i + 1];
        }
      }
      var n, v := Classify(o).name, Classify(o).value;
      ApplyOptionsLookup(rest, SetEnv(env, n, v), name);
      assert opts == [o] + rest;
      LastValueCons(o, rest, name);
    }
  }

  /** Only the ZZUF_* variables are ever written by the switch. */
  lemma OnlyZzufVarsWritten(opts: seq<Opt>, name: string)
    requires name !in ZZUF_VARS
    ensures LastValue(opts, name) == None
  {
    forall i | 0 <= i < |opts|
      ensures !Writes(opts[i], name)
    {
    }
  }

  /** The validated fuzzing parameters the user asked for, before they are
      turned into environment entries. */
  datatype Config = Config(includePattern: Option<string>, excludePattern: Option<string>,
                           seed: Option<string>, ratio: Option<string>, debug: bool)

  /** The configuration a list of options requests. */
  function ConfigOf(opts: seq<Opt>): Config
  {
    Config(LastValue(opts, ZZUF_INCLUDE), LastValue(opts, ZZUF_EXCLUDE),
           LastValue(opts, ZZUF_SEED), LastValue(opts, ZZUF_RATIO),
           LastValue(opts, ZZUF_DEBUG).Some?)
  }

  /** `setenv` of `name` when the field is present; untouched otherwise. */
  function SetIfPresent(env: Env, name: string, value: Option<string>): Env
  {
    if value.Some? then SetEnv(env, name, value.value) else env
  }

  /** Writes the present fields of a configuration into the environment. */
  function Propagate(c: Config, env: Env): (r: Env)
    ensures forall k :: k !in ZZUF_VARS ==> Lookup(r, k) == Lookup(env, k)
    ensures Lookup(r, ZZUF_INCLUDE) == c.includePattern.Or(Lookup(env, ZZUF_INCLUDE))
    ensures Lookup(r, ZZUF_EXCLUDE) == c.excludePattern.Or(Lookup(env, ZZUF_EXCLUDE))
    ensures Lookup(r, ZZUF_SEED) == c.seed.Or(Lookup(env, ZZUF_SEED))
    ensures Lookup(r, ZZUF_RATIO) == c.ratio.Or(Lookup(env, ZZUF_RATIO))
    ensures Lookup(r, ZZUF_DEBUG) == (if c.debug then Some("1") else Lookup(env, ZZUF_DEBUG))
  {
    var e1 := SetIfPresent(env, ZZUF_INCLUDE, c.includePattern);
    var e2 := SetIfPresent(e1, ZZUF_EXCLUDE, c.excludePattern);
    var e3 := SetIfPresent(e2, ZZUF_SEED, c.seed);
    var e4 := SetIfPresent(e3, ZZUF_RATIO, c.ratio);
    SetIfPresent(e4, ZZUF_DEBUG, if c.debug then Some("1") else None)
  }

  /** How the interception layer reads its configuration back. */
  function ReadBack(env: Env): Config
  {
    Config(Lookup(env, ZZUF_INCLUDE), Lookup(env, ZZUF_EXCLUDE),
           Lookup(env, ZZUF_SEED), Lookup(env, ZZUF_RATIO),
           Lookup(env, ZZUF_DEBUG) == Some("1"))
  }

  /** Propagating a configuration into an environment without ZZUF_*
      entries and reading it back gives the configuration itself; unset
      fields come back absent, not empty. */
  lemma RoundTrip(c: Config, env: Env)
    requires forall k :: k in ZZUF_VARS ==> k !in env
    ensures ReadBack(Propagate(c, env)) == c
  {
  }

  /** Whatever option wrote it last, ZZUF_DEBUG holds exactly "1". */
  lemma DebugIsOne(opts: seq<Opt>)
    ensures LastValue(opts, ZZUF_DEBUG).Some? ==> LastValue(opts, ZZUF_DEBUG) == Some("1")
  {
  }

  /** The getopt loop, when no option ends the run, is exactly the
      propagation of the requested configuration. */
  lemma ApplyOptionsIsPropagate(opts: seq<Opt>, env: Env)
    requires NoQuit(opts)
    ensures ApplyOptions(opts, env) == Continue(Propagate(ConfigOf(opts), env))
  {
    ApplyOptionsLookup(opts, env, ZZUF_DEBUG);
    var e := ApplyOptions(opts, env).env;
    var c := ConfigOf(opts);
    var p := Propagate(c, env);
    forall k
      ensures Lookup(e, k) == Lookup(p, k)
    {
      ApplyOptionsLookup(opts, env, k);
      if k == ZZUF_DEBUG {
        DebugIsOne(opts);
      } else if k == ZZUF_INCLUDE {
      } else if k == ZZUF_EXCLUDE {
      } else if k == ZZUF_SEED {
      } else if k == ZZUF_RATIO {
      } else {
        assert k !in ZZUF_VARS;
        OnlyZzufVarsWritten(opts, k);
      }
    }
    Extensionality(e, p);
  }

  /** The option given last decides its field of the configuration:
      each value option its own field, verbatim, and `-d` the debug flag;
      an option that ends the run changes nothing. */
  lemma ConfigOfAppend(opts: seq<Opt>, o: Opt)
    ensures o.code == 'i' ==> ConfigOf(opts + [o]).includePattern == Some(o.optarg)
    ensures o.code == 'e' ==> ConfigOf(opts + [o]).excludePattern == Some(o.optarg)
    ensures o.code == 's' ==> ConfigOf(opts + [o]).seed == Some(o.optarg)
    ensures o.code == 'r' ==> ConfigOf(opts + [o]).ratio == Some(o.optarg)
    ensures o.code == 'd' ==> ConfigOf(opts + [o]).debug
    ensures IsQuit(o) ==> ConfigOf(opts + [o]) == ConfigOf(opts)
  {
    var s := opts + [o];
    assert s[|s| - 1] == o;
    assert s[..|s| - 1] == opts;
  }

  /** A repeated option: the occurrence appended last decides the value. */
  lemma LastOccurrenceWins(opts: seq<Opt>, o: Opt, env: Env)
    requires NoQuit(opts) && IsValueCode(o.code)
    ensures ApplyOptions(opts + [o], env).Continue?
    ensures Lookup(ApplyOptions(opts + [o], env).env, Classify(o).name) == Some(o.optarg)
  {
    var s := opts + [o];
    assert NoQuit(s) by {
      forall i | 0 <= i < |s| ensures !IsQuit(s[i]) {
        if i < |opts| { assert s[i] == opts[i]; }
      }
    }
    ApplyOptionsLookup(s, env, Classify(o).name);
    assert s[|s| - 1] == o;
  }
}
