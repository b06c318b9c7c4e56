# zzuf launcher — a verified functional model

zzuf runs a command under a fuzzing library that is preloaded into it. The
launcher `main` in `src/zzuf.c` does four things. It folds the options getopt
reports into `ZZUF_*` environment variables. It checks that a command is left
on the command line and builds that command's NULL-terminated argument vector.
It derives the path of a locally built `libzzuf.so` from its own `argv[0]` and
stores either that path or the installed `LIBDIR/libzzuf.so` in `LD_PRELOAD`.
Finally it calls `execvp`.

The model treats the whole run as a pure function. Its inputs are `argv`, the
options getopt reported with `optind`, the starting environment, the
configure-time `LIBDIR`, and two oracles: `readable` stands for `access(…, R_OK)`
and `execFails` says whether `execvp` returns. Its result is an `Outcome`:
either `Exit(code)`, or `Exec(newargv, env)` when the process image is replaced.

Modules, in pipeline order:

- `Wrappers`: `Option`. It stands for unset variables and the NULL terminator.
- `Environment`: the environment table, `getenv` (`Lookup`) and `setenv` with overwrite (`SetEnv`).
- `Options`: the option switch (`Classify`) and the getopt loop (`ApplyOptions`). It also holds the
  "last occurrence wins" reference (`LastValue`), the requested configuration (`Config`,
  `ConfigOf`), its propagation into the environment (`Propagate`) and how the interception layer
  reads it back (`ReadBack`).
- `Preload`: `set_ld_preload`. This covers `strrchr` (`LastSlash`), the directory part of the
  launcher path (`DirPart`, characterised by `IsDirPart`) and the candidate path (`LocalLibPath`).
  It also holds a buffer-level model of the `malloc`/`strcpy`/`strrchr`/`strcpy` steps
  (`FillLibPath`), whose writes are all proved in bounds, and the choice of `LD_PRELOAD`.
- `Launcher`: `newargv`, the steps before `execvp` (`Prepare`), `main` itself (`Main`), and the
  exit status the shell sees.

Exit statuses follow the code. A failed `execvp` makes `main` return -1 (line
126), the same value as a missing command (line 111), and not the 1 that an
invalid option returns (line 99). The shell sees -1 as status 255.

## Model

| member | source | states |
|---|---|---|
| `Environment.SetEnv` | src/zzuf.c:76 | `setenv(name, value, 1)` makes `name` read back as `value`, leaves every other variable unchanged, and adds only `name` to the keys |
| `Options.Classify` | src/zzuf.c:73-100 | exactly `i e s r d` write a variable, and only a `ZZUF_*` one; `d` alone writes `ZZUF_DEBUG`, always with value `"1"`; value options write `optarg` verbatim; `h`/`v` quit with 0, every other character with 1 |
| `Options.SwitchTable` | src/zzuf.c:75-95 | `-i`, `-e`, `-s` and `-r` write their `optarg` verbatim to `ZZUF_INCLUDE`, `ZZUF_EXCLUDE`, `ZZUF_SEED` and `ZZUF_RATIO` respectively; `-d` writes `"1"` to `ZZUF_DEBUG`; `-h` and `-v` quit with 0 |
| `Options.FirstQuitUnique` | src/zzuf.c:90-99 | at most one index holds the first option that ends the run |
| `Options.ApplyOptions` | src/zzuf.c:70-100 | the loop stops if and only if some option quits; then its status is the code of the first quitting option, with no quitting option before it |
| `Options.LastValue` | src/zzuf.c:75-88 | a variable has a last written value exactly when some option writes it; that value comes from an option writing it that no later option overrides |
| `Options.LastValueCons` | src/zzuf.c:75-88 | an option placed in front decides a variable only if no later option writes that variable |
| `Options.ApplyOptionsLookup` | src/zzuf.c:75-88 | with no quitting option, the loop continues; every variable holds the value of the last option that wrote it, or its inherited value when no option did |
| `Options.OnlyZzufVarsWritten` | src/zzuf.c:75-88 | no option writes a variable outside the five `ZZUF_*` names |
| `Options.DebugIsOne` | src/zzuf.c:87-88 | whichever option last wrote `ZZUF_DEBUG`, its value is `"1"` |
| `Options.Propagate` | src/zzuf.c:75-88 | present configuration fields overwrite their variable; absent ones keep the inherited value; `debug` writes `"1"`; non-`ZZUF_*` variables are untouched |
| `Options.RoundTrip` | src/zzuf.c:75-88 | propagating a configuration into an environment without `ZZUF_*` entries and reading it back returns the configuration, with unset fields absent |
| `Options.ApplyOptionsIsPropagate` | src/zzuf.c:73-100 | with no quitting option, the getopt loop's environment equals the propagation of the configuration the options request |
| `Options.ConfigOfAppend` | src/zzuf.c:75-99 | the option given last sets its own field of the requested configuration: include, exclude, seed or ratio verbatim, or the debug flag; an option that ends the run changes no field |
| `Options.LastOccurrenceWins` | src/zzuf.c:75-86 | a value option appended after any quit-free options decides its variable's final value, verbatim |
| `Preload.LastSlash` | src/zzuf.c:139 | `strrchr(s, '/')`: the result indexes a '/' with none after it, or there is no '/' at all |
| `Preload.DirPart` | src/zzuf.c:138-140 | the kept prefix of the launcher path is empty or ends in '/', and no '/' follows it in the path |
| `Preload.DirPartUnique` | src/zzuf.c:138-140 | a string is that directory prefix if and only if it equals `DirPart` |
| `Preload.LocalLibPath` | src/zzuf.c:135-140 | the candidate path is the directory prefix followed by `.libs/libzzuf.so`; it is `.libs/libzzuf.so` alone without a '/'; its length plus the terminator fits the `len + strlen("/.libs/libzzuf.so") + 1` bytes allocated |
| `Preload.CopyAt` | src/zzuf.c:138 | `strcpy` into a buffer places the characters and a terminator from the start index, and leaves every byte before the start and after the terminator unchanged |
| `Preload.FindLastSlash` | src/zzuf.c:139 | scanning a terminated buffer up to its NUL finds the same last '/' as `LastSlash` on the string |
| `Preload.FillLibPath` | src/zzuf.c:135-140 | in a buffer of `len + 17 + 1` bytes, the `strcpy`/`strrchr`/`strcpy` steps leave a NUL-terminated string equal to `LocalLibPath`, with every write in bounds |
| `Preload.SelectPreload` | src/zzuf.c:141-148 | the local build path is chosen when readable; otherwise exactly `LIBDIR "/libzzuf.so"` |
| `Preload.SetLdPreload` | src/zzuf.c:132-149 | `LD_PRELOAD` is set to the selected path, overwriting any earlier value; no other variable changes |
| `Launcher.Terminated` | src/zzuf.c:115-117 | the vector has one slot more than the words, holds the words in order, and ends in NULL |
| `Launcher.ReadTerminated` | src/zzuf.c:114-117 | reading the terminated vector up to its NULL gives back exactly the words copied in |
| `Launcher.NewArgv` | src/zzuf.c:114-117 | `newargv` has `argc - optind + 1` slots: `argv[optind..argc)` in order, then NULL; read up to NULL it is that suffix |
| `Launcher.Prepare` | src/zzuf.c:107-120 | on the argument vector as getopt has permuted it, the run stops before exec exactly when an option quits (status 0 or 1) or no command is left (status -1). Otherwise the vector starts with the command, holds the rest of `argv`, and ends in NULL, and `LD_PRELOAD` holds the selected path |
| `Launcher.Main` | src/zzuf.c:120-129 | `main` returns only 0, 1 or -1. A return before the exec passes through unchanged. The run execs exactly when the options and the command check pass and execvp succeeds, and then with the prepared vector and environment, `LD_PRELOAD` set. A failed exec yields -1 |
| `Launcher.ExitStatus` | src/zzuf.c:107-126 | the shell sees the return value reduced to eight bits: a value below 256 congruent to it modulo 256 |
| `Launcher.ExecEnvironment` | src/zzuf.c:73-120 | the exec environment is the requested configuration propagated over the inherited environment, then `LD_PRELOAD` set; every other variable is inherited unchanged |
| `Launcher.QuitReturnsFirstCode` | src/zzuf.c:90-99 | when the first quitting option is at index i, the run ends with that option's status, before `LD_PRELOAD` or exec |
| `Launcher.MainExitStatus` | src/zzuf.c:90-126 | the shell sees only 0, 1 or 255 from `main`. It sees 0 exactly when the first option that ends the run is `-h`/`-v`, and 1 exactly when it is any other option. It sees 255 exactly when every option passed and either no command is left or execvp failed |
| `Launcher.QuitStatus` | src/zzuf.c:90-99 | when an option ends the run, the shell sees 0 for help or version and 1 otherwise, decided by that first option alone |
| `Launcher.NoQuitStatus` | src/zzuf.c:107-126 | when every option passes, `main` returns exactly when no command is left or execvp fails, and the shell then sees 255 |
| `Launcher.SeedRatioScenario` | src/zzuf.c:73-123 | `zzuf -s 42 -r 0.01 -- cat file.txt` execs `cat file.txt` with `ZZUF_SEED=42` and `ZZUF_RATIO=0.01` in its environment |

## Left out

- getopt and getopt_long (lines 46-69): these are the C library's. The model takes their output as input: the option characters with `optarg`, and `optind`. An unknown option and a missing argument both reach the switch as `'?'`, which the `default` branch handles. So the claim that `--opt value` and `-o value` give the same configuration is getopt's job, and it is not stated here.
- `argv` permutation: GNU getopt_long, given the optstring `"i:e:s:r:dhv"` without a leading `+`, rewrites `argv` in place and moves the options before the other words. Lines 116-117 copy from that rewritten array. So the `argv` given to `Launcher.Prepare` and `Launcher.Main` is the vector as getopt leaves it, not the one `main` received. For example, with `POSIXLY_CORRECT` unset, `zzuf cat -d file` execs `cat file` with `ZZUF_DEBUG=1`, and `zzuf cat -h` prints help. With `POSIXLY_CORRECT` set, getopt stops at `cat` instead. The permutation itself is getopt's and is not modelled.
- The long option `--debug` is declared with a required argument (line 59), while `-d` takes none. So getopt takes the next word as its argument: `zzuf --debug cat file` sets `ZZUF_DEBUG=1` and runs `file`, not `cat`. This changes only what getopt consumes from `argv` and where `optind` ends. The switch ignores `optarg` for `d`, so the modelled fold is unaffected.
- The text printed by `usage`, `version`, the invalid-option and missing-argument messages, and `perror` (lines 91-98, 109-110, 125, 151-190): these are output only.
- `access` and `execvp` are OS calls. They become the oracles `readable` and `execFails`. The `return 0` after a successful `execvp` (line 129) is not modelled, because `execvp` returns only on failure.
- `malloc`, `memcpy` and `free` (lines 115-116, 137, 146): only the resulting sequences are modelled. `FillLibPath` fills the fresh buffer with NUL in place of `malloc`'s undefined contents. The buffer steps never read those bytes.
- `Preload.LocalLibPath` and `Preload.FillLibPath` count lengths in Dafny `char`s, not bytes, and in unbounded integers. The model reads each `char` as one byte of the C string, which contains no NUL (`FillLibPath` requires that). The bound `len + strlen("/.libs/libzzuf.so") + 1` is proved without the `int`/`size_t` width of line 135-137. That is sound only because the kernel caps a single argument string (128 KiB on Linux), so `strlen(progpath) + 18` cannot overflow.
- `LIBDIR` is fixed by configure. It is a parameter `libdir`, not a constant.
- The builds without getopt (lines 102-105, where `optind` is 1) and the `random.h` include: not modelled. The interception library that reads the `ZZUF_*` variables is not part of this model either. `ReadBack` is only a stand-in for how it reads them.
- `Launcher.Prepare` assumes `opts` and `optind` are what getopt reported for `argv`. That agreement is not checked, because getopt is not modelled.
