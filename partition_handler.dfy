/** scripts/partitionHandler/partitionHandler.cpp: the command line of the
    partition handler. `getArgs` reads the action flag and its path
    arguments; `main` insists on root, allocates the path array and
    dispatches to adding or removing a loop device. */
module PartitionHandler {
  import opened Text
  import opened Sys
  import opened PartitionUtil
  import opened PartitionRemove
  import opened PartitionAdd

  datatype Action = Add | Remove | Mount | Umount

  /** What the first argument asks for. */
  datatype Flag = ActionFlag(action: Action) | HelpFlag | UnknownFlag

  function ParseFlag(s: string): Flag
  {
    if s == "-a" || s == "--add" then ActionFlag(Add)
    else if s == "-r" || s == "--remove" then ActionFlag(Remove)
    else if s == "-m" || s == "--mount" then ActionFlag(Mount)
    else if s == "-u" || s == "--umount" then ActionFlag(Umount)
    else if s == "-h" || s == "--help" then HelpFlag
    else UnknownFlag
  }

  /** The flags the handler recognises, short and long. */
  const KnownFlags: set<string> :=
    {"-a", "--add", "-r", "--remove", "-m", "--mount", "-u", "--umount", "-h", "--help"}

  /** The argument count an action needs: the program name, the flag and
      one path, or two paths for mount. */
  function Arity(a: Action): nat
  {
    if a == Mount then 4 else 3
  }

  /** A path argument getAbsPath accepts: absolute, or resolved by realpath. */
  predicate Resolves(path: string, realpath: string -> Option<string>)
  {
    StartsWith(path, "/") || realpath(path).Some?
  }

  /** What getArgs returns, the action it leaves in its reference parameter
      (None while still uninitialised) and the contents of `fileArg`. */
  datatype Args = Args(code: int, action: Option<Action>, files: seq<string>)

  /** getArgs: too few arguments or an unknown flag give 1; an action flag
      is recorded before its arity is checked; each path goes through
      getAbsPath into the next slot of `fileArg`, and the first failure
      gives 1; help gives 0 and records nothing. */
  function GetArgsEffect(argv: seq<string>, action: Option<Action>, files: seq<string>,
                         realpath: string -> Option<string>): Args
    requires |argv| >= 3 ==> |files| == |argv| - 2
  {
    if |argv| < 3 then Args(1, action, files)
    else match ParseFlag(argv[1])
      case UnknownFlag => Args(1, action, files)
      case HelpFlag => Args(0, action, files)
      case ActionFlag(a) =>
        if |argv| != Arity(a) then Args(1, Some(a), files)
        else
          var p0 := GetAbsPath(argv[2], files[0], realpath);
          var f0 := files[0 := p0.1];
          if p0.0 != 0 then Args(1, Some(a), f0)
          else if a != Mount then Args(0, Some(a), f0)
          else
            var p1 := GetAbsPath(argv[3], f0[1], realpath);
            Args(if p1.0 != 0 then 1 else 0, Some(a), f0[1 := p1.1])
  }

  /** getArgs answers 0 or 1; 0 exactly for a help request or for a known
      action with its exact arity whose every path argument resolves. Any
      unrecognised flag, and any call with fewer than three arguments (a
      lone "-h" included), gives 1. */
  lemma GetArgsAccepts(argv: seq<string>, action: Option<Action>, files: seq<string>,
                       realpath: string -> Option<string>)
    requires |argv| >= 3 ==> |files| == |argv| - 2
    ensures var r := GetArgsEffect(argv, action, files, realpath);
      (r.code == 0 || r.code == 1) &&
      (|argv| < 3 ==> r.code == 1) &&
      (|argv| >= 3 && argv[1] !in KnownFlags ==> r.code == 1) &&
      (r.code == 0 <==>
         |argv| >= 3 && argv[1] in KnownFlags &&
         (argv[1] == "-h" || argv[1] == "--help" ||
          (|argv| == Arity(ParseFlag(argv[1]).action) &&
           forall i :: 2 <= i < |argv| ==> Resolves(argv[i], realpath))))
  {
  }

  /** An accepted action is recorded, and `fileArg` holds its paths made
      absolute, in argument order. */
  lemma GetArgsFiles(argv: seq<string>, action: Option<Action>, files: seq<string>,
                     realpath: string -> Option<string>)
    requires |argv| >= 3 ==> |files| == |argv| - 2
    requires GetArgsEffect(argv, action, files, realpath).code == 0
    requires |argv| >= 3 && ParseFlag(argv[1]).ActionFlag?
    ensures var r := GetArgsEffect(argv, action, files, realpath);
      r.action == Some(ParseFlag(argv[1]).action) && |r.files| == |argv| - 2 &&
      forall i :: 2 <= i < |argv| ==>
        StartsWith(r.files[i - 2], "/") || r.files[i - 2] == realpath(argv[i]).value
    ensures var r := GetArgsEffect(argv, action, files, realpath);
      forall i :: 2 <= i < |argv| ==> StartsWith(argv[i], "/") ==> r.files[i - 2] == argv[i]
  {
  }

  method GetArgs(argv: seq<string>, action: Option<Action>, fileArg: array<string>,
                 realpath: string -> Option<string>) returns (r: int, actionOut: Option<Action>)
    requires |argv| >= 3 ==> fileArg.Length == |argv| - 2
    modifies fileArg
    ensures var e := GetArgsEffect(argv, action, old(fileArg[..]), realpath);
      r == e.code && actionOut == e.action && fileArg[..] == e.files
  {
    actionOut := action;
    if |argv| < 3 {
      return 1, actionOut;
    }
    var actionStr := argv[1];
    match ParseFlag(actionStr)
    case UnknownFlag =>
      return 1, actionOut;
    case HelpFlag =>
      return 0, actionOut;
    case ActionFlag(a) =>
      actionOut := Some(a);
      if |argv| != Arity(a) {
        return 1, actionOut;
      }
      var p0 := GetAbsPath(argv[2], fileArg[0], realpath);
      fileArg[0] := p0.1;
      if p0.0 != 0 {
        return 1, actionOut;
      }
      if a == Mount {
        var p1 := GetAbsPath(argv[3], fileArg[1], realpath);
        fileArg[1] := p1.1;
        if p1.0 != 0 {
          return 1, actionOut;
        }
      }
      return 0, actionOut;
  }

  // ----- main -----

  /** How a run of the handler ends: refused for want of root; aborted by
      the allocation of a negative-size path array; arguments rejected;
      the help path, which leaves the action uninitialised so the switch
      reads an indeterminate value; or an action dispatched with the
      result of its handler (0 for the mount and umount stubs). */
  datatype Outcome =
    | NotRoot
    | Aborted
    | ArgsRejected
    | HelpUndefined
    | Dispatched(action: Action, result: int)

  /** The path array `new string[argc - 2]`: empty strings. */
  function NewPaths(argc: nat): seq<string>
    requires argc >= 2
  {
    seq(argc - 2, i => "")
  }

  /** main as written. */
  function RunEffect(s: State, env: Env, argv: seq<string>): Step<Outcome>
  {
    if env.euid != 0 then Step(NotRoot, s, [])
    else if |argv| <= 1 then Step(Aborted, s, [])
    else
      var args := GetArgsEffect(argv, None, NewPaths(|argv|), env.realpath);
      if args.code != 0 then Step(ArgsRejected, s, [])
      else match args.action
        case None => Step(HelpUndefined, s, [])
        case Some(Add) =>
          var r := AddPartitionEffect(s, env, args.files[0]);
          Step(Dispatched(Add, r.value), r.state, r.calls)
        case Some(Remove) =>
          var r := RemovePartitionEffect(s, env, args.files[0]);
          Step(Dispatched(Remove, r.value), r.state, r.calls)
        case Some(a) => Step(Dispatched(a, 0), s, [])
  }

  /** The exit status of a run as written: 1 when refused, nothing when the
      process aborts or behaves undefinedly, and 0 after any dispatch,
      since main falls off its end and `result` is never returned. */
  function ExitStatus(o: Outcome): Option<int>
  {
    match o
    case NotRoot => Some(1)
    case ArgsRejected => Some(1)
    case Aborted => None
    case HelpUndefined => None
    case Dispatched(_, _) => Some(0)
  }

  /** Without root, main refuses before reading any argument: exit 1, no
      call issued, nothing changed. */
  lemma RunRequiresRoot(s: State, env: Env, argv: seq<string>)
    requires env.euid != 0
    ensures var e := RunEffect(s, env, argv);
      e.value == NotRoot && ExitStatus(e.value) == Some(1) && e.state == s && e.calls == []
  {
  }

  /** As root with valid arguments, adding runs addPartition on the
      resolved image path and removing runs removePartition on the resolved
      path; mount and umount change nothing. */
  lemma RunDispatches(s: State, env: Env, argv: seq<string>)
    requires env.euid == 0 && |argv| >= 3 && ParseFlag(argv[1]).ActionFlag?
    requires GetArgsEffect(argv, None, NewPaths(|argv|), env.realpath).code == 0
    ensures var e := RunEffect(s, env, argv);
      var a := ParseFlag(argv[1]).action;
      var path := GetAbsPath(argv[2], "", env.realpath).1;
      e.value.Dispatched? && e.value.action == a &&
      (a == Add ==> e.value.result == AddPartitionEffect(s, env, path).value &&
                    e.state == AddPartitionEffect(s, env, path).state) &&
      (a == Remove ==> e.value.result == RemovePartitionEffect(s, env, path).value &&
                       e.state == RemovePartitionEffect(s, env, path).state) &&
      (a == Mount || a == Umount ==> e.state == s && e.calls == [])
  {
    GetArgsFiles(argv, None, NewPaths(|argv|), env.realpath);
  }

  method Run(k: Kernel, env: Env, argv: seq<string>) returns (o: Outcome)
    modifies k
    ensures var e := RunEffect(old(k.Snapshot()), env, argv);
      o == e.value && k.Snapshot() == e.state && k.trace == old(k.trace) + e.calls
  {
    if env.euid != 0 {
      return NotRoot;
    }
    if |argv| <= 1 {
      // new string[argc - 2] with a negative size throws bad_array_new_length
      return Aborted;
    }
    var paths := new string[|argv| - 2](i => "");
    assert paths[..] == NewPaths(|argv|);
    var code, action := GetArgs(argv, None, paths, env.realpath);
    if code != 0 {
      return ArgsRejected;
    }
    match action
    case None =>
      return HelpUndefined;
    case Some(Add) =>
      var result := AddPartition(k, env, paths[0]);
      return Dispatched(Add, result);
    case Some(Remove) =>
      var result := RemovePartition(k, env, paths[0]);
      return Dispatched(Remove, result);
    case Some(a) =>
      return Dispatched(a, 0);
  }

  // ----- what main evidently intends -----

  /** An invocation with no argument at all aborts instead of printing the
      usage and exiting with 1. */
  lemma BareInvocationAborts(s: State, env: Env)
    requires env.euid == 0
    ensures RunEffect(s, env, ["partitionHandler"]).value == Aborted
    ensures ExitStatus(RunEffect(s, env, ["partitionHandler"]).value).None?
  {
  }

  /** Adding an image that does not exist fails, yet the process exits 0. */
  lemma FailedAddExitsZero(s: State, env: Env)
    requires env.euid == 0 && "/missing.img" !in s.access
    ensures var e := RunEffect(s, env, ["partitionHandler", "-a", "/missing.img"]);
      e.value == Dispatched(Add, -1) && ExitStatus(e.value) == Some(0)
  {
    var argv := ["partitionHandler", "-a", "/missing.img"];
    assert ParseFlag(argv[1]) == ActionFlag(Add);
    assert StartsWith(argv[2], "/");
    CreateLoopDeviceRefusesUnusable(s, env, "/missing.img");
  }

  /** main with the argument count checked before the allocation: too few
      arguments are rejected like any other bad command line. */
  function RunCorrected(s: State, env: Env, argv: seq<string>): Step<Outcome>
  {
    if env.euid == 0 && |argv| <= 1 then Step(ArgsRejected, s, []) else RunEffect(s, env, argv)
  }

  /** The exit status main evidently intends: 1 when an action's handler
      failed, 0 when it succeeded. */
  function ExitStatusCorrected(o: Outcome): Option<int>
  {
    match o
    case Dispatched(_, result) => Some(if result == 0 then 0 else 1)
    case _ => ExitStatus(o)
  }

  /** With the count checked first no command line aborts, and with fewer
      than three arguments the exit status is 1. The corrected status is 0
      after a dispatch exactly when the handler succeeded, so a failed add
      or remove is reported. */
  lemma RunCorrectedReports(s: State, env: Env, argv: seq<string>)
    ensures var o := RunCorrected(s, env, argv).value;
      o != Aborted &&
      (|argv| < 3 ==> ExitStatusCorrected(o) == Some(1))
    ensures var o := RunCorrected(s, env, argv).value;
      o.Dispatched? ==> (ExitStatusCorrected(o) == Some(0) <==> o.result == 0)
  {
    if env.euid == 0 && 2 <= |argv| < 3 {
      assert GetArgsEffect(argv, None, NewPaths(|argv|), env.realpath).code == 1;
    }
  }

  // ----- adding then removing -----

  /** Adding an image and then removing the device it was attached to gives
      the loop table back: the slot that `-a` bound is the lowest unbound
      one, and `-r` on its "/dev/loopN" path clears exactly that slot. The
      device must be accessible, block-special and not mounted, and the
      kernel must let the release go through. */
  lemma AddThenRemoveReleases(s: State, env: Env, image: string)
    requires Attaches(s, env, image)
    requires var dev := LoopPath(LowestUnbound(s.bindings));
      dev in s.access && s.access[dev].readable && s.access[dev].writable &&
      dev in s.blockDevices && !HasFsname(s.mounts, dev)
    requires env.probeMountsOpenErr.None? && env.deviceOpenErr.None? && env.releaseClearErr.None?
    ensures var a := AddPartitionEffect(s, env, image);
      var r := RemovePartitionEffect(a.state, env, LoopPath(LowestUnbound(s.bindings)));
      a.value == 0 && r.value == 0 &&
      r.state.bindings == s.bindings && r.state.fds == s.fds && r.state.mounts == s.mounts
  {
    AddPartitionOutcome(s, env, image);
    var a := AddPartitionEffect(s, env, image);
    var i := LowestUnbound(s.bindings);
    var s1 := a.state;
    assert s1.access == s.access && s1.blockDevices == s.blockDevices && s1.mounts == s.mounts;
    assert i in s1.bindings;
    RemovePartitionReleasesSlot(s1, env, i);
    BindThenRelease(s.bindings, i, CString(LoFileName(image)));
  }
}
