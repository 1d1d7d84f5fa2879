/** scripts/partitionHandler/util.cpp: the probes of the partition handler
    over the kernel: path resolution, the free loop slot, the access check,
    and the two scans of /proc/mounts. Each method is proved equal to an
    effect function on the kernel state; the lemmas state what the probes
    promise in terms of that state. */
module PartitionUtil {
  import opened Text
  import opened Sys

  // ----- getAbsPath -----

  /** getAbsPath: a path starting with '/' is copied; any other path (the
      empty one included, whose first character reads as NUL) is resolved
      by realpath, whose failure gives -1 and leaves `absPath` as it was. */
  function GetAbsPath(path: string, absPath: string, realpath: string -> Option<string>): (r: (int, string))
    ensures r.0 == 0 || r.0 == -1
    ensures StartsWith(path, "/") ==> r == (0, path)
    ensures r.0 == -1 <==> !StartsWith(path, "/") && realpath(path).None?
    ensures !StartsWith(path, "/") && realpath(path).Some? ==> r == (0, realpath(path).value)
    ensures r.0 == -1 ==> r.1 == absPath
  {
    if StartsWith(path, "/") then (0, path)
    else match realpath(path)
      case None => (-1, absPath)
      case Some(resolved) => (0, resolved)
  }

  /** With a realpath that answers absolute paths, a resolved path is
      absolute and resolving it again changes nothing. */
  lemma GetAbsPathIdempotent(path: string, absPath: string, realpath: string -> Option<string>)
    requires forall p :: realpath(p).Some? ==> StartsWith(realpath(p).value, "/")
    requires GetAbsPath(path, absPath, realpath).0 == 0
    ensures StartsWith(GetAbsPath(path, absPath, realpath).1, "/")
    ensures GetAbsPath(GetAbsPath(path, absPath, realpath).1, absPath, realpath) ==
      GetAbsPath(path, absPath, realpath)
  {
    if !StartsWith(path, "/") {
      assert realpath(path).Some?;
    }
  }

  // ----- getFreeLoopDevice -----

  /** Open /dev/loop-control, ask it for a free slot, close it. */
  function GetFreeLoopDeviceEffect(s: State, env: Env): Step<int>
  {
    var ctl := OpenStep(s, LoopControl, env.controlOpenErr);
    if ctl.value < 0 then Step(-1, ctl.state, ctl.calls)
    else
      var slot := GetFreeStep(ctl.state, ctl.value, env.getFreeErr);
      var c := CloseStep(slot.state, ctl.value);
      Step(if slot.value < 0 then -1 else slot.value, c.state, ctl.calls + slot.calls + c.calls)
  }

  /** getFreeLoopDevice gives -1 exactly when the control device cannot be
      opened or has no answer, and otherwise the lowest unbound slot; the
      control descriptor is closed on every path after it was opened, so
      the state is as before. */
  lemma GetFreeLoopDeviceResult(s: State, env: Env)
    ensures var e := GetFreeLoopDeviceEffect(s, env);
      (e.value == -1 <==> env.controlOpenErr.Some? || env.getFreeErr.Some?) &&
      (e.value >= 0 ==> e.value == LowestUnbound(s.bindings) && e.value !in s.bindings) &&
      e.state == s
    ensures var e := GetFreeLoopDeviceEffect(s, env);
      var fd := LowestFreeFd(s.fds);
      if env.controlOpenErr.Some? then e.calls == [OpenCall(LoopControl, -1)]
      else e.calls == [OpenCall(LoopControl, fd), GetFreeCall(fd), CloseCall(fd)]
  {
    if env.controlOpenErr.None? {
      CloseAfterOpen(s, LoopControl, env.controlOpenErr);
    }
  }

  method GetFreeLoopDevice(k: Kernel, env: Env) returns (slot: int)
    modifies k
    ensures var e := GetFreeLoopDeviceEffect(old(k.Snapshot()), env);
      slot == e.value && k.Snapshot() == e.state && k.trace == old(k.trace) + e.calls
  {
    var loopCtrlFd := k.Open(LoopControl, env.controlOpenErr);
    if loopCtrlFd < 0 {
      return -1;
    }
    var loopDevice := k.GetFree(loopCtrlFd, env.getFreeErr);
    if loopDevice < 0 {
      k.Close(loopCtrlFd);
      return -1;
    }
    k.Close(loopCtrlFd);
    return loopDevice;
  }

  // ----- fileAccessCheck -----

  /** access(F_OK), then, only if the file exists, access(R_OK | W_OK). */
  function FileAccessCheckEffect(s: State, path: string): Step<int>
  {
    var exists_ := AccessStep(s, path, ExistsMode);
    if !exists_.value then Step(-1, s, exists_.calls)
    else
      var rw := AccessStep(s, path, ReadWriteMode);
      Step(if rw.value then 0 else -1, s, exists_.calls + rw.calls)
  }

  /** The file may be used iff it exists and is readable and writable;
      existence is asked first, and the permissions only of an existing
      file. The check changes nothing. */
  lemma FileAccessCheckExactly(s: State, path: string)
    ensures var e := FileAccessCheckEffect(s, path);
      (e.value == 0 || e.value == -1) &&
      (e.value == 0 <==> path in s.access && s.access[path].readable && s.access[path].writable) &&
      e.state == s
    ensures var e := FileAccessCheckEffect(s, path);
      e.calls == if path in s.access then [AccessCall(path, ExistsMode), AccessCall(path, ReadWriteMode)]
                 else [AccessCall(path, ExistsMode)]
  {
  }

  method FileAccessCheck(k: Kernel, path: string) returns (r: int)
    modifies k
    ensures var e := FileAccessCheckEffect(old(k.Snapshot()), path);
      r == e.value && k.Snapshot() == e.state && k.trace == old(k.trace) + e.calls
  {
    var exists_ := k.Access(path, ExistsMode);
    if !exists_ {
      return -1;
    }
    var rw := k.Access(path, ReadWriteMode);
    if !rw {
      return -1;
    }
    return 0;
  }

  // ----- findLoopDevice -----

  /** Open /proc/mounts, take the source of the first entry whose mount
      point is `path`, close it. `loopDevice` is the caller's string,
      returned unchanged when nothing matches. */
  function FindLoopDeviceEffect(s: State, env: Env, path: string, loopDevice: string): Step<(int, string)>
  {
    var mnt := OpenStep(s, ProcMounts, env.findMountsOpenErr);
    if mnt.value < 0 then Step((-1, loopDevice), mnt.state, mnt.calls)
    else
      var c := CloseStep(mnt.state, mnt.value);
      match FirstWithDir(s.mounts, path)
      case Some(i) => Step((0, s.mounts[i].fsname), c.state, mnt.calls + c.calls)
      case None => Step((-1, loopDevice), c.state, mnt.calls + c.calls)
  }

  /** findLoopDevice returns 0 with the source of the first entry, in table
      order, mounted exactly at `path`; otherwise -1 with the out-parameter
      untouched. The handle on /proc/mounts is closed on both exits. */
  lemma FindLoopDeviceFirstMatch(s: State, env: Env, path: string, loopDevice: string)
    ensures var e := FindLoopDeviceEffect(s, env, path, loopDevice);
      e.state == s &&
      (e.value.0 == 0 <==> env.findMountsOpenErr.None? && exists j :: 0 <= j < |s.mounts| && s.mounts[j].dir == path) &&
      (e.value.0 == 0 ==> (exists i ::
         0 <= i < |s.mounts| && s.mounts[i].dir == path && e.value.1 == s.mounts[i].fsname &&
         forall j :: 0 <= j < i ==> s.mounts[j].dir != path)) &&
      (e.value.0 != 0 ==> e.value.0 == -1 && e.value.1 == loopDevice)
  {
    if env.findMountsOpenErr.None? {
      CloseAfterOpen(s, ProcMounts, env.findMountsOpenErr);
      var m := FirstWithDir(s.mounts, path);
      if m.Some? {
        var i := m.value;
        assert s.mounts[i].dir == path;
      }
    }
  }

  method FindLoopDevice(k: Kernel, env: Env, path: string, loopDevice: string)
    returns (r: int, loopDevice': string)
    modifies k
    ensures var e := FindLoopDeviceEffect(old(k.Snapshot()), env, path, loopDevice);
      (r, loopDevice') == e.value && k.Snapshot() == e.state && k.trace == old(k.trace) + e.calls
  {
    loopDevice' := loopDevice;
    var mnt := k.Open(ProcMounts, env.findMountsOpenErr);
    if mnt < 0 {
      return -1, loopDevice';
    }
    var mounts := k.mounts;
    var found := false;
    var i := 0;
    while i < |mounts|
      invariant 0 <= i <= |mounts|
      invariant forall j :: 0 <= j < i ==> mounts[j].dir != path
      invariant !found && loopDevice' == loopDevice
    {
      var ent := mounts[i];
      if ent.dir == path {
        loopDevice' := ent.fsname;
        found := true;
        break;
      }
      i := i + 1;
    }
    assert found ==> FirstWithDir(mounts, path) == Some(i) && loopDevice' == mounts[i].fsname;
    assert !found ==> FirstWithDir(mounts, path).None?;
    k.Close(mnt);
    if !found {
      return -1, loopDevice';
    }
    return 0, loopDevice';
  }

  // ----- isLoopDevice -----

  /** stat the path; the flag is whether it is a block device. */
  function IsLoopDeviceEffect(s: State, path: string): Step<(int, bool)>
  {
    var st := StatBlockStep(s, path);
    Step((0, st.value), s, st.calls)
  }

  /** isLoopDevice always succeeds, and its flag holds iff the path is
      block-special. */
  lemma IsLoopDeviceExactly(s: State, path: string)
    ensures var e := IsLoopDeviceEffect(s, path);
      e.value.0 == 0 && (e.value.1 <==> path in s.blockDevices) && e.state == s &&
      e.calls == [StatCall(path)]
  {
  }

  method IsLoopDevice(k: Kernel, path: string) returns (r: int, isLoopDevice: bool)
    modifies k
    ensures var e := IsLoopDeviceEffect(old(k.Snapshot()), path);
      (r, isLoopDevice) == e.value && k.Snapshot() == e.state && k.trace == old(k.trace) + e.calls
  {
    isLoopDevice := k.StatBlock(path);
    return 0, isLoopDevice;
  }

  // ----- isLoopMounted -----

  /** stat the device; only for a block device, scan /proc/mounts for an
      entry whose source is exactly the device. `isMounted` is the caller's
      flag, returned unchanged when /proc/mounts cannot be opened. */
  function IsLoopMountedEffect(s: State, env: Env, dev: string, isMounted: bool): Step<(int, bool)>
  {
    var st := StatBlockStep(s, dev);
    if !st.value then Step((0, false), s, st.calls)
    else
      var mnt := OpenStep(s, ProcMounts, env.probeMountsOpenErr);
      if mnt.value < 0 then Step((-1, isMounted), mnt.state, st.calls + mnt.calls)
      else
        var c := CloseStep(mnt.state, mnt.value);
        Step((0, HasFsname(s.mounts, dev)), c.state, st.calls + mnt.calls + c.calls)
  }

  /** isLoopMounted fails only when a block device's mount table cannot be
      read; otherwise it reports mounted iff the path is a block device and
      some entry's source equals it exactly. A path that is not a block
      device is reported unmounted without reading the table. The state is
      as before on every exit. */
  lemma IsLoopMountedExactly(s: State, env: Env, dev: string, isMounted: bool)
    ensures var e := IsLoopMountedEffect(s, env, dev, isMounted);
      e.state == s &&
      (e.value.0 == -1 <==> dev in s.blockDevices && env.probeMountsOpenErr.Some?) &&
      (e.value.0 != -1 ==> (e.value.0 == 0 &&
         (e.value.1 <==> dev in s.blockDevices && exists j :: 0 <= j < |s.mounts| && s.mounts[j].fsname == dev)))
    ensures dev !in s.blockDevices ==> IsLoopMountedEffect(s, env, dev, isMounted).calls == [StatCall(dev)]
  {
    if dev in s.blockDevices && env.probeMountsOpenErr.None? {
      CloseAfterOpen(s, ProcMounts, env.probeMountsOpenErr);
    }
  }

  method IsLoopMounted(k: Kernel, env: Env, dev: string, isMounted: bool) returns (r: int, isMounted': bool)
    modifies k
    ensures var e := IsLoopMountedEffect(old(k.Snapshot()), env, dev, isMounted);
      (r, isMounted') == e.value && k.Snapshot() == e.state && k.trace == old(k.trace) + e.calls
  {
    isMounted' := isMounted;
    var isBlock := k.StatBlock(dev);
    if isBlock {
      var mnt := k.Open(ProcMounts, env.probeMountsOpenErr);
      if mnt < 0 {
        return -1, isMounted';
      }
      var mounts := k.mounts;
      var i := 0;
      while i < |mounts|
        invariant 0 <= i <= |mounts|
        invariant forall j :: 0 <= j < i ==> mounts[j].fsname != dev
      {
        if mounts[i].fsname == dev {
          k.Close(mnt);
          return 0, true;
        }
        i := i + 1;
      }
      k.Close(mnt);
    }
    return 0, false;
  }
}
