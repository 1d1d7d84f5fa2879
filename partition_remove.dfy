/** scripts/partitionHandler/remove.cpp: releasing a loop device, given as
    the device (or one of its partitions) or as the mount point it is
    mounted on. */
module PartitionRemove {
  import opened Text
  import opened Sys
  import opened PartitionUtil

  // ----- partition-suffix normalisation -----

  /** `s[i]` as C++ `std::string` reads it: the terminating NUL at `|s|`. */
  function CharAt(s: string, i: nat): char
  {
    if i < |s| then s[i] else '\0'
  }

  /** The device a partition path belongs to. Only the last 'p' is looked
      at: when it is not the first character, a digit follows it and the
      part before it ends in a digit, the path is cut at that 'p';
      otherwise it is kept whole. */
  function NonPartitionPath(dev: string): (base: string)
    ensures StartsWith(dev, base)
  {
    match LastIndexOf(dev, 'p')
    case None => dev
    case Some(pos) =>
      if pos > 0 && IsDigit(CharAt(dev, pos + 1)) then
        var base := dev[..pos];
        if base != [] && IsDigit(base[|base| - 1]) then base else dev
      else dev
  }

  /** `dev` has a partition suffix at `pos`: its last 'p' is there, not
      first, with a digit on either side. */
  predicate PartitionSuffixAt(dev: string, pos: nat)
  {
    0 < pos && pos + 1 < |dev| && dev[pos] == 'p' && IsDigit(dev[pos + 1]) && IsDigit(dev[pos - 1]) &&
    forall j :: pos < j < |dev| ==> dev[j] != 'p'
  }

  /** A path is cut exactly when it has a partition suffix, and then at
      the 'p' of that suffix. */
  lemma NonPartitionPathCuts(dev: string)
    ensures NonPartitionPath(dev) != dev <==> exists pos: nat :: PartitionSuffixAt(dev, pos)
    ensures forall pos: nat :: PartitionSuffixAt(dev, pos) ==> NonPartitionPath(dev) == dev[..pos]
  {
    var last := LastIndexOf(dev, 'p');
    if last.Some? {
      var pos := last.value;
      if NonPartitionPath(dev) != dev {
        assert dev[..pos][pos - 1] == dev[pos - 1];
        assert PartitionSuffixAt(dev, pos);
      }
      forall q: nat | PartitionSuffixAt(dev, q) ensures q == pos && NonPartitionPath(dev) == dev[..q] {
        assert dev[..q][q - 1] == dev[q - 1];
      }
    }
  }

  /** A whole loop device is kept as it is. */
  lemma NonPartitionPathOfDevice(i: nat)
    ensures NonPartitionPath(LoopPath(i)) == LoopPath(i)
  {
    var p := LoopPath(i);
    var n := |LoopPrefix|;
    assert p[n - 1] == 'p';
    assert forall j :: n <= j < |p| ==> p[j] == Decimal(i)[j - n];
    assert LastIndexOf(p, 'p') == Some(n - 1);
    assert !IsDigit(p[..n - 1][n - 2]) by { assert p[..n - 1][n - 2] == 'o'; }
  }

  /** The partition `/dev/loopNpM` belongs to `/dev/loopN`. */
  lemma NonPartitionPathOfPartition(i: nat, m: nat)
    ensures NonPartitionPath(LoopPath(i) + "p" + Decimal(m)) == LoopPath(i)
  {
    var base := LoopPath(i);
    var digits := Decimal(m);
    var p := base + "p" + digits;
    var pos := |base|;
    assert p[pos] == 'p';
    assert forall j :: pos < j < |p| ==> p[j] == digits[j - pos - 1];
    assert p[pos + 1] == digits[0];
    assert p[pos - 1] == Decimal(i)[|Decimal(i)| - 1];
    assert PartitionSuffixAt(p, pos);
    NonPartitionPathCuts(p);
    assert p[..pos] == base;
  }

  // ----- removeLoopDevice -----

  /** Probe whether the device is mounted; unmount it if so; open the base
      device; clear its backing file; close it. */
  function RemoveLoopDeviceEffect(s: State, env: Env, dev: string): Step<int>
  {
    var probe := IsLoopMountedEffect(s, env, dev, false);
    if probe.value.0 < 0 then Step(-1, probe.state, probe.calls)
    else
      var um := if probe.value.1 then UmountStep(probe.state, dev, env.umountErr) else Step(true, probe.state, []);
      if !um.value then Step(-1, um.state, probe.calls + um.calls)
      else
        var loopFd := OpenStep(um.state, NonPartitionPath(dev), env.deviceOpenErr);
        if loopFd.value < 0 then Step(-1, loopFd.state, probe.calls + um.calls + loopFd.calls)
        else
          var clr := ClearStep(loopFd.state, loopFd.value, env.releaseClearErr);
          var c := CloseStep(clr.state, loopFd.value);
          Step(if clr.value then 0 else -1, c.state, probe.calls + um.calls + loopFd.calls + clr.calls + c.calls)
  }

  /** The device is a block device listed as a mount source. */
  predicate Mounted(s: State, dev: string)
  {
    dev in s.blockDevices && HasFsname(s.mounts, dev)
  }

  /** The mount-state probe fails. */
  predicate ProbeFails(s: State, env: Env, dev: string)
  {
    dev in s.blockDevices && env.probeMountsOpenErr.Some?
  }

  /** When the probe fails, nothing is unmounted, opened or cleared. */
  lemma RemoveLoopDeviceProbeFails(s: State, env: Env, dev: string)
    requires ProbeFails(s, env, dev)
    ensures var e := RemoveLoopDeviceEffect(s, env, dev);
      e.value == -1 && e.state == s && e.calls == [StatCall(dev), OpenCall(ProcMounts, -1)]
  {
  }

  /** When the device is mounted and umount fails, -1 is returned and the
      device is never cleared: the last call is the umount. */
  lemma RemoveLoopDeviceUmountFails(s: State, env: Env, dev: string)
    requires !ProbeFails(s, env, dev) && Mounted(s, dev) && env.umountErr.Some?
    ensures var e := RemoveLoopDeviceEffect(s, env, dev);
      e.value == -1 && e.state == s && e.calls[|e.calls| - 1] == UmountCall(dev) &&
      forall c :: c in e.calls ==> !c.ClearCall?
  {
    IsLoopMountedExactly(s, env, dev, false);
    var probe := IsLoopMountedEffect(s, env, dev, false);
    assert probe.calls == [StatCall(dev), OpenCall(ProcMounts, LowestFreeFd(s.fds)), CloseCall(LowestFreeFd(s.fds))];
  }

  /** Once the device is known not to be mounted, or was unmounted, the base
      device is opened and cleared on the descriptor just opened, which is
      then closed whatever the clear answered. Success (0) means the slot
      the base device names was bound and now is not; on failure the slot
      table is as before. The mount table loses the device's entries exactly
      when it was mounted. */
  lemma RemoveLoopDeviceClearsBase(s: State, env: Env, dev: string)
    requires !ProbeFails(s, env, dev) && (Mounted(s, dev) ==> env.umountErr.None?)
    requires env.deviceOpenErr.None?
    ensures var e := RemoveLoopDeviceEffect(s, env, dev);
      var fd := LowestFreeFd(s.fds);
      var base := NonPartitionPath(dev);
      |e.calls| >= 3 &&
      e.calls[|e.calls| - 3..] == [OpenCall(base, fd), ClearCall(fd), CloseCall(fd)] &&
      e.state.fds == s.fds &&
      e.state.mounts == (if Mounted(s, dev) then Unmounted(s.mounts, dev) else s.mounts) &&
      (e.value == 0 <==> env.releaseClearErr.None? && ParseLoopPath(base).Some? && ParseLoopPath(base).value in s.bindings) &&
      (e.value == 0 ==> e.state.bindings == s.bindings - {ParseLoopPath(base).value}) &&
      (e.value != 0 ==> e.value == -1 && e.state.bindings == s.bindings)
  {
    IsLoopMountedExactly(s, env, dev, false);
    var probe := IsLoopMountedEffect(s, env, dev, false);
    var um := if probe.value.1 then UmountStep(probe.state, dev, env.umountErr) else Step(true, probe.state, []);
    assert um.state.fds == s.fds;
    CloseAfterOpen(um.state, NonPartitionPath(dev), env.deviceOpenErr);
  }

  /** When the base device cannot be opened, -1 is returned and nothing is
      cleared: the failed open is the last call, the slots and descriptors
      are as before, and the mount table is as the optional umount left it. */
  lemma RemoveLoopDeviceOpenFails(s: State, env: Env, dev: string)
    requires !ProbeFails(s, env, dev) && (Mounted(s, dev) ==> env.umountErr.None?)
    requires env.deviceOpenErr.Some?
    ensures var e := RemoveLoopDeviceEffect(s, env, dev);
      e.value == -1 && |e.calls| >= 1 &&
      e.calls[|e.calls| - 1] == OpenCall(NonPartitionPath(dev), -1) &&
      (forall c :: c in e.calls ==> !c.ClearCall?) &&
      e.state.fds == s.fds && e.state.bindings == s.bindings &&
      e.state.mounts == (if Mounted(s, dev) then Unmounted(s.mounts, dev) else s.mounts)
  {
    IsLoopMountedExactly(s, env, dev, false);
    var probe := IsLoopMountedEffect(s, env, dev, false);
    if dev in s.blockDevices {
      CloseAfterOpen(s, ProcMounts, env.probeMountsOpenErr);
      assert probe.calls == [StatCall(dev), OpenCall(ProcMounts, LowestFreeFd(s.fds)), CloseCall(LowestFreeFd(s.fds))];
    }
  }

  /** Every descriptor removeLoopDevice opens is closed again, on every path. */
  lemma RemoveLoopDeviceKeepsFds(s: State, env: Env, dev: string)
    ensures RemoveLoopDeviceEffect(s, env, dev).state.fds == s.fds
  {
    IsLoopMountedExactly(s, env, dev, false);
    if !ProbeFails(s, env, dev) && (Mounted(s, dev) ==> env.umountErr.None?) && env.deviceOpenErr.None? {
      RemoveLoopDeviceClearsBase(s, env, dev);
    }
  }

  /** Releasing `/dev/loopN` does not look at its partitions: while
      `/dev/loopNpM` is mounted and `/dev/loopN` itself is not, the slot is
      cleared and the partition's mount entry stays in the table. */
  lemma RemoveLoopDeviceIgnoresPartitions(s: State, env: Env, i: nat, m: nat, dir: string)
    requires LoopPath(i) in s.blockDevices && !HasFsname(s.mounts, LoopPath(i))
    requires MountEntry(LoopPath(i) + "p" + Decimal(m), dir) in s.mounts
    requires i in s.bindings
    requires env.probeMountsOpenErr.None? && env.deviceOpenErr.None? && env.releaseClearErr.None?
    ensures var e := RemoveLoopDeviceEffect(s, env, LoopPath(i));
      e.value == 0 && i !in e.state.bindings &&
      MountEntry(LoopPath(i) + "p" + Decimal(m), dir) in e.state.mounts
  {
    NonPartitionPathOfDevice(i);
    ParseLoopPathOfLoopPath(i);
    RemoveLoopDeviceClearsBase(s, env, LoopPath(i));
  }

  method RemoveLoopDevice(k: Kernel, env: Env, dev: string) returns (r: int)
    modifies k
    ensures var e := RemoveLoopDeviceEffect(old(k.Snapshot()), env, dev);
      r == e.value && k.Snapshot() == e.state && k.trace == old(k.trace) + e.calls
  {
    ghost var s0, t0 := k.Snapshot(), k.trace;
    ghost var e := RemoveLoopDeviceEffect(s0, env, dev);
    ghost var probe := IsLoopMountedEffect(s0, env, dev, false);
    var isMounted := false;
    var probed;
    probed, isMounted := IsLoopMounted(k, env, dev, isMounted);
    if probed < 0 {
      return -1;
    }
    ghost var um := if probe.value.1 then UmountStep(probe.state, dev, env.umountErr) else Step(true, probe.state, []);
    if isMounted {
      var unmounted := k.Umount(dev, env.umountErr);
      TraceRegroup(t0, probe.calls, um.calls);
      if !unmounted {
        return -1;
      }
    } else {
      assert probe.calls + um.calls == probe.calls;
    }
    ghost var acc := probe.calls + um.calls;
    assert um.value && k.Snapshot() == um.state && k.trace == t0 + acc;
    var nonPartitionPath := NonPartitionPath(dev);
    ghost var openStep := OpenStep(um.state, nonPartitionPath, env.deviceOpenErr);
    var loopFd := k.Open(nonPartitionPath, env.deviceOpenErr);
    TraceRegroup(t0, acc, openStep.calls);
    acc := acc + openStep.calls;
    if loopFd < 0 {
      return -1;
    }
    ghost var clr := ClearStep(openStep.state, loopFd, env.releaseClearErr);
    ghost var c := CloseStep(clr.state, loopFd);
    assert e == Step(if clr.value then 0 else -1, c.state, acc + clr.calls + c.calls);
    var cleared := k.Clear(loopFd, env.releaseClearErr);
    TraceRegroup(t0, acc, clr.calls);
    acc := acc + clr.calls;
    if !cleared {
      k.Close(loopFd);
      TraceRegroup(t0, acc, c.calls);
      return -1;
    }
    k.Close(loopFd);
    TraceRegroup(t0, acc, c.calls);
    return 0;
  }

  // ----- removeMountpoint -----

  /** Find the source mounted at `path`, then release it. */
  function RemoveMountpointEffect(s: State, env: Env, path: string): Step<int>
  {
    var found := FindLoopDeviceEffect(s, env, path, "");
    if found.value.0 != 0 then Step(-1, found.state, found.calls)
    else
      var rm := RemoveLoopDeviceEffect(found.state, env, found.value.1);
      Step(if rm.value < 0 then -1 else 0, rm.state, found.calls + rm.calls)
  }

  /** With no entry mounted at `path`, removeMountpoint returns -1 and
      changes nothing; it only opens and closes /proc/mounts. */
  lemma RemoveMountpointNoEntry(s: State, env: Env, path: string)
    requires forall j :: 0 <= j < |s.mounts| ==> s.mounts[j].dir != path
    ensures var e := RemoveMountpointEffect(s, env, path);
      e.value == -1 && e.state == s &&
      forall c :: c in e.calls ==> (c.OpenCall? && c.path == ProcMounts) || c.CloseCall?
  {
    FindLoopDeviceFirstMatch(s, env, path, "");
  }

  /** Otherwise it releases the source of the first entry mounted at `path`,
      and answers what that release answered. */
  lemma RemoveMountpointDelegates(s: State, env: Env, path: string, i: nat)
    requires env.findMountsOpenErr.None?
    requires i < |s.mounts| && s.mounts[i].dir == path
    requires forall j :: 0 <= j < i ==> s.mounts[j].dir != path
    ensures var e := RemoveMountpointEffect(s, env, path);
      var rm := RemoveLoopDeviceEffect(s, env, s.mounts[i].fsname);
      e.value == rm.value && e.state == rm.state
  {
    FindLoopDeviceFirstMatch(s, env, path, "");
    var found := FindLoopDeviceEffect(s, env, path, "");
    var i' :| 0 <= i' < |s.mounts| && s.mounts[i'].dir == path && found.value.1 == s.mounts[i'].fsname &&
      forall j :: 0 <= j < i' ==> s.mounts[j].dir != path;
    assert i' == i;
    RemoveLoopDeviceResult(found.state, env, found.value.1);
  }

  /** When the entry is found but the release cannot read the mount table
      (isLoopMounted's own open of /proc/mounts fails), removeMountpoint
      returns -1 and nothing changes. */
  lemma RemoveMountpointProbeFails(s: State, env: Env, path: string, i: nat)
    requires env.findMountsOpenErr.None? && env.probeMountsOpenErr.Some?
    requires i < |s.mounts| && s.mounts[i].dir == path && s.mounts[i].fsname in s.blockDevices
    requires forall j :: 0 <= j < i ==> s.mounts[j].dir != path
    ensures var e := RemoveMountpointEffect(s, env, path);
      e.value == -1 && e.state == s
  {
    RemoveMountpointDelegates(s, env, path, i);
    RemoveLoopDeviceProbeFails(s, env, s.mounts[i].fsname);
  }

  /** removeLoopDevice answers 0 or -1. */
  lemma RemoveLoopDeviceResult(s: State, env: Env, dev: string)
    ensures var e := RemoveLoopDeviceEffect(s, env, dev); e.value == 0 || e.value == -1
  {
  }

  method RemoveMountpoint(k: Kernel, env: Env, path: string) returns (r: int)
    modifies k
    ensures var e := RemoveMountpointEffect(old(k.Snapshot()), env, path);
      r == e.value && k.Snapshot() == e.state && k.trace == old(k.trace) + e.calls
  {
    ghost var s0, t0 := k.Snapshot(), k.trace;
    ghost var f := FindLoopDeviceEffect(s0, env, path, "");
    var found, loopDevice := FindLoopDevice(k, env, path, "");
    assert found == f.value.0 && loopDevice == f.value.1 && k.Snapshot() == f.state && k.trace == t0 + f.calls;
    if found != 0 {
      assert RemoveMountpointEffect(s0, env, path) == Step(-1, f.state, f.calls);
      return -1;
    }
    ghost var rm := RemoveLoopDeviceEffect(f.state, env, loopDevice);
    ghost var e := RemoveMountpointEffect(s0, env, path);
    assert e == Step(if rm.value < 0 then -1 else 0, rm.state, f.calls + rm.calls);
    var removed := RemoveLoopDevice(k, env, loopDevice);
    assert removed == rm.value && k.Snapshot() == rm.state && k.trace == t0 + f.calls + rm.calls;
    TraceRegroup(t0, f.calls, rm.calls);
    assert k.trace == t0 + e.calls;
    if removed < 0 {
      return -1;
    }
    return 0;
  }

  // ----- removePartition -----

  /** Check access; then release a block device directly, or anything else
      as a mount point. */
  function RemovePartitionEffect(s: State, env: Env, path: string): Step<int>
  {
    var checked := FileAccessCheckEffect(s, path);
    if checked.value != 0 then Step(-1, checked.state, checked.calls)
    else
      var probe := IsLoopDeviceEffect(checked.state, path);
      var rm := if probe.value.1 then RemoveLoopDeviceEffect(probe.state, env, path)
                else RemoveMountpointEffect(probe.state, env, path);
      Step(rm.value, rm.state, checked.calls + probe.calls + rm.calls)
  }

  /** The access check comes first: an inaccessible path gives -1 after the
      access calls alone. An accessible block device goes to removeLoopDevice
      and any other path to removeMountpoint. */
  lemma RemovePartitionDispatch(s: State, env: Env, path: string)
    ensures var e := RemovePartitionEffect(s, env, path);
      e.calls[0] == AccessCall(path, ExistsMode)
    ensures var e := RemovePartitionEffect(s, env, path);
      var usable := path in s.access && s.access[path].readable && s.access[path].writable;
      (!usable ==> e.value == -1 && e.state == s && forall c :: c in e.calls ==> c.AccessCall?) &&
      (usable && path in s.blockDevices ==>
         e.value == RemoveLoopDeviceEffect(s, env, path).value && e.state == RemoveLoopDeviceEffect(s, env, path).state) &&
      (usable && path !in s.blockDevices ==>
         e.value == RemoveMountpointEffect(s, env, path).value && e.state == RemoveMountpointEffect(s, env, path).state)
  {
    FileAccessCheckExactly(s, path);
  }

  /** `-r` on the "/dev/loopN" path of a bound slot that is accessible,
      block-special and not mounted clears that slot and nothing else,
      when the kernel lets the probe, the open and the clear go through. */
  lemma RemovePartitionReleasesSlot(s: State, env: Env, i: nat)
    requires var dev := LoopPath(i);
      dev in s.access && s.access[dev].readable && s.access[dev].writable &&
      dev in s.blockDevices && !HasFsname(s.mounts, dev) && i in s.bindings
    requires env.probeMountsOpenErr.None? && env.deviceOpenErr.None? && env.releaseClearErr.None?
    ensures var r := RemovePartitionEffect(s, env, LoopPath(i));
      r.value == 0 && r.state.bindings == s.bindings - {i} && r.state.fds == s.fds && r.state.mounts == s.mounts
  {
    var dev := LoopPath(i);
    RemovePartitionDispatch(s, env, dev);
    RemoveLoopDeviceClearsBase(s, env, dev);
    NonPartitionPathOfDevice(i);
    ParseLoopPathOfLoopPath(i);
  }

  method RemovePartition(k: Kernel, env: Env, path: string) returns (r: int)
    modifies k
    ensures var e := RemovePartitionEffect(old(k.Snapshot()), env, path);
      r == e.value && k.Snapshot() == e.state && k.trace == old(k.trace) + e.calls
  {
    ghost var s0, t0 := k.Snapshot(), k.trace;
    ghost var a := FileAccessCheckEffect(s0, path);
    var checked := FileAccessCheck(k, path);
    if checked != 0 {
      return -1;
    }
    ghost var l := IsLoopDeviceEffect(a.state, path);
    var probed, loopDeviceFlag := IsLoopDevice(k, path);
    assert loopDeviceFlag == l.value.1 && k.Snapshot() == l.state;
    TraceRegroup(t0, a.calls, l.calls);
    ghost var t1 := k.trace;
    assert t1 == t0 + (a.calls + l.calls);
    ghost var rm := if l.value.1 then RemoveLoopDeviceEffect(l.state, env, path)
                    else RemoveMountpointEffect(l.state, env, path);
    assert RemovePartitionEffect(s0, env, path) == Step(rm.value, rm.state, a.calls + l.calls + rm.calls);
    if loopDeviceFlag {
      r := RemoveLoopDevice(k, env, path);
    } else {
      r := RemoveMountpoint(k, env, path);
    }
    assert r == rm.value && k.Snapshot() == rm.state && k.trace == t1 + rm.calls;
    TraceRegroup(t0, a.calls + l.calls, rm.calls);
  }
}
