/** The part of the Linux kernel that the partition handler talks to, reduced
    to the state it reads and changes: the mount table, the block-special
    paths, per-path access bits, the loop slots and their backing names, and
    the open file descriptors. Every system call is a step function on that
    state which also returns the call as the program issued it; the outcome
    the kernel would choose for reasons outside this state (a device that
    udev has not yet made accessible, an ioctl that fails) is an oracle
    argument. The `Kernel` class holds the same state in fields, plus the
    trace of calls made so far, and performs one step per method. */
module Sys {
  import opened Text

  /** The strings of the C++ program (argv, paths, mount-table fields, the
      loop name) are `std::string`s, that is byte strings: each `char` here
      stands for one byte and its value is below 256. */
  predicate IsByteString(s: seq<char>)
  {
    forall i :: 0 <= i < |s| ==> s[i] as int < 256
  }

  /** The errno of a failed call; the retry loop distinguishes EACCES and ENOENT. */
  datatype Errno = EACCES | ENOENT | EOther(code: nat)

  /** access(2) modes used: F_OK, and R_OK | W_OK. */
  datatype AccessMode = ExistsMode | ReadWriteMode

  /** One line of /proc/mounts: the mounted source and the mount point. */
  datatype MountEntry = MountEntry(fsname: string, dir: string)

  /** Whether the calling process may read and write a path that exists. */
  datatype Perm = Perm(readable: bool, writable: bool)

  /** A system call as issued, with the descriptor it returned or used. */
  datatype Call =
    | AccessCall(path: string, mode: AccessMode)
    | StatCall(path: string)
    | OpenCall(path: string, result: int)
    | CloseCall(fd: nat)
    | GetFreeCall(controlFd: nat)
    | ConfigureCall(loopFd: nat, imageFd: nat, name: seq<char>, partScan: bool)
    | ClearCall(fd: nat)
    | UmountCall(target: string)

  /** The kernel state. A path absent from `access` does not exist; a slot
      absent from `bindings` is unbound. */
  datatype State = State(
    mounts: seq<MountEntry>,
    blockDevices: set<string>,
    access: map<string, Perm>,
    bindings: map<nat, string>,
    fds: map<nat, string>)

  /** What one step returns: its value, the new state and the calls issued. */
  datatype Step<T> = Step(value: T, state: State, calls: seq<Call>)

  const LoopControl := "/dev/loop-control"
  const ProcMounts := "/proc/mounts"
  const LoopPrefix := "/dev/loop"

  /** "/dev/loop" followed by the decimal slot index. */
  function LoopPath(i: nat): (p: string)
    ensures StartsWith(p, LoopPrefix)
  {
    LoopPrefix + Decimal(i)
  }

  /** The slot a device path names, if it is "/dev/loop" and a canonical decimal. */
  function ParseLoopPath(p: string): (r: Option<nat>)
    ensures r.Some? ==> StartsWith(p, LoopPrefix)
  {
    if StartsWith(p, LoopPrefix) && CanonicalDecimal(p[|LoopPrefix|..]) then
      Some(DecimalValue(p[|LoopPrefix|..]))
    else None
  }

  /** The device path of a slot names that slot. */
  lemma ParseLoopPathOfLoopPath(i: nat)
    ensures ParseLoopPath(LoopPath(i)) == Some(i)
  {
    var p := LoopPath(i);
    assert p[|LoopPrefix|..] == Decimal(i);
    DecimalValueOfDecimal(i);
  }

  /** A path that names a slot is that slot's device path. */
  lemma LoopPathOfParseLoopPath(p: string)
    requires ParseLoopPath(p).Some?
    ensures LoopPath(ParseLoopPath(p).value) == p
  {
    var digits := p[|LoopPrefix|..];
    DecimalOfDecimalValue(digits);
    assert p == LoopPrefix + digits;
  }

  /** The smallest number at or above `from` that is not in `keys`. */
  function LowestAbsent(keys: set<nat>, from: nat): (r: nat)
    ensures from <= r && r !in keys
    ensures forall j :: from <= j < r ==> j in keys
    decreases |keys|
  {
    if from !in keys then from
    else
      var r := LowestAbsent(keys - {from}, from + 1);
      assert forall j :: from <= j < r ==> j in keys by {
        forall j | from <= j < r ensures j in keys {
          if j > from {
            assert j in keys - {from};
          }
        }
      }
      r
  }

  /** open(2) returns the lowest descriptor not in use. */
  function LowestFreeFd(fds: map<nat, string>): (fd: nat)
    ensures fd !in fds && forall j :: 0 <= j < fd ==> j in fds
  {
    LowestAbsent(fds.Keys, 0)
  }

  /** LOOP_CTL_GET_FREE answers the lowest unbound slot. */
  function LowestUnbound(bindings: map<nat, string>): (i: nat)
    ensures i !in bindings && forall j :: 0 <= j < i ==> j in bindings
  {
    LowestAbsent(bindings.Keys, 0)
  }

  // ----- one step per system call -----

  /** access(path, mode): 0 iff the path exists and, for R_OK | W_OK, is
      readable and writable. */
  function AccessStep(s: State, path: string, mode: AccessMode): (r: Step<bool>)
    ensures r.state == s && r.calls == [AccessCall(path, mode)]
    ensures r.value <==> (path in s.access &&
      (mode == ReadWriteMode ==> s.access[path].readable && s.access[path].writable))
  {
    var ok := path in s.access &&
      (mode == ReadWriteMode ==> s.access[path].readable && s.access[path].writable);
    Step(ok, s, [AccessCall(path, mode)])
  }

  /** stat(path) succeeds and reports a block-special file. */
  function StatBlockStep(s: State, path: string): (r: Step<bool>)
    ensures r.state == s && r.calls == [StatCall(path)]
    ensures r.value <==> path in s.blockDevices
  {
    Step(path in s.blockDevices, s, [StatCall(path)])
  }

  /** open(path): the lowest free descriptor, or -1 when the oracle `err`
      says the open fails. */
  function OpenStep(s: State, path: string, err: Option<Errno>): (r: Step<int>)
    ensures r.calls == [OpenCall(path, r.value)]
    ensures err.Some? ==> r.value == -1 && r.state == s
    ensures err.None? ==> r.value == LowestFreeFd(s.fds) && r.state == s.(fds := s.fds[r.value := path])
  {
    if err.Some? then Step(-1, s, [OpenCall(path, -1)])
    else
      var fd := LowestFreeFd(s.fds);
      Step(fd, s.(fds := s.fds[fd := path]), [OpenCall(path, fd)])
  }

  /** close(fd). */
  function CloseStep(s: State, fd: nat): (r: Step<()>)
    ensures r.state == s.(fds := s.fds - {fd}) && r.calls == [CloseCall(fd)]
  {
    Step((), s.(fds := s.fds - {fd}), [CloseCall(fd)])
  }

  /** ioctl(controlFd, LOOP_CTL_GET_FREE): the lowest unbound slot, or -1. */
  function GetFreeStep(s: State, controlFd: nat, err: Option<Errno>): (r: Step<int>)
    ensures r.state == s && r.calls == [GetFreeCall(controlFd)]
    ensures err.Some? ==> r.value == -1
    ensures err.None? ==> r.value == LowestUnbound(s.bindings)
  {
    Step(if err.Some? then -1 else LowestUnbound(s.bindings), s, [GetFreeCall(controlFd)])
  }

  /** The C string held in a buffer: the characters before the first NUL. */
  function CString(buf: seq<char>): (r: seq<char>)
    ensures |r| <= |buf| && r == buf[..|r|] && '\0' !in r
    ensures |r| < |buf| ==> buf[|r|] == '\0'
  {
    if buf == [] || buf[0] == '\0' then [] else [buf[0]] + CString(buf[1..])
  }

  /** The slot whose device `fd` has open, if it is a loop device. */
  function SlotOf(s: State, fd: nat): Option<nat>
  {
    if fd in s.fds then ParseLoopPath(s.fds[fd]) else None
  }

  /** ioctl(loopFd, LOOP_CONFIGURE): binds the unbound slot open at `loopFd`
      to the image open at `imageFd`, under the name held in `name`. */
  function ConfigureStep(s: State, loopFd: nat, imageFd: nat, name: seq<char>, partScan: bool,
                         err: Option<Errno>): (r: Step<bool>)
    ensures r.calls == [ConfigureCall(loopFd, imageFd, name, partScan)]
    ensures r.value <==> (err.None? && SlotOf(s, loopFd).Some? &&
      SlotOf(s, loopFd).value !in s.bindings && imageFd in s.fds)
    ensures r.value ==> r.state == s.(bindings := s.bindings[SlotOf(s, loopFd).value := CString(name)])
    ensures !r.value ==> r.state == s
  {
    var slot := SlotOf(s, loopFd);
    var call := [ConfigureCall(loopFd, imageFd, name, partScan)];
    if err.None? && slot.Some? && slot.value !in s.bindings && imageFd in s.fds then
      Step(true, s.(bindings := s.bindings[slot.value := CString(name)]), call)
    else Step(false, s, call)
  }

  /** ioctl(fd, LOOP_CLR_FD): unbinds the bound slot open at `fd`. */
  function ClearStep(s: State, fd: nat, err: Option<Errno>): (r: Step<bool>)
    ensures r.calls == [ClearCall(fd)]
    ensures r.value <==> err.None? && SlotOf(s, fd).Some? && SlotOf(s, fd).value in s.bindings
    ensures r.value ==> r.state == s.(bindings := s.bindings - {SlotOf(s, fd).value})
    ensures !r.value ==> r.state == s
  {
    var slot := SlotOf(s, fd);
    if err.None? && slot.Some? && slot.value in s.bindings then
      Step(true, s.(bindings := s.bindings - {slot.value}), [ClearCall(fd)])
    else Step(false, s, [ClearCall(fd)])
  }

  /** The mount table without the entries whose source is `target`. */
  function Unmounted(mounts: seq<MountEntry>, target: string): (r: seq<MountEntry>)
    ensures forall e :: e in r <==> e in mounts && e.fsname != target
  {
    if mounts == [] then []
    else
      var rest := Unmounted(mounts[..|mounts| - 1], target);
      var e := mounts[|mounts| - 1];
      assert forall x :: x in mounts <==> x in mounts[..|mounts| - 1] || x == e;
      if e.fsname == target then rest else rest + [e]
  }

  /** umount(target) for a mounted source: its entries leave the table. */
  function UmountStep(s: State, target: string, err: Option<Errno>): (r: Step<bool>)
    ensures r.calls == [UmountCall(target)]
    ensures r.value <==> err.None?
    ensures r.value ==> r.state == s.(mounts := Unmounted(s.mounts, target))
    ensures !r.value ==> r.state == s
  {
    if err.None? then Step(true, s.(mounts := Unmounted(s.mounts, target)), [UmountCall(target)])
    else Step(false, s, [UmountCall(target)])
  }

  /** The index of the first entry, in table order, whose mount point is `dir`. */
  function FirstWithDir(mounts: seq<MountEntry>, dir: string): (r: Option<nat>)
    ensures r.Some? ==> r.value < |mounts| && mounts[r.value].dir == dir
    ensures r.Some? ==> forall j :: 0 <= j < r.value ==> mounts[j].dir != dir
    ensures r.None? ==> forall j :: 0 <= j < |mounts| ==> mounts[j].dir != dir
  {
    if mounts == [] then None
    else if mounts[0].dir == dir then Some(0)
    else match FirstWithDir(mounts[1..], dir)
      case None => None
      case Some(i) => Some(i + 1)
  }

  /** Some entry's source is exactly `fsname`. */
  predicate HasFsname(mounts: seq<MountEntry>, fsname: string)
  {
    exists j :: 0 <= j < |mounts| && mounts[j].fsname == fsname
  }

  /** Closing the descriptor an open returned gives back the state before
      the open. */
  lemma CloseAfterOpen(s: State, path: string, err: Option<Errno>)
    requires err.None?
    ensures var o := OpenStep(s, path, err);
      o.value >= 0 && CloseStep(o.state, o.value).state == s
  {
    var fd := LowestFreeFd(s.fds);
    assert s.fds[fd := path] - {fd} == s.fds;
  }

  /** Binding an unbound slot and releasing it again gives the slots back. */
  lemma BindThenRelease(bindings: map<nat, string>, i: nat, name: string)
    requires i !in bindings
    ensures bindings[i := name] - {i} == bindings
  {
    assert (bindings[i := name] - {i}).Keys == bindings.Keys;
  }

  /** Traces are appended to; regrouping the appended parts. */
  lemma TraceRegroup(t: seq<Call>, a: seq<Call>, b: seq<Call>)
    ensures t + a + b == t + (a + b)
  {
  }

  /** The answers of the world outside the modelled state, one per call
      site: the effective uid, realpath(3), whether each open or ioctl
      fails (the open of "/dev/loopN" per attempt), and whether umount
      fails. /proc/mounts is opened at two sites: by findLoopDevice
      (`findMountsOpenErr`) and by isLoopMounted (`probeMountsOpenErr`).
      LOOP_CLR_FD is issued at two sites: to release a device
      (`releaseClearErr`) and to roll back a failed configure
      (`rollbackClearErr`). */
  datatype Env = Env(
    euid: nat,
    realpath: string -> Option<string>,
    findMountsOpenErr: Option<Errno>,
    probeMountsOpenErr: Option<Errno>,
    controlOpenErr: Option<Errno>,
    getFreeErr: Option<Errno>,
    loopOpenErr: nat -> Option<Errno>,
    imageOpenErr: Option<Errno>,
    configureErr: Option<Errno>,
    umountErr: Option<Errno>,
    deviceOpenErr: Option<Errno>,
    releaseClearErr: Option<Errno>,
    rollbackClearErr: Option<Errno>)

  /** The kernel as the program sees it, changed in place by each call. */
  class Kernel {
    var mounts: seq<MountEntry>
    var blockDevices: set<string>
    var access: map<string, Perm>
    var bindings: map<nat, string>
    var fds: map<nat, string>
    /** The calls issued so far, oldest first. */
    var trace: seq<Call>

    function Snapshot(): State
      reads this
    {
      State(mounts, blockDevices, access, bindings, fds)
    }

    constructor (s: State)
      ensures Snapshot() == s && trace == []
    {
      mounts, blockDevices, access, bindings, fds := s.mounts, s.blockDevices, s.access, s.bindings, s.fds;
      trace := [];
    }

    /** Sets the state to what a step produced and records its calls. */
    method Apply<T>(r: Step<T>)
      modifies this
      ensures Snapshot() == r.state && trace == old(trace) + r.calls
    {
      mounts, blockDevices, access, bindings, fds := r.state.mounts, r.state.blockDevices,
        r.state.access, r.state.bindings, r.state.fds;
      trace := trace + r.calls;
    }

    method Access(path: string, mode: AccessMode) returns (ok: bool)
      modifies this
      ensures var r := AccessStep(old(Snapshot()), path, mode);
        ok == r.value && Snapshot() == r.state && trace == old(trace) + r.calls
    {
      var r := AccessStep(Snapshot(), path, mode);
      Apply(r);
      ok := r.value;
    }

    method StatBlock(path: string) returns (isBlock: bool)
      modifies this
      ensures var r := StatBlockStep(old(Snapshot()), path);
        isBlock == r.value && Snapshot() == r.state && trace == old(trace) + r.calls
    {
      var r := StatBlockStep(Snapshot(), path);
      Apply(r);
      isBlock := r.value;
    }

    method Open(path: string, err: Option<Errno>) returns (fd: int)
      modifies this
      ensures var r := OpenStep(old(Snapshot()), path, err);
        fd == r.value && Snapshot() == r.state && trace == old(trace) + r.calls
    {
      var r := OpenStep(Snapshot(), path, err);
      Apply(r);
      fd := r.value;
    }

    method Close(fd: nat)
      modifies this
      ensures var r := CloseStep(old(Snapshot()), fd);
        Snapshot() == r.state && trace == old(trace) + r.calls
    {
      var r := CloseStep(Snapshot(), fd);
      Apply(r);
    }

    method GetFree(controlFd: nat, err: Option<Errno>) returns (slot: int)
      modifies this
      ensures var r := GetFreeStep(old(Snapshot()), controlFd, err);
        slot == r.value && Snapshot() == r.state && trace == old(trace) + r.calls
    {
      var r := GetFreeStep(Snapshot(), controlFd, err);
      Apply(r);
      slot := r.value;
    }

    method Configure(loopFd: nat, imageFd: nat, name: seq<char>, partScan: bool, err: Option<Errno>)
      returns (ok: bool)
      modifies this
      ensures var r := ConfigureStep(old(Snapshot()), loopFd, imageFd, name, partScan, err);
        ok == r.value && Snapshot() == r.state && trace == old(trace) + r.calls
    {
      var r := ConfigureStep(Snapshot(), loopFd, imageFd, name, partScan, err);
      Apply(r);
      ok := r.value;
    }

    method Clear(fd: nat, err: Option<Errno>) returns (ok: bool)
      modifies this
      ensures var r := ClearStep(old(Snapshot()), fd, err);
        ok == r.value && Snapshot() == r.state && trace == old(trace) + r.calls
    {
      var r := ClearStep(Snapshot(), fd, err);
      Apply(r);
      ok := r.value;
    }

    method Umount(target: string, err: Option<Errno>) returns (ok: bool)
      modifies this
      ensures var r := UmountStep(old(Snapshot()), target, err);
        ok == r.value && Snapshot() == r.state && trace == old(trace) + r.calls
    {
      var r := UmountStep(Snapshot(), target, err);
      Apply(r);
      ok := r.value;
    }
  }
}
