/** scripts/partitionHandler/add.cpp: bind a raw image file to a free loop
    slot with partition scanning on. Each method is proved equal to an effect
    function on the kernel state; the lemmas state what attaching promises. */
module PartitionAdd {
  import opened Text
  import opened Sys
  import opened PartitionUtil

  // ----- the loop-device open, retried while udev catches up -----

  /** The errors after which the open of "/dev/loopN" is tried again. */
  predicate Retryable(e: Errno)
  {
    e == EACCES || e == ENOENT
  }

  /** The last attempt index: the first try and sixteen retries. */
  const LastAttempt: nat := 16

  /** `n` failed opens of `path`, as they appear in the trace. */
  function Failed(path: string, n: nat): (calls: seq<Call>)
    ensures |calls| == n && forall j :: 0 <= j < n ==> calls[j] == OpenCall(path, -1)
  {
    seq(n, j => OpenCall(path, -1))
  }

  /** Attempt `cnt` opens `path`; the loop ends on a positive descriptor, on
      an errno other than EACCES and ENOENT (which includes the errno 0 left
      by an open that returned descriptor 0), or after the last attempt;
      otherwise the next attempt follows. */
  function RetryOpenEffect(s: State, path: string, errs: nat -> Option<Errno>, cnt: nat): Step<int>
    requires cnt <= LastAttempt
    decreases LastAttempt - cnt
  {
    var o := OpenStep(s, path, errs(cnt));
    if o.value > 0 then o
    else if errs(cnt).None? || !Retryable(errs(cnt).value) then o
    else if cnt < LastAttempt then
      var rest := RetryOpenEffect(o.state, path, errs, cnt + 1);
      Step(rest.value, rest.state, o.calls + rest.calls)
    else o
  }

  /** Attempt `n` is the one that opens: every attempt from `from` before it
      failed with EACCES or ENOENT, and it does not fail. */
  predicate OpensAt(errs: nat -> Option<Errno>, from: nat, n: nat)
  {
    from <= n <= LastAttempt && errs(n).None? &&
    forall j :: from <= j < n ==> errs(j).Some? && Retryable(errs(j).value)
  }

  /** Some attempt from `from` on opens. */
  predicate SomeAttemptOpens(errs: nat -> Option<Errno>, from: nat)
  {
    exists n :: 0 <= n <= LastAttempt && OpensAt(errs, from, n)
  }

  /** The retried open succeeds iff some attempt opens before the attempts
      run out; it then holds the lowest free descriptor on `path`, and
      otherwise it has changed nothing. */
  lemma {:induction false} RetryOpenOutcome(s: State, path: string, errs: nat -> Option<Errno>, cnt: nat)
    requires cnt <= LastAttempt
    ensures var r := RetryOpenEffect(s, path, errs, cnt);
      (r.value >= 0 <==> SomeAttemptOpens(errs, cnt)) &&
      (r.value >= 0 ==> r.value == LowestFreeFd(s.fds) && r.state == s.(fds := s.fds[r.value := path])) &&
      (r.value < 0 ==> r.value == -1 && r.state == s)
    decreases LastAttempt - cnt
  {
    if errs(cnt).None? {
      assert OpensAt(errs, cnt, cnt);
    } else if !Retryable(errs(cnt).value) || cnt == LastAttempt {
      forall n: nat | 0 <= n <= LastAttempt ensures !OpensAt(errs, cnt, n) {
      }
    } else {
      RetryOpenOutcome(s, path, errs, cnt + 1);
      if SomeAttemptOpens(errs, cnt) {
        var n :| 0 <= n <= LastAttempt && OpensAt(errs, cnt, n);
        assert OpensAt(errs, cnt + 1, n);
      }
      if SomeAttemptOpens(errs, cnt + 1) {
        var n :| 0 <= n <= LastAttempt && OpensAt(errs, cnt + 1, n);
        assert OpensAt(errs, cnt, n);
      }
    }
  }

  /** The trace of the retried open is the failed attempts followed by the
      last one: at most seventeen opens in all, every one but the last
      failed. */
  lemma {:induction false} RetryOpenTrace(s: State, path: string, errs: nat -> Option<Errno>, cnt: nat)
    requires cnt <= LastAttempt
    ensures var r := RetryOpenEffect(s, path, errs, cnt);
      exists m :: 0 <= m <= LastAttempt - cnt && r.calls == Failed(path, m) + [OpenCall(path, r.value)]
    decreases LastAttempt - cnt
  {
    var r := RetryOpenEffect(s, path, errs, cnt);
    if errs(cnt).None? || !Retryable(errs(cnt).value) || cnt == LastAttempt {
      assert r.calls == Failed(path, 0) + [OpenCall(path, r.value)];
    } else {
      RetryOpenTrace(s, path, errs, cnt + 1);
      var rest := RetryOpenEffect(s, path, errs, cnt + 1);
      assert r.calls == [OpenCall(path, -1)] + rest.calls;
      var m :| 0 <= m <= LastAttempt - (cnt + 1) && rest.calls == Failed(path, m) + [OpenCall(path, rest.value)];
      assert [OpenCall(path, -1)] + Failed(path, m) == Failed(path, m + 1);
      assert r.calls == Failed(path, m + 1) + [OpenCall(path, r.value)];
    }
  }

  /** An attempt that ends the loop is the whole rest of it. */
  lemma RetryOpenStops(s: State, path: string, errs: nat -> Option<Errno>, cnt: nat)
    requires cnt <= LastAttempt
    requires OpenStep(s, path, errs(cnt)).value > 0 || errs(cnt).None? ||
      !Retryable(errs(cnt).value) || cnt == LastAttempt
    ensures RetryOpenEffect(s, path, errs, cnt) == OpenStep(s, path, errs(cnt))
  {
  }

  /** An attempt failing with EACCES or ENOENT before the last one changes
      nothing and adds one failed open to the trace. */
  lemma RetryOpenContinues(s: State, path: string, errs: nat -> Option<Errno>, cnt: nat)
    requires cnt < LastAttempt && errs(cnt).Some? && Retryable(errs(cnt).value)
    ensures var r := RetryOpenEffect(s, path, errs, cnt);
      var next := RetryOpenEffect(s, path, errs, cnt + 1);
      r.value == next.value && r.state == next.state &&
      Failed(path, cnt) + r.calls == Failed(path, cnt + 1) + next.calls
  {
    var next := RetryOpenEffect(s, path, errs, cnt + 1);
    assert Failed(path, cnt) + [OpenCall(path, -1)] == Failed(path, cnt + 1);
    assert Failed(path, cnt) + ([OpenCall(path, -1)] + next.calls) == Failed(path, cnt) + [OpenCall(path, -1)] + next.calls;
  }

  /** The do-while loop of createLoopDevice that opens "/dev/loopN". The
      25 ms pause between attempts is not modelled. */
  method OpenWithRetry(k: Kernel, path: string, errs: nat -> Option<Errno>) returns (loopFd: int)
    modifies k
    ensures var e := RetryOpenEffect(old(k.Snapshot()), path, errs, 0);
      loopFd == e.value && k.Snapshot() == e.state && k.trace == old(k.trace) + e.calls
  {
    ghost var s0, t0 := k.Snapshot(), k.trace;
    ghost var e := RetryOpenEffect(s0, path, errs, 0);
    assert Failed(path, 0) + e.calls == e.calls;
    var cnt := 0;
    while true
      invariant 0 <= cnt <= LastAttempt
      invariant k.Snapshot() == s0 && k.trace == t0 + Failed(path, cnt)
      invariant var rest := RetryOpenEffect(s0, path, errs, cnt);
        e.value == rest.value && e.state == rest.state && e.calls == Failed(path, cnt) + rest.calls
      decreases LastAttempt - cnt
    {
      ghost var o := OpenStep(s0, path, errs(cnt));
      loopFd := k.Open(path, errs(cnt));
      TraceRegroup(t0, Failed(path, cnt), o.calls);
      // errno is 0 after an open that succeeded with descriptor 0
      if loopFd > 0 || errs(cnt).None? || !Retryable(errs(cnt).value) || cnt >= LastAttempt {
        RetryOpenStops(s0, path, errs, cnt);
        assert k.trace == t0 + e.calls;
        break;
      }
      assert k.Snapshot() == s0 && o.calls == [OpenCall(path, -1)];
      RetryOpenContinues(s0, path, errs, cnt);
      cnt := cnt + 1;
    }
  }

  // ----- the name recorded in the loop configuration -----

  /** LO_NAME_SIZE: the size of `lo_file_name` in `struct loop_info64`. */
  const LoNameSize: nat := 64

  /** `lo_file_name` after the zeroing memset and strncpy of at most
      LO_NAME_SIZE - 1 bytes of the path's C string: the name, truncated,
      then NULs to the end; the last byte is always NUL. */
  function LoFileName(path: string): (buf: seq<char>)
    ensures |buf| == LoNameSize && buf[LoNameSize - 1] == '\0'
    ensures IsByteString(path) ==> IsByteString(buf)
  {
    var c := CString(path);
    var n := if |c| < LoNameSize - 1 then |c| else LoNameSize - 1;
    c[..n] + seq(LoNameSize - n, j => '\0')
  }

  /** The kernel reads back the path's C string truncated to 63 bytes, and
      the path itself when it is that short and has no NUL. */
  lemma LoFileNameHolds(path: string)
    ensures var c := CString(path);
      CString(LoFileName(path)) == c[..if |c| < LoNameSize - 1 then |c| else LoNameSize - 1]
    ensures |path| < LoNameSize && '\0' !in path ==> CString(LoFileName(path)) == path
  {
    var c := CString(path);
    var n := if |c| < LoNameSize - 1 then |c| else LoNameSize - 1;
    CStringOfPadded(c[..n], LoNameSize - n);
    if |path| < LoNameSize && '\0' !in path {
      CStringOfPlain(path);
    }
  }

  /** A NUL-free prefix followed by at least one NUL reads as that prefix. */
  lemma {:induction false} CStringOfPadded(c: seq<char>, pad: nat)
    requires '\0' !in c && pad > 0
    ensures CString(c + seq(pad, j => '\0')) == c
  {
    var buf := c + seq(pad, j => '\0');
    if c != [] {
      assert buf[1..] == c[1..] + seq(pad, j => '\0');
      CStringOfPadded(c[1..], pad);
    }
  }

  /** A string without NUL is its own C string. */
  lemma {:induction false} CStringOfPlain(c: seq<char>)
    requires '\0' !in c
    ensures CString(c) == c
  {
    if c != [] {
      CStringOfPlain(c[1..]);
    }
  }

  // ----- createLoopDevice -----

  /** Check the image is usable; take a free slot; open its device (with
      retries) and the image; configure the slot on the image with
      partition scanning, rolling back with LOOP_CLR_FD if that fails; close
      both descriptors; answer the slot. */
  function CreateLoopDeviceEffect(s: State, env: Env, image: string): Step<int>
  {
    var checked := FileAccessCheckEffect(s, image);
    if checked.value != 0 then Step(-1, checked.state, checked.calls)
    else
      var free := GetFreeLoopDeviceEffect(checked.state, env);
      if free.value < 0 then Step(-1, free.state, checked.calls + free.calls)
      else
        var loop := RetryOpenEffect(free.state, LoopPath(free.value), env.loopOpenErr, 0);
        var pre := checked.calls + free.calls + loop.calls;
        if loop.value < 0 then Step(-1, loop.state, pre)
        else
          var t := ConfigureImageEffect(loop.state, env, image, free.value, loop.value);
          Step(t.value, t.state, pre + t.calls)
  }

  /** The part of createLoopDevice after the device of `slot` is open on
      `loopFd`: open the image, configure the slot on it with partition
      scanning under the truncated name (clearing the slot again if that
      fails), close both descriptors, and answer the slot. */
  function ConfigureImageEffect(s: State, env: Env, image: string, slot: nat, loopFd: nat): Step<int>
  {
    var img := OpenStep(s, image, env.imageOpenErr);
    if img.value < 0 then
      var c := CloseStep(img.state, loopFd);
      Step(-1, c.state, img.calls + c.calls)
    else
      var cfg := ConfigureStep(img.state, loopFd, img.value, LoFileName(image), true, env.configureErr);
      if !cfg.value then
        var clr := ClearStep(cfg.state, loopFd, env.rollbackClearErr);
        var c1 := CloseStep(clr.state, img.value);
        var c2 := CloseStep(c1.state, loopFd);
        Step(-1, c2.state, img.calls + cfg.calls + clr.calls + c1.calls + c2.calls)
      else
        var c1 := CloseStep(cfg.state, img.value);
        var c2 := CloseStep(c1.state, loopFd);
        Step(slot, c2.state, img.calls + cfg.calls + c1.calls + c2.calls)
  }

  /** With the unbound slot's device open on `loopFd`, the slot is answered
      exactly when the image opens and LOOP_CONFIGURE succeeds, and it is
      then bound to the image under the truncated name; otherwise -1 and,
      the rollback included, the slots are as before. Both descriptors are
      closed on every path and the mount table is untouched. */
  lemma ConfigureImageOutcome(s: State, env: Env, image: string, slot: nat, loopFd: nat)
    requires loopFd in s.fds && SlotOf(s, loopFd) == Some(slot) && slot !in s.bindings
    ensures var t := ConfigureImageEffect(s, env, image, slot, loopFd);
      (t.value >= 0 <==> env.imageOpenErr.None? && env.configureErr.None?) &&
      (t.value >= 0 ==> t.value == slot && t.state.bindings == s.bindings[slot := CString(LoFileName(image))]) &&
      (t.value < 0 ==> t.value == -1 && t.state.bindings == s.bindings) &&
      t.state.fds == s.fds - {loopFd} && t.state.mounts == s.mounts &&
      t.state.access == s.access && t.state.blockDevices == s.blockDevices
  {
    var img := OpenStep(s, image, env.imageOpenErr);
    if img.value >= 0 {
      assert img.value != loopFd;
      assert SlotOf(img.state, loopFd) == Some(slot);
      var cfg := ConfigureStep(img.state, loopFd, img.value, LoFileName(image), true, env.configureErr);
      assert img.state.fds - {img.value} - {loopFd} == s.fds - {loopFd};
      if !cfg.value {
        assert !ClearStep(cfg.state, loopFd, env.rollbackClearErr).value;
      }
    }
  }

  /** Its LOOP_CONFIGURE request, if any, asks for partition scanning
      (LO_FLAGS_PARTSCAN) under the truncated name; when the slot is
      answered the request carried `loopFd` and the descriptor just opened
      on the image, the lowest free one. */
  lemma ConfigureImageScans(s: State, env: Env, image: string, slot: nat, loopFd: nat)
    ensures var t := ConfigureImageEffect(s, env, image, slot, loopFd);
      forall c :: c in t.calls && c.ConfigureCall? ==> c.partScan && c.name == LoFileName(image)
    ensures var t := ConfigureImageEffect(s, env, image, slot, loopFd);
      var imgFd := LowestFreeFd(s.fds);
      t.value >= 0 ==>
        OpenCall(image, imgFd) in t.calls && ConfigureCall(loopFd, imgFd, LoFileName(image), true) in t.calls
  {
    var img := OpenStep(s, image, env.imageOpenErr);
    if img.value >= 0 {
      var cfg := ConfigureStep(img.state, loopFd, img.value, LoFileName(image), true, env.configureErr);
      assert cfg.calls == [ConfigureCall(loopFd, img.value, LoFileName(image), true)];
      var c1 := CloseStep(cfg.state, img.value);
      if cfg.value {
        var c2 := CloseStep(c1.state, loopFd);
        assert ConfigureImageEffect(s, env, image, slot, loopFd).calls == img.calls + cfg.calls + c1.calls + c2.calls;
      } else {
        var clr := ClearStep(cfg.state, loopFd, env.rollbackClearErr);
        var d1 := CloseStep(clr.state, img.value);
        var d2 := CloseStep(d1.state, loopFd);
        assert ConfigureImageEffect(s, env, image, slot, loopFd).calls == img.calls + cfg.calls + clr.calls + d1.calls + d2.calls;
      }
    }
  }

  /** The image is usable: it exists and may be read and written. */
  predicate Usable(s: State, image: string)
  {
    image in s.access && s.access[image].readable && s.access[image].writable
  }

  /** Every step up to the configure succeeds. */
  predicate Attaches(s: State, env: Env, image: string)
  {
    Usable(s, image) && env.controlOpenErr.None? && env.getFreeErr.None? &&
    SomeAttemptOpens(env.loopOpenErr, 0) && env.imageOpenErr.None? && env.configureErr.None?
  }

  /** An unusable image is refused before any slot is asked for: only the
      access checks are issued and nothing changes. */
  lemma CreateLoopDeviceRefusesUnusable(s: State, env: Env, image: string)
    requires !Usable(s, image)
    ensures var e := CreateLoopDeviceEffect(s, env, image);
      e.value == -1 && e.state == s && forall c :: c in e.calls ==> c.AccessCall?
  {
    FileAccessCheckExactly(s, image);
  }

  /** createLoopDevice answers a slot exactly when every step succeeds; the
      slot is then the lowest one that was unbound, and it is now bound to
      the image under the (truncated) name. On failure it answers -1 and
      the slots are as before, the rollback included. The mount table, the
      block devices and the permissions are never touched, and every
      descriptor opened is closed on every path. */
  lemma CreateLoopDeviceOutcome(s: State, env: Env, image: string)
    ensures var e := CreateLoopDeviceEffect(s, env, image);
      (e.value >= 0 <==> Attaches(s, env, image)) &&
      (e.value >= 0 ==>
         e.value == LowestUnbound(s.bindings) &&
         e.state.bindings == s.bindings[e.value := CString(LoFileName(image))]) &&
      (e.value < 0 ==> e.value == -1 && e.state.bindings == s.bindings) &&
      e.state.fds == s.fds && e.state.mounts == s.mounts &&
      e.state.access == s.access && e.state.blockDevices == s.blockDevices
  {
    FileAccessCheckExactly(s, image);
    if Usable(s, image) {
      GetFreeLoopDeviceResult(s, env);
      var free := GetFreeLoopDeviceEffect(s, env);
      if free.value >= 0 {
        var path := LoopPath(free.value);
        RetryOpenOutcome(s, path, env.loopOpenErr, 0);
        var loop := RetryOpenEffect(s, path, env.loopOpenErr, 0);
        if loop.value >= 0 {
          ParseLoopPathOfLoopPath(free.value);
          assert SlotOf(loop.state, loop.value) == Some(free.value);
          ConfigureImageOutcome(loop.state, env, image, free.value, loop.value);
          assert loop.state.fds - {loop.value} == s.fds;
        }
      }
    }
  }

  /** No LOOP_CONFIGURE request is among `calls`. */
  predicate NoConfigure(calls: seq<Call>)
  {
    forall c :: c in calls ==> !c.ConfigureCall?
  }

  /** The calls of the retried open are all opens. */
  lemma RetryOpenOnlyOpens(s: State, path: string, errs: nat -> Option<Errno>)
    ensures NoConfigure(RetryOpenEffect(s, path, errs, 0).calls)
  {
    RetryOpenTrace(s, path, errs, 0);
    var r := RetryOpenEffect(s, path, errs, 0);
    var m :| 0 <= m <= LastAttempt && r.calls == Failed(path, m) + [OpenCall(path, r.value)];
    forall c | c in r.calls ensures c.OpenCall? {
      if c in Failed(path, m) {
        var j :| 0 <= j < m && Failed(path, m)[j] == c;
      }
    }
  }

  /** Every LOOP_CONFIGURE request createLoopDevice makes asks for partition
      scanning (LO_FLAGS_PARTSCAN) under the image's truncated name. */
  lemma CreateLoopDeviceScans(s: State, env: Env, image: string)
    ensures var e := CreateLoopDeviceEffect(s, env, image);
      forall c :: c in e.calls && c.ConfigureCall? ==> c.partScan && c.name == LoFileName(image)
  {
    var e := CreateLoopDeviceEffect(s, env, image);
    FileAccessCheckExactly(s, image);
    var checked := FileAccessCheckEffect(s, image);
    assert NoConfigure(checked.calls);
    if checked.value == 0 {
      GetFreeLoopDeviceResult(s, env);
      var free := GetFreeLoopDeviceEffect(s, env);
      assert NoConfigure(free.calls);
      if free.value >= 0 {
        var path := LoopPath(free.value);
        RetryOpenOnlyOpens(s, path, env.loopOpenErr);
        var loop := RetryOpenEffect(s, path, env.loopOpenErr, 0);
        var pre := checked.calls + free.calls + loop.calls;
        assert NoConfigure(pre);
        if loop.value >= 0 {
          ConfigureImageScans(loop.state, env, image, free.value, loop.value);
          var t := ConfigureImageEffect(loop.state, env, image, free.value, loop.value);
          assert e.calls == pre + t.calls;
        }
      }
    }
  }

  /** When a slot is answered, the LOOP_CONFIGURE request was made on the
      descriptor opened on that slot's device and carried the descriptor
      opened on the image: the lowest free one, then the lowest one free
      after it. */
  lemma CreateLoopDeviceConfiguresImage(s: State, env: Env, image: string)
    ensures var e := CreateLoopDeviceEffect(s, env, image);
      var loopFd := LowestFreeFd(s.fds);
      e.value >= 0 ==>
        var imgFd := LowestFreeFd(s.fds[loopFd := LoopPath(e.value)]);
        OpenCall(LoopPath(e.value), loopFd) in e.calls && OpenCall(image, imgFd) in e.calls &&
        ConfigureCall(loopFd, imgFd, LoFileName(image), true) in e.calls
  {
    var e := CreateLoopDeviceEffect(s, env, image);
    FileAccessCheckExactly(s, image);
    var checked := FileAccessCheckEffect(s, image);
    if checked.value == 0 {
      GetFreeLoopDeviceResult(s, env);
      var free := GetFreeLoopDeviceEffect(s, env);
      if free.value >= 0 {
        var path := LoopPath(free.value);
        RetryOpenOutcome(s, path, env.loopOpenErr, 0);
        var loop := RetryOpenEffect(s, path, env.loopOpenErr, 0);
        var pre := checked.calls + free.calls + loop.calls;
        if loop.value >= 0 {
          ConfigureImageScans(loop.state, env, image, free.value, loop.value);
          var t := ConfigureImageEffect(loop.state, env, image, free.value, loop.value);
          assert e == Step(t.value, t.state, pre + t.calls);
          if t.value >= 0 {
            RetryOpenTrace(s, path, env.loopOpenErr, 0);
            var m :| 0 <= m <= LastAttempt && loop.calls == Failed(path, m) + [OpenCall(path, loop.value)];
            assert OpenCall(path, loop.value) in pre;
            assert loop.value == LowestFreeFd(s.fds);
            assert loop.state.fds == s.fds[loop.value := path];
            var imgFd := LowestFreeFd(loop.state.fds);
            assert OpenCall(image, imgFd) in t.calls;
            assert ConfigureCall(loop.value, imgFd, LoFileName(image), true) in t.calls;
            assert e.value == free.value;
          }
        }
      }
    }
  }

  method CreateLoopDevice(k: Kernel, env: Env, image: string) returns (r: int)
    modifies k
    ensures var e := CreateLoopDeviceEffect(old(k.Snapshot()), env, image);
      r == e.value && k.Snapshot() == e.state && k.trace == old(k.trace) + e.calls
  {
    ghost var s0, t0 := k.Snapshot(), k.trace;
    ghost var e := CreateLoopDeviceEffect(s0, env, image);
    ghost var checkedStep := FileAccessCheckEffect(s0, image);
    var checked := FileAccessCheck(k, image);
    if checked != 0 {
      return -1;
    }
    ghost var free := GetFreeLoopDeviceEffect(checkedStep.state, env);
    var loopDevice := GetFreeLoopDevice(k, env);
    TraceRegroup(t0, checkedStep.calls, free.calls);
    if loopDevice < 0 {
      return -1;
    }
    var loopPath := LoopPath(loopDevice);
    ghost var loop := RetryOpenEffect(free.state, loopPath, env.loopOpenErr, 0);
    var loopFd := OpenWithRetry(k, loopPath, env.loopOpenErr);
    ghost var pre := checkedStep.calls + free.calls + loop.calls;
    TraceRegroup(t0, checkedStep.calls + free.calls, loop.calls);
    assert k.Snapshot() == loop.state && k.trace == t0 + pre;
    if loopFd < 0 {
      return -1;
    }
    ghost var t := ConfigureImageEffect(loop.state, env, image, loopDevice, loopFd);
    assert e == Step(t.value, t.state, pre + t.calls);
    TraceRegroup(t0, pre, t.calls);
    ghost var base := t0 + pre;
    ghost var img := OpenStep(loop.state, image, env.imageOpenErr);
    var imgFd := k.Open(image, env.imageOpenErr);
    ghost var acc := img.calls;
    if imgFd < 0 {
      ghost var c := CloseStep(img.state, loopFd);
      assert t == Step(-1, c.state, acc + c.calls);
      k.Close(loopFd);
      TraceRegroup(base, acc, c.calls);
      return -1;
    }
    var name := LoFileName(image);
    ghost var cfg := ConfigureStep(img.state, loopFd, imgFd, name, true, env.configureErr);
    var configured := k.Configure(loopFd, imgFd, name, true, env.configureErr);
    TraceRegroup(base, acc, cfg.calls);
    acc := acc + cfg.calls;
    assert k.Snapshot() == cfg.state && k.trace == base + acc;
    if !configured {
      ghost var clr := ClearStep(cfg.state, loopFd, env.rollbackClearErr);
      ghost var c1 := CloseStep(clr.state, imgFd);
      ghost var c2 := CloseStep(c1.state, loopFd);
      assert t == Step(-1, c2.state, acc + clr.calls + c1.calls + c2.calls);
      var _ := k.Clear(loopFd, env.rollbackClearErr);
      TraceRegroup(base, acc, clr.calls);
      acc := acc + clr.calls;
      k.Close(imgFd);
      TraceRegroup(base, acc, c1.calls);
      acc := acc + c1.calls;
      k.Close(loopFd);
      TraceRegroup(base, acc, c2.calls);
      return -1;
    }
    ghost var c1 := CloseStep(cfg.state, imgFd);
    ghost var c2 := CloseStep(c1.state, loopFd);
    assert t == Step(loopDevice, c2.state, acc + c1.calls + c2.calls);
    k.Close(imgFd);
    TraceRegroup(base, acc, c1.calls);
    acc := acc + c1.calls;
    k.Close(loopFd);
    TraceRegroup(base, acc, c2.calls);
    return loopDevice;
  }

  // ----- addPartition -----

  /** addPartition: 0 when a loop device was created, -1 otherwise. */
  function AddPartitionEffect(s: State, env: Env, image: string): Step<int>
  {
    var created := CreateLoopDeviceEffect(s, env, image);
    Step(if created.value < 0 then -1 else 0, created.state, created.calls)
  }

  /** Adding succeeds exactly when the image is attached, and then the
      lowest unbound slot is bound to the image; otherwise no slot changes.
      Nothing else in the state changes. */
  lemma AddPartitionOutcome(s: State, env: Env, image: string)
    ensures var e := AddPartitionEffect(s, env, image);
      (e.value == 0 <==> Attaches(s, env, image)) &&
      (e.value == 0 ==> e.state.bindings == s.bindings[LowestUnbound(s.bindings) := CString(LoFileName(image))]) &&
      (e.value != 0 ==> e.value == -1 && e.state.bindings == s.bindings) &&
      e.state.fds == s.fds && e.state.mounts == s.mounts &&
      e.state.access == s.access && e.state.blockDevices == s.blockDevices
  {
    CreateLoopDeviceOutcome(s, env, image);
  }

  method AddPartition(k: Kernel, env: Env, image: string) returns (r: int)
    modifies k
    ensures var e := AddPartitionEffect(old(k.Snapshot()), env, image);
      r == e.value && k.Snapshot() == e.state && k.trace == old(k.trace) + e.calls
  {
    var loopDevice := CreateLoopDevice(k, env, image);
    if loopDevice < 0 {
      return -1;
    }
    return 0;
  }
}
