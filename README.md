# Firmware-emulation helpers and the loop-device partition handler, in Dafny

This project models two parts of a firmware-emulation toolkit.

The first part is the C++ **partition handler** (`scripts/partitionHandler/`).
It attaches a raw disk image to a free Linux loop slot with partition scanning
on. It detaches a loop device, given either the device or the mount point of
one of its partitions, and unmounts it first when needed. Its command line
refuses to run without root and dispatches on `-a`, `-r`, `-m` and `-u`.

The kernel is reduced to the state these programs read and change:

- the mount table (`/proc/mounts`);
- the block-special paths;
- per-path existence and read/write permission;
- the loop slots and their backing names;
- the open file descriptors.

Each system call is a step function on that state (`Sys.OpenStep`,
`Sys.ConfigureStep`, …). A step also returns the call as issued, so the order
of calls is part of what is proved. What the kernel decides for reasons
outside that state is an oracle argument (`Sys.Env`): a failing open, ioctl or
umount, udev not having made `/dev/loopN` accessible yet, `realpath`, and the
effective uid.

Each C++ function is an imperative method on the `Sys.Kernel` class. That
class holds the same state in fields plus the trace of calls made. Each
method is proved equal to an effect function on the state: its result, its
new state, and the calls it appends to the trace. The properties of the C++
code are lemmas about those effect functions.

The second part is a set of pure **Python helpers**:

- the host/guest path rewriters of `src/guestUtils.py` and `src/prepareImage.py`;
- the architecture table and the `strings` extractor of `src/util.py`;
- the rules in `src/prepareImage.py` that choose the init commands, the web
  service, and the directories to create inside the image.

Loops in the source are methods with loop invariants, proved against
specification functions. The file system the Python code walks is passed in
as predicates (`isDir`, `isFile`, `exists_`) and lists (the `find` results).

Files:

- `text.dfy` (`Text`): string helpers (prefix, leftmost and last occurrence, first replacement) and decimal printing and parsing.
- `guest_utils.dfy` (`GuestUtils`): `src/guestUtils.py`.
- `py_util.dfy` (`PyUtil`): `src/util.py`.
- `prepare_image.dfy` (`PrepareImage`): `src/prepareImage.py`.
- `sys.dfy` (`Sys`): the kernel state, `/dev/loopN` naming, the system-call steps and the `Kernel` class.
- `partition_util.dfy` (`PartitionUtil`): `scripts/partitionHandler/util.cpp`.
- `partition_remove.dfy` (`PartitionRemove`): `scripts/partitionHandler/remove.cpp`.
- `partition_add.dfy` (`PartitionAdd`): `scripts/partitionHandler/add.cpp`.
- `partition_handler.dfy` (`PartitionHandler`): `scripts/partitionHandler/partitionHandler.cpp`.

## Model

| member | source | states |
|---|---|---|
| Text.DecimalValueOfDecimal | scripts/partitionHandler/add.cpp:15 | reading back the decimal that `std::to_string` prints for a slot gives the slot again |
| Text.DecimalOfDecimalValue | scripts/partitionHandler/add.cpp:15 | a canonical decimal is what `to_string` prints for its value |
| Sys.ParseLoopPathOfLoopPath | scripts/partitionHandler/add.cpp:15 | the device path "/dev/loop" + decimal index names that slot |
| Sys.LoopPathOfParseLoopPath | scripts/partitionHandler/add.cpp:15 | every path that names a slot is that slot's "/dev/loop" path |
| PartitionUtil.GetAbsPath | scripts/partitionHandler/util.cpp:5-18 | a path starting with '/' is copied unchanged with 0; otherwise 0 with realpath's answer when it resolves; -1 exactly when a relative path does not resolve, and then the output is left as it was |
| PartitionUtil.GetAbsPathIdempotent | scripts/partitionHandler/util.cpp:5-18 | with a realpath that answers absolute paths, a resolved path is absolute and resolving it again gives the same answer |
| PartitionUtil.GetFreeLoopDeviceResult | scripts/partitionHandler/util.cpp:20-36 | -1 exactly when the control device cannot be opened or GET_FREE fails; otherwise the lowest unbound slot; the control fd is closed on every path after it was opened (state unchanged); the exact calls issued |
| PartitionUtil.GetFreeLoopDevice | scripts/partitionHandler/util.cpp:20-36 | the method equals its effect function: result, new kernel state and appended trace |
| PartitionUtil.FileAccessCheckExactly | scripts/partitionHandler/util.cpp:38-48 | 0 iff the file exists and is readable and writable; F_OK is asked first, and R_OK\|W_OK only for an existing file; nothing changes |
| PartitionUtil.FileAccessCheck | scripts/partitionHandler/util.cpp:38-48 | the method equals its effect function |
| PartitionUtil.FindLoopDeviceFirstMatch | scripts/partitionHandler/util.cpp:50-73 | 0 with the fsname of the first entry, in table order, whose directory equals the path; -1 with the out-parameter untouched when none matches or /proc/mounts cannot be opened; the table handle is closed on every exit |
| PartitionUtil.FindLoopDevice | scripts/partitionHandler/util.cpp:50-73 | the `while (getmntent…)` loop with its found flag equals its effect function |
| PartitionUtil.IsLoopDeviceExactly | scripts/partitionHandler/util.cpp:75-85 | always returns 0; the flag is set iff stat succeeds on a block-special file |
| PartitionUtil.IsLoopDevice | scripts/partitionHandler/util.cpp:75-85 | the method equals its effect function |
| PartitionUtil.IsLoopMountedExactly | scripts/partitionHandler/util.cpp:87-108 | mounted iff the path is a block device and some entry's fsname equals it exactly; a non-block path is reported unmounted after the stat alone; -1 only when the table cannot be opened; the handle is closed on every exit |
| PartitionUtil.IsLoopMounted | scripts/partitionHandler/util.cpp:87-108 | the scanning loop with its early return equals its effect function |
| PartitionRemove.NonPartitionPath | scripts/partitionHandler/remove.cpp:18-31 | the normalised path is a prefix of the device path |
| PartitionRemove.NonPartitionPathCuts | scripts/partitionHandler/remove.cpp:18-31 | the path is cut iff the last 'p' is not at index 0, is followed by a digit and preceded by a digit; it is then cut exactly at that 'p' |
| PartitionRemove.NonPartitionPathOfDevice | scripts/partitionHandler/remove.cpp:18-31 | `/dev/loopN` is its own base device |
| PartitionRemove.NonPartitionPathOfPartition | scripts/partitionHandler/remove.cpp:18-31 | `/dev/loopNpM` normalises to `/dev/loopN` |
| PartitionRemove.RemoveLoopDeviceProbeFails | scripts/partitionHandler/remove.cpp:5-10 | when the mount-state probe fails, -1 with nothing unmounted, opened or cleared |
| PartitionRemove.RemoveLoopDeviceUmountFails | scripts/partitionHandler/remove.cpp:12-16 | a mounted device whose umount fails gives -1; the umount is the last call and LOOP_CLR_FD is never issued |
| PartitionRemove.RemoveLoopDeviceOpenFails | scripts/partitionHandler/remove.cpp:33-37 | when the base device cannot be opened: -1, the failed open is the last call, LOOP_CLR_FD is never issued, and the fds and slots are as before |
| PartitionRemove.RemoveLoopDeviceClearsBase | scripts/partitionHandler/remove.cpp:33-47 | the last three calls are open, LOOP_CLR_FD and close of the normalised base device on the same fd; 0 iff the clear succeeds on a bound slot, which is then unbound; on failure the slots are as before; the device's mount entries go exactly when it was mounted |
| PartitionRemove.RemoveLoopDeviceKeepsFds | scripts/partitionHandler/remove.cpp:33-47 | every descriptor opened is closed again, on every path |
| PartitionRemove.RemoveLoopDeviceIgnoresPartitions | scripts/partitionHandler/remove.cpp:5-47 | with `/dev/loopN` unmounted and `/dev/loopNpM` mounted, the slot is still cleared and the partition stays in the mount table |
| PartitionRemove.RemoveLoopDeviceResult | scripts/partitionHandler/remove.cpp:5-48 | removeLoopDevice answers 0 or -1 |
| PartitionRemove.RemoveLoopDevice | scripts/partitionHandler/remove.cpp:5-48 | probe, optional umount, open, clear, close: the method equals its effect function |
| PartitionRemove.RemoveMountpointNoEntry | scripts/partitionHandler/remove.cpp:50-56 | with no entry mounted at the path: -1, no state change, only /proc/mounts opened and closed |
| PartitionRemove.RemoveMountpointDelegates | scripts/partitionHandler/remove.cpp:50-65 | otherwise the fsname of the first matching entry is released, and its result and state are removeMountpoint's |
| PartitionRemove.RemoveMountpointProbeFails | scripts/partitionHandler/remove.cpp:50-65 | the mount table read by findLoopDevice, then the second open of it by isLoopMounted failing, gives -1 and no state change |
| PartitionRemove.RemoveMountpoint | scripts/partitionHandler/remove.cpp:50-65 | the method equals its effect function |
| PartitionRemove.RemovePartitionDispatch | scripts/partitionHandler/remove.cpp:67-82 | the access check is the first call; an inaccessible path gives -1 after access calls alone; a block device goes to removeLoopDevice and any other path to removeMountpoint |
| PartitionRemove.RemovePartitionReleasesSlot | scripts/partitionHandler/remove.cpp:67-82 | removing the accessible, unmounted block device "/dev/loopN" of a bound slot answers 0 and unbinds exactly that slot, when the probe, open and clear succeed; descriptors and mounts are unchanged |
| PartitionRemove.RemovePartition | scripts/partitionHandler/remove.cpp:67-82 | the method equals its effect function |
| PartitionAdd.RetryOpenOutcome | scripts/partitionHandler/add.cpp:17-35 | the retried open succeeds iff some attempt (index 0 to 16) opens after earlier ones all failed with EACCES or ENOENT; any other errno stops at once; success holds the lowest free fd on the loop path, failure changes nothing |
| PartitionAdd.RetryOpenTrace | scripts/partitionHandler/add.cpp:17-35 | the retried open issues at most 17 opens of the loop path, every one failed except possibly the last |
| PartitionAdd.RetryOpenStops | scripts/partitionHandler/add.cpp:22-31 | an attempt that opens, fails with another errno, or is the seventeenth ends the loop |
| PartitionAdd.RetryOpenContinues | scripts/partitionHandler/add.cpp:28-31 | an EACCES/ENOENT failure before the last attempt adds one failed open and goes on |
| PartitionAdd.OpenWithRetry | scripts/partitionHandler/add.cpp:17-31 | the `do … while (cnt++ < 16)` loop equals its effect function |
| PartitionAdd.LoFileName | scripts/partitionHandler/add.cpp:44-47 | the 64-byte name buffer always ends in NUL, and a byte string gives a byte buffer |
| PartitionAdd.LoFileNameHolds | scripts/partitionHandler/add.cpp:44-47 | the kernel reads back the path's C string truncated to LO_NAME_SIZE-1 = 63 bytes, and the path itself when it is shorter than 64 bytes and has no NUL |
| PartitionAdd.CreateLoopDeviceRefusesUnusable | scripts/partitionHandler/add.cpp:5-8 | an image that does not exist or is not readable and writable gives -1 with access calls only: no slot is requested |
| PartitionAdd.CreateLoopDeviceOutcome | scripts/partitionHandler/add.cpp:5-61 | a slot is returned iff every step succeeds; it is then the lowest unbound slot, now bound to the image under the truncated name; on failure (rollback included) -1 and the slots as before; the mount table, block devices and permissions are untouched and every fd opened is closed on every path |
| PartitionAdd.CreateLoopDeviceScans | scripts/partitionHandler/add.cpp:44-48 | every LOOP_CONFIGURE request made asks for LO_FLAGS_PARTSCAN under the image's truncated name |
| PartitionAdd.CreateLoopDeviceConfiguresImage | scripts/partitionHandler/add.cpp:17-48 | when a slot is answered, its device was opened on the lowest free fd, the image on the next lowest, and LOOP_CONFIGURE was issued on the device fd with the image fd, the truncated name and partition scanning |
| PartitionAdd.ConfigureImageOutcome | scripts/partitionHandler/add.cpp:37-61 | with an unbound slot open, the slot is answered iff the image opens and LOOP_CONFIGURE succeeds, and is then bound to the truncated name; otherwise -1 with the slots as before (rollback included); both fds are closed on every path |
| PartitionAdd.ConfigureImageScans | scripts/partitionHandler/add.cpp:37-48 | its LOOP_CONFIGURE request asks for partition scanning under the truncated name, and on success carries the slot's fd and the image's fd, the lowest free one |
| PartitionAdd.CreateLoopDevice | scripts/partitionHandler/add.cpp:5-61 | the method equals its effect function, through the image-open failure and the configure rollback paths |
| PartitionAdd.AddPartitionOutcome | scripts/partitionHandler/add.cpp:63-72 | 0 iff createLoopDevice attached the image (binding the lowest unbound slot), else -1 with the slots unchanged; nothing else in the state changes |
| PartitionAdd.AddPartition | scripts/partitionHandler/add.cpp:63-72 | the method equals its effect function |
| PartitionHandler.GetArgsAccepts | scripts/partitionHandler/partitionHandler.cpp:40-89 | 0 or 1; 1 for fewer than three arguments (a lone "-h" included) and for any flag outside the ten recognised; 0 exactly for help, or for a known action with its exact arity (3, or 4 for mount) whose path arguments all resolve |
| PartitionHandler.GetArgsFiles | scripts/partitionHandler/partitionHandler.cpp:54-79 | an accepted action is recorded and `fileArg` holds each path argument, in order, absolute or resolved by realpath; an absolute argument is kept as given |
| PartitionHandler.GetArgs | scripts/partitionHandler/partitionHandler.cpp:40-89 | the method, writing the action and the `fileArg` array, equals its effect function |
| PartitionHandler.RunRequiresRoot | scripts/partitionHandler/partitionHandler.cpp:102-105 | a non-root effective uid exits 1 before any argument is read, with no call and no change |
| PartitionHandler.RunDispatches | scripts/partitionHandler/partitionHandler.cpp:115-137 | add runs addPartition and remove runs removePartition on the resolved first path; mount and umount change nothing |
| PartitionHandler.Run | scripts/partitionHandler/partitionHandler.cpp:100-137 | main as written equals its effect function, the allocation abort and the help path included |
| PartitionHandler.BareInvocationAborts | scripts/partitionHandler/partitionHandler.cpp:108 | run with no argument, main aborts on `new string[-1]` and has no exit status |
| PartitionHandler.FailedAddExitsZero | scripts/partitionHandler/partitionHandler.cpp:115-137 | adding a missing image fails with -1, yet main exits 0 |
| PartitionHandler.RunCorrectedReports | scripts/partitionHandler/partitionHandler.cpp:100-137 | with the count checked first nothing aborts and fewer than three arguments exit 1; after a dispatch the exit status is 0 iff the handler succeeded |
| PartitionHandler.AddThenRemoveReleases | scripts/partitionHandler/partitionHandler.cpp:115-137 | adding an image (addPartition, add.cpp:63-72) and then removing the "/dev/loopN" it was bound to (removePartition, remove.cpp:67-82), when every kernel step succeeds and the device is accessible, block-special and unmounted, both answer 0 and leave the slots, descriptors and mount table as they were |
| GuestUtils.StripOneSlash | src/guestUtils.py:25-26 | exactly one trailing '/' is removed when there is one, and the path is unchanged otherwise |
| GuestUtils.WithSlash | src/guestUtils.py:50-51 | the image root unchanged when it already ends in '/', and with '/' appended otherwise |
| GuestUtils.HostToGuestPath | src/guestUtils.py:6-30 | ValueError iff imagePath or path does not start with '/' |
| GuestUtils.HostToGuestUnderImage | src/guestUtils.py:25-30 | a path under the (slash-stripped) image root becomes "/" + the rest |
| GuestUtils.HostToGuestOutsideImage | src/guestUtils.py:25-30 | a path that does not contain the image root is returned unchanged |
| GuestUtils.GuestToHostPath | src/guestUtils.py:32-55 | ValueError iff either argument is not absolute; otherwise the image root with one '/' and path without its leading '/', so the result starts with the image root |
| GuestUtils.StripThenAppend | src/guestUtils.py:25-51 | appending the slash equals stripping it and appending "/" |
| GuestUtils.GuestHostGuest | src/guestUtils.py:28-53 | guest to host to guest with one image root gives "/" + p, a doubled leading slash, not p |
| PyUtil.CheckCompatibility | src/util.py:10-31 | an unknown architecture or byte order is never compatible |
| PyUtil.CompatibleExactly | src/util.py:25-31 | compatible exactly for (MIPS, LITTLE), (MIPS, BIG) and (ARM, LITTLE) |
| PyUtil.RunsPrintable | src/util.py:106-110 | every accumulated run holds printable bytes only |
| PyUtil.RunsCoverInput | src/util.py:108-114 | each non-printable byte closes exactly one run: one more run than non-printable bytes |
| PyUtil.RunsJoin | src/util.py:105-116 | the runs joined with the non-printable bytes that ended them give back the data |
| PyUtil.LongRunsShape | src/util.py:112-116 | every yielded run is at least minLength long and made of printable bytes |
| PyUtil.Strings | src/util.py:94-119 | the byte loop yields exactly the long-enough runs in file order, the trailing run included iff long enough; each is long enough and printable |
| PrepareImage.HostToGuestPath | src/prepareImage.py:174-192 | this file's variant raises ValueError iff imagePath is not absolute |
| PrepareImage.HostToGuestUnderImage | src/prepareImage.py:186-192 | a path under the image root becomes "/" + the rest |
| PrepareImage.HostToGuestOutsideImage | src/prepareImage.py:186-192 | a path not containing the image root is unchanged |
| PrepareImage.GuestToHostPath | src/prepareImage.py:194-210 | as written: ValueError iff imagePath is not absolute, else path + imagePath[1:] |
| PrepareImage.GuestToHostMisplaces | src/prepareImage.py:205-210 | ("/tmp/root", "/etc/foo") gives "/etc/footmp/root", outside the image root |
| PrepareImage.GuestToHostPathCorrected | src/prepareImage.py:194-210 | the intended rewrite starts with the image root and agrees with src/guestUtils.py for absolute paths |
| PrepareImage.Dedup | src/prepareImage.py:268-274 | only entries of the input are kept |
| PrepareImage.DedupKeepsEachOnce | src/prepareImage.py:268-274 | no duplicates, and every distinct input entry is kept |
| PrepareImage.DedupFirstOccurrenceOrder | src/prepareImage.py:268-274 | kept entries are in the order of their first occurrences |
| PrepareImage.UniqueInOrder | src/prepareImage.py:268-274 | the `seen`/`uniqueInits` loop computes the de-duplication, duplicate-free with the same elements |
| PrepareImage.Select | src/prepareImage.py:276-319 | only entries of the input that pass the filter are reported |
| PrepareImage.SelectIsSubsequence | src/prepareImage.py:276-319 | the found inits keep the input order |
| PrepareImage.SubsequenceNoDuplicates | src/prepareImage.py:276-319 | a subsequence of a duplicate-free list is duplicate-free |
| PrepareImage.SelectExactly | src/prepareImage.py:276-319 | an entry is reported iff it is in the input and passes the filter |
| PrepareImage.KeepFound | src/prepareImage.py:276-319 | the loop over unique entries computes the filter and keeps their order |
| PrepareImage.FindInitReports | src/prepareImage.py:276-319 | an entry is reported before the default iff it is a candidate that is not a directory and is a file or is reported relinkable (the as-written search over "/bin", "/sbin", "/usr/bin" and "/usr/sbin", each followed by the root without its leading '/', found a binary of its name) |
| PrepareImage.GuestPaths | src/prepareImage.py:257-260 | one guest path per `find` result |
| PrepareImage.FindInit | src/prepareImage.py:236-330 | error iff the root is not absolute; no candidate gives exactly ["/firmadyne/preInit.sh"]; otherwise the filtered de-duplicated candidates, then the default |
| PrepareImage.FindInitShape | src/prepareImage.py:268-330 | the result ends with the default and, before it, is a duplicate-free order-preserving subsequence of the candidates |
| PrepareImage.FirstExisting | src/prepareImage.py:356-403 | the first server, in table order, whose path exists |
| PrepareImage.Probe | src/prepareImage.py:356-361 | one `if existsInGuest` block extends the map and keeps the first found service |
| PrepareImage.ProbeInOrder | src/prepareImage.py:356-403 | seven blocks in a row compute the map of existing servers and the first one |
| PrepareImage.FindServices | src/prepareImage.py:332-415 | for a non-empty root: ValueError iff the root is relative (the first existence check rewrites with it); otherwise the map and chosen service over the fixed order uhttpd, /usr/bin/httpd, /usr/sbin/httpd, goahead, alphapd, boa, lighttpd; empty when none exists |
| PrepareImage.ExistingServicesEmpty | src/prepareImage.py:405-415 | no existing candidate gives the empty map |
| PrepareImage.ExistingServicesExactly | src/prepareImage.py:356-403 | a path is in the map iff its server exists, with that server's start command |
| PrepareImage.FindServicesExactly | src/prepareImage.py:356-403 | for the seven servers: exactly the existing ones, each with its command; the chosen one exists and none before it does |
| PrepareImage.DirectoryFor | src/prepareImage.py:456-479 | a produced directory is group 1 + group 2 of a match of `^(/var\|/etc\|/tmp)(.+)/([^/]+)$` and is not excluded |
| PrepareImage.DirectoryForComplete | src/prepareImage.py:456-479 | every match whose directory contains none of "%s", "%d", "%c", "/tmp/services" produces that directory |
| PrepareImage.Matched | src/prepareImage.py:474-483 | every collected directory is absolute |
| PrepareImage.MatchedExactly | src/prepareImage.py:474-483 | a directory is collected iff some string of the binaries names it |
| PrepareImage.HostDirs | src/prepareImage.py:480-481 | as written, each directory's host path is the directory followed by the root without its leading '/' |
| PrepareImage.HostDirsMisplaces | src/prepareImage.py:480-481 | for the root "/tmp/root", "/etc/foo" is created as "/etc/footmp/root", outside the image |
| PrepareImage.HostDirsCorrected | src/prepareImage.py:480-481 | the intended host directories all lie under the image root and agree with src/guestUtils.py |
| PrepareImage.CollectDirectories | src/prepareImage.py:446-488 | error iff the root is not absolute; the logged set is exactly the named directories, and the directories made are, in order, each one followed by the root without its leading '/' (as written) |

## Left out

- Output is not modelled: printing, `perror`, `showHelp` and logging.
- The 25 ms `usleep` between open attempts is not modelled; attempts are counted, not timed.
- Concurrent invocations racing on the loop table or the mount table are not modelled. Each run is sequential against one kernel state.
- Kernel simplifications:
  - A successful umount of a source drops every mount entry with that fsname.
  - LOOP_CTL_GET_FREE answers the lowest unbound slot.
  - LOOP_CONFIGURE succeeds only on an unbound slot, with the image fd open.
  - LOOP_CLR_FD succeeds only on a bound slot.
  - open returns the lowest free descriptor.
- Oracle answers are given per call site, not per call. For the open of `/dev/loopN` they are given per attempt. The two opens of `/proc/mounts` (findLoopDevice, isLoopMounted) have separate answers, and so do the two LOOP_CLR_FD requests (the release in removeLoopDevice, the rollback in createLoopDevice).
- Sys.UmountStep: umount(2) takes a mount-point target, and Linux refuses a device path. So `umount(loopDevice)` at scripts/partitionHandler/remove.cpp:13 plausibly fails whenever the device is mounted (not executed). The model lets an umount of a source succeed and drop its entries; that success branch follows what the code evidently means and is not behaviour the call has. The failure branch is the oracle `umountErr` (PartitionRemove.RemoveLoopDeviceUmountFails).
- LoFileNameHolds: a `char` of the C++ strings stands for one byte of the `std::string` (Sys.IsByteString), so the 63-character cut is a 63-byte cut. A path with characters outside one byte must be UTF-8 encoded first, and that encoding is not modelled.
- PrepareImage oracles: `exists_`, `isDir` and `isFile` stand for the answers of existsInGuest, isDirInGuest and isFileInGuest as written. Those functions check `path + root[1:]` (the reversed guestToHostPath) unless the path already starts with the root, and follow symlinks. The model does not compute those host paths.
- PartitionHandler.Run: the help path leaves `action` uninitialised, and the switch then reads an indeterminate value. It is modelled as the outcome `HelpUndefined`, with no exit status, rather than as one of the branches.
- `mountPartition` and the Mount and Umount cases of main are left out. The function is unfinished, and those cases only print; they are modelled as dispatching with result 0 and no effect.
- scripts/mountImg.cpp, scripts/umountImg.cpp, scripts/addPartition.cpp and scripts/mountPartition.cpp are not part of this model. They are standalone programs that the partition handler supersedes.
- The header files hold declarations only.
- PartitionRemove.RemovePartitionEffect: the `isLoopDevice(...) != 0` branch is omitted, because isLoopDevice always returns 0 (PartitionUtil.IsLoopDeviceExactly).
- Releasing a loop device does not check whether one of its partitions is still mounted. The code only probes the device path itself, and the model follows the code (PartitionRemove.RemoveLoopDeviceIgnoresPartitions).
- PrepareImage.FindInit requires a non-empty root. With an empty root, the first rewriter call falls through to the host's own `/init`, which lies outside the image and is not modelled.
- PrepareImage.FindServices requires a non-empty root. With an empty root, existsInGuest leaves each path as it is, but a path that is a dangling symlink on the host has its link target rewritten with the empty root (src/prepareImage.py:27-29), which raises ValueError; that host-dependent case is not modelled. The only caller, prepareImage, returns False for an empty root before findServices is reached (src/prepareImage.py:575-577).
- PrepareImage.FindInit: symlink creation and the write of the init list file are not modelled. The decisions they depend on are oracles: `isDir`, `isFile`, and `relinkable`. As written, the replacement search (src/prepareImage.py:290) looks in "/bin", "/sbin", "/usr/bin" and "/usr/sbin" each followed by the root without its leading '/' (for the root "/tmp/root": "/bintmp/root" and so on), not in the image. The symlink (src/prepareImage.py:299, 316) is created at the entry followed by that suffix, such as "/sbin/rcStmp/root"; its parent does not normally exist, so `os.symlink` raises FileNotFoundError, which the caller (src/prepareImage.py:585-589) does not catch. The model treats a successful relink as the oracle `relinkable` and does not model that exception.
- PrepareImage.CollectDirectories: `os.walk`, reading binaries, `readIfLinked`, `makedirs` and the write of `dir_log` are not modelled. The strings found are an input, and stand for the strings of the executables the walk reaches. As written, the location check (src/prepareImage.py:460) and the walk (:464) use "/bin" and the other locations followed by the root without its leading '/' ("/bintmp/root" for the root "/tmp/root"), so the walk normally finds nothing. The log is opened at "/firmadyne/dir_log" followed by that suffix (:487), such as "/firmadyne/dir_logtmp/root"; unless that directory exists, `open` raises FileNotFoundError, which neither createReferencedDirectories' caller (:548-552) nor prepareImage catches, as both catch RuntimeError only. The model returns the logged set and does not model that exception.
- `io_md5`, `checkArch`, chmod, `installFirmadyne`, `fixFileSystem` and the other source modules are not modelled. They are hashing, subprocess, file-system mutation, database and orchestration code.
- PyUtil.Strings works on the bytes of the file; reading the file is not modelled.

## Findings

| source | as written | input that shows it | evidently intended | confidence | as-written member | corrected member |
|---|---|---|---|---|---|---|
| scripts/partitionHandler/partitionHandler.cpp:108 | `new string[argc - 2]` runs before the argument count is checked | argv = ["partitionHandler"] as root: the size is -1, `bad_array_new_length` is thrown, the process aborts | print the usage and exit 1, as getArgs does for any argc < 3 | not executed | PartitionHandler.BareInvocationAborts | PartitionHandler.RunCorrectedReports |
| scripts/partitionHandler/partitionHandler.cpp:115-137 | main falls off its end after the switch, so the exit status is 0 whatever `result` is | `-a /missing.img` as root: addPartition returns -1 and the exit status is 0 | exit non-zero when the action failed | not executed | PartitionHandler.FailedAddExitsZero | PartitionHandler.RunCorrectedReports |
| src/prepareImage.py:205-210 | `imagePath.replace("/", path, 1)` has the argument roles reversed | imagePath "/tmp/root", path "/etc/foo" gives "/etc/footmp/root" | the image root followed by the guest path, as in src/guestUtils.py:53 | not executed | PrepareImage.GuestToHostMisplaces | PrepareImage.GuestToHostPathCorrected |
| src/prepareImage.py:480 | createReferencedDirectories makes `guestToHostPath(rootPath, dirPath)`, the reversed rewriter, so each directory is the guest directory followed by `rootPath[1:]` | root "/tmp/root" and a binary naming "/etc/foo/bar" create "/etc/footmp/root"; the binary is reached only if the walk of "/bintmp/root" (or another location with that suffix, src/prepareImage.py:460-464) finds it | create the directory under the image root ("/tmp/root/etc/foo") | not executed | PrepareImage.HostDirsMisplaces | PrepareImage.HostDirsCorrected |
