/** The rules of src/prepareImage.py that decide what goes into the emulated
    image: the older path rewriters of this file, the init list of `findInit`,
    the web service of `findServices` and the directory filter of
    `createReferencedDirectories`. Existence, file and directory tests on the
    guest filesystem (`existsInGuest`, `isFileInGuest`, `isDirInGuest`,
    including their own symlink following) are parameters. */
module PrepareImage {
  import opened Text
  import GuestUtils

  /** hostToGuestPath of this file: only `imagePath` must be absolute; the
      leftmost occurrence of it in `path` becomes "/" (no trailing '/' is
      stripped from `imagePath`). */
  function HostToGuestPath(imagePath: string, path: string): (r: Result<string>)
    ensures r.Err? <==> !StartsWith(imagePath, "/")
  {
    if !StartsWith(imagePath, "/") then Err(ValueError)
    else Ok(ReplaceFirst(path, imagePath, "/"))
  }

  /** A path under the image root becomes "/" followed by the rest. */
  lemma HostToGuestUnderImage(imagePath: string, rest: string)
    requires StartsWith(imagePath, "/")
    ensures HostToGuestPath(imagePath, imagePath + rest) == Ok("/" + rest)
  {
    assert StartsWith(imagePath + rest, imagePath);
    ReplaceFirstPrefix(imagePath + rest, imagePath, "/");
    assert (imagePath + rest)[|imagePath|..] == rest;
  }

  /** A path that does not contain the image root comes back unchanged. */
  lemma HostToGuestOutsideImage(imagePath: string, path: string)
    requires StartsWith(imagePath, "/") && !Contains(path, imagePath)
    ensures HostToGuestPath(imagePath, path) == Ok(path)
  {
    ReplaceFirstAbsent(path, imagePath, "/");
  }

  /** guestToHostPath of this file, as written: `imagePath.replace("/", path, 1)`.
      The roles of the arguments are swapped: the result is the guest path
      followed by the image root without its leading '/'. */
  function GuestToHostPath(imagePath: string, path: string): (r: Result<string>)
    ensures r.Err? <==> !StartsWith(imagePath, "/")
    ensures r.Ok? ==> r.value == path + imagePath[1..]
  {
    if !StartsWith(imagePath, "/") then Err(ValueError)
    else
      ReplaceFirstPrefix(imagePath, "/", path);
      Ok(ReplaceFirst(imagePath, "/", path))
  }

  /** The swapped roles put a guest directory in the wrong place: for the image
      root "/tmp/root" and the guest path "/etc/foo" the host path is
      "/etc/footmp/root", which is not under the image root. */
  lemma GuestToHostMisplaces()
    ensures GuestToHostPath("/tmp/root", "/etc/foo") == Ok("/etc/footmp/root")
    ensures !StartsWith(GuestToHostPath("/tmp/root", "/etc/foo").value, "/tmp/root")
  {
    var r := GuestToHostPath("/tmp/root", "/etc/foo");
    assert "/tmp/root"[1..] == "tmp/root";
    assert "/etc/foo" + "tmp/root" == "/etc/footmp/root";
    assert r.value[..9] != "/tmp/root" by { assert r.value[1] == 'e'; }
  }

  /** The evidently intended guestToHostPath: the image root, a '/', and the
      guest path without its leading '/' (what src/guestUtils.py computes).
      A guest path without a leading '/' is taken as relative to the root. */
  function GuestToHostPathCorrected(imagePath: string, path: string): (r: Result<string>)
    ensures r.Err? <==> !StartsWith(imagePath, "/")
    ensures r.Ok? ==> StartsWith(r.value, imagePath) && StartsWith(r.value, GuestUtils.WithSlash(imagePath))
    ensures r.Ok? && StartsWith(path, "/") ==> r == GuestUtils.GuestToHostPath(imagePath, path)
  {
    if !StartsWith(imagePath, "/") then Err(ValueError)
    else
      var rest := if StartsWith(path, "/") then path[1..] else path;
      var root := GuestUtils.WithSlash(imagePath);
      assert (root + rest)[..|root|] == root;
      assert (root + rest)[..|imagePath|] == root[..|imagePath|];
      Ok(root + rest)
  }

  // ----- findInit -----

  const DefaultInit := "/firmadyne/preInit.sh"

  /** Keeps the first occurrence of every entry, in order. */
  function Dedup(xs: seq<string>): (r: seq<string>)
    ensures forall k :: 0 <= k < |r| ==> r[k] in xs
  {
    if xs == [] then []
    else
      var d := Dedup(xs[..|xs| - 1]);
      if xs[|xs| - 1] in d then d else d + [xs[|xs| - 1]]
  }

  predicate NoDuplicates(xs: seq<string>)
  {
    forall i, j :: 0 <= i < j < |xs| ==> xs[i] != xs[j]
  }

  /** The index of the first occurrence of `x` in `xs`. */
  function FirstIndex(xs: seq<string>, x: string): (i: nat)
    requires x in xs
    ensures i < |xs| && xs[i] == x && forall j :: 0 <= j < i ==> xs[j] != x
  {
    if xs[0] == x then 0 else 1 + FirstIndex(xs[1..], x)
  }

  /** The de-duplication keeps each distinct entry exactly once: nothing is
      lost, nothing is added, nothing repeats. */
  lemma {:induction false} DedupKeepsEachOnce(xs: seq<string>)
    ensures NoDuplicates(Dedup(xs))
    ensures forall x :: x in Dedup(xs) <==> x in xs
  {
    if xs != [] {
      var init := xs[..|xs| - 1];
      DedupKeepsEachOnce(init);
      assert forall x :: x in xs <==> x in init || x == xs[|xs| - 1];
    }
  }

  /** ... and in the order of their first occurrences. */
  lemma {:induction false} DedupFirstOccurrenceOrder(xs: seq<string>)
    ensures forall i, j :: 0 <= i < j < |Dedup(xs)| ==>
      FirstIndex(xs, Dedup(xs)[i]) < FirstIndex(xs, Dedup(xs)[j])
  {
    if xs != [] {
      var init := xs[..|xs| - 1];
      var last := xs[|xs| - 1];
      DedupFirstOccurrenceOrder(init);
      DedupKeepsEachOnce(init);
      var d := Dedup(init);
      forall x | x in init ensures FirstIndex(xs, x) == FirstIndex(init, x) {
        FirstIndexOfPrefix(xs, init, x);
      }
      if last !in d {
        assert FirstIndex(xs, last) == |xs| - 1;
        forall i | 0 <= i < |d| ensures FirstIndex(xs, d[i]) < FirstIndex(xs, last) {
          assert d[i] in init;
        }
      }
    }
  }

  lemma {:induction false} FirstIndexOfPrefix(xs: seq<string>, init: seq<string>, x: string)
    requires |init| <= |xs| && init == xs[..|init|] && x in init
    ensures FirstIndex(xs, x) == FirstIndex(init, x)
  {
    var i := FirstIndex(init, x);
    assert xs[i] == x;
    var k := FirstIndex(xs, x);
    assert k <= i;
  }

  /** The entries of `xs` that satisfy `keep`, in order. */
  function Select(xs: seq<string>, keep: string -> bool): (r: seq<string>)
    ensures forall k :: 0 <= k < |r| ==> r[k] in xs && keep(r[k])
  {
    if xs == [] then []
    else Select(xs[..|xs| - 1], keep) + (if keep(xs[|xs| - 1]) then [xs[|xs| - 1]] else [])
  }

  /** `idx` lists, in increasing order, positions of `xs` that hold `sub`. */
  predicate Embeds(sub: seq<string>, xs: seq<string>, idx: seq<nat>)
  {
    |idx| == |sub| &&
    (forall k :: 0 <= k < |idx| ==> idx[k] < |xs| && xs[idx[k]] == sub[k]) &&
    (forall k, l :: 0 <= k < l < |idx| ==> idx[k] < idx[l])
  }

  /** `sub` can be obtained from `xs` by deleting entries. */
  ghost predicate IsSubsequence(sub: seq<string>, xs: seq<string>)
  {
    exists idx: seq<nat> :: Embeds(sub, xs, idx)
  }

  /** Selecting keeps the order of the input. */
  lemma {:induction false} SelectIsSubsequence(xs: seq<string>, keep: string -> bool)
    ensures IsSubsequence(Select(xs, keep), xs)
  {
    var r := Select(xs, keep);
    if xs == [] {
      assert Embeds(r, xs, []);
    } else {
      var init := xs[..|xs| - 1];
      var last := xs[|xs| - 1];
      SelectIsSubsequence(init, keep);
      var s := Select(init, keep);
      var idx: seq<nat> :| Embeds(s, init, idx);
      if keep(last) {
        assert r == s + [last];
        var idx' := idx + [|xs| - 1];
        forall k | 0 <= k < |idx'| ensures idx'[k] < |xs| && xs[idx'[k]] == r[k] {
          if k < |idx| {
            assert idx'[k] == idx[k] && init[idx[k]] == s[k];
          }
        }
        assert Embeds(r, xs, idx');
      } else {
        assert r == s;
        forall k | 0 <= k < |idx| ensures idx[k] < |xs| && xs[idx[k]] == r[k] {
          assert init[idx[k]] == s[k];
        }
        assert Embeds(r, xs, idx);
      }
    }
  }

  /** An entry is selected exactly when it is in the input and passes. */
  lemma {:induction false} SelectExactly(xs: seq<string>, keep: string -> bool)
    ensures forall x :: x in Select(xs, keep) <==> x in xs && keep(x)
  {
    if xs != [] {
      var init := xs[..|xs| - 1];
      SelectExactly(init, keep);
      assert forall x :: x in xs <==> x in init || x == xs[|xs| - 1];
    }
  }

  lemma SubsequenceNoDuplicates(sub: seq<string>, xs: seq<string>)
    requires IsSubsequence(sub, xs) && NoDuplicates(xs)
    ensures NoDuplicates(sub)
  {
    var idx: seq<nat> :| Embeds(sub, xs, idx);
    forall i, j | 0 <= i < j < |sub| ensures sub[i] != sub[j] {
      assert idx[i] < idx[j];
    }
  }

  /** The guest paths of `found`, in order. */
  function GuestPaths(root: string, found: seq<string>): (r: seq<string>)
    requires StartsWith(root, "/")
    ensures |r| == |found|
  {
    seq(|found|, k requires 0 <= k < |found| => HostToGuestPath(root, found[k]).value)
  }

  /** The candidate list of `findInit` for an absolute root: the kernel's
      suspected inits, then "/init" when it exists and is not a directory, then
      every `find` result for rcS, preinit and preinitMT, as guest paths. */
  function Candidates(root: string, suspected: seq<string>, hasInit: bool, found: seq<string>): seq<string>
    requires StartsWith(root, "/")
  {
    suspected + (if hasInit then [HostToGuestPath(root, "/init").value] else []) + GuestPaths(root, found)
  }

  /** An init entry is reported when it is not a directory and either is a
      file or is `relinkable`: the search for a binary of its name (or of its
      old symlink target's name) found one and the symlink was made. As
      written, the search looks in "/bin", "/sbin", "/usr/bin" and
      "/usr/sbin" each followed by the root without its leading '/', and the
      symlink is placed at the entry followed by that same suffix; the
      oracle stands for that outcome. */
  function Keeps(isDir: string -> bool, isFile: string -> bool, relinkable: string -> bool): string -> bool
  {
    init => !isDir(init) && (isFile(init) || relinkable(init))
  }

  /** The "remove duplicates without changing order" loop of findInit. */
  method UniqueInOrder(possibleInits: seq<string>) returns (uniqueInits: seq<string>)
    ensures uniqueInits == Dedup(possibleInits)
    ensures NoDuplicates(uniqueInits)
    ensures forall x :: x in uniqueInits <==> x in possibleInits
  {
    var seen: set<string> := {};
    uniqueInits := [];
    var i := 0;
    while i < |possibleInits|
      invariant 0 <= i <= |possibleInits|
      invariant uniqueInits == Dedup(possibleInits[..i])
      invariant forall x :: x in seen <==> x in uniqueInits
    {
      var init := possibleInits[i];
      assert possibleInits[..i + 1][..i] == possibleInits[..i];
      if init !in seen {
        seen := seen + {init};
        uniqueInits := uniqueInits + [init];
      }
      i := i + 1;
    }
    assert possibleInits[..i] == possibleInits;
    DedupKeepsEachOnce(possibleInits);
  }

  /** The loop of findInit over the unique entries: skip directories, keep
      files, keep entries that `relinkable` reports re-linked, drop the rest.
      Creating the symlinks is left out. */
  method KeepFound(uniqueInits: seq<string>, isDir: string -> bool, isFile: string -> bool,
                   relinkable: string -> bool) returns (foundInits: seq<string>)
    ensures foundInits == Select(uniqueInits, Keeps(isDir, isFile, relinkable))
    ensures IsSubsequence(foundInits, uniqueInits)
  {
    ghost var keep := Keeps(isDir, isFile, relinkable);
    foundInits := [];
    var i := 0;
    while i < |uniqueInits|
      invariant 0 <= i <= |uniqueInits|
      invariant foundInits == Select(uniqueInits[..i], keep)
    {
      var init := uniqueInits[i];
      assert uniqueInits[..i + 1][..i] == uniqueInits[..i];
      if isDir(init) {
        i := i + 1;
        continue;
      }
      if isFile(init) {
        foundInits := foundInits + [init];
        i := i + 1;
        continue;
      }
      if relinkable(init) {
        foundInits := foundInits + [init];
      }
      i := i + 1;
    }
    assert uniqueInits[..i] == uniqueInits;
    SelectIsSubsequence(uniqueInits, keep);
  }

  /** findInit. A non-empty root that is not absolute makes the first path
      rewrite raise. `hasInit` stands for "/init exists in the guest and is
      not a directory", `found` for the `find` results (host paths) for rcS,
      preinit and preinitMT in that order. Writing the init file is left out;
      the returned list is what the file receives, one entry per line. */
  method FindInit(root: string, suspected: seq<string>, hasInit: bool, found: seq<string>,
                  isDir: string -> bool, isFile: string -> bool, relinkable: string -> bool)
    returns (r: Result<seq<string>>)
    requires root != ""
    ensures r.Err? <==> !StartsWith(root, "/")
    ensures StartsWith(root, "/") && Candidates(root, suspected, hasInit, found) == [] ==>
      r == Ok([DefaultInit])
    ensures StartsWith(root, "/") && Candidates(root, suspected, hasInit, found) != [] ==>
      r == Ok(Select(Dedup(Candidates(root, suspected, hasInit, found)), Keeps(isDir, isFile, relinkable)) + [DefaultInit])
  {
    if !StartsWith(root, "/") {
      // The existence check of "/init" rewrites "/init" with the relative
      // root, which raises.
      return Err(ValueError);
    }
    var possibleInits := suspected;
    if hasInit {
      var g := HostToGuestPath(root, "/init");
      possibleInits := possibleInits + [g.value];
    }
    ghost var head := possibleInits;
    var i := 0;
    while i < |found|
      invariant 0 <= i <= |found|
      invariant possibleInits == head + GuestPaths(root, found[..i])
    {
      var g := HostToGuestPath(root, found[i]);
      assert GuestPaths(root, found[..i + 1]) == GuestPaths(root, found[..i]) + [g.value];
      possibleInits := possibleInits + [g.value];
      i := i + 1;
    }
    assert found[..i] == found;

    if |possibleInits| == 0 {
      return Ok([DefaultInit]);
    }
    var uniqueInits := UniqueInOrder(possibleInits);
    var foundInits := KeepFound(uniqueInits, isDir, isFile, relinkable);
    foundInits := foundInits + [DefaultInit];
    return Ok(foundInits);
  }

  /** What findInit reports: the default init last, and before it distinct
      candidates that pass the filter, in their first-occurrence order. */
  lemma FindInitShape(cands: seq<string>, keep: string -> bool)
    ensures var r := Select(Dedup(cands), keep) + [DefaultInit];
      r[|r| - 1] == DefaultInit &&
      IsSubsequence(r[..|r| - 1], Dedup(cands)) &&
      NoDuplicates(r[..|r| - 1]) &&
      forall x :: x in r[..|r| - 1] ==> x in cands && keep(x)
  {
    var d := Dedup(cands);
    var s := Select(d, keep);
    assert (s + [DefaultInit])[..|s|] == s;
    SelectIsSubsequence(d, keep);
    DedupKeepsEachOnce(cands);
    SubsequenceNoDuplicates(s, d);
  }

  /** What findInit reports before the default: exactly the candidates that
      are not directories and are files or could be re-linked. No directory
      is ever reported, and every candidate file that is not a directory is. */
  lemma FindInitReports(cands: seq<string>, isDir: string -> bool, isFile: string -> bool,
                        relinkable: string -> bool)
    ensures forall x :: x in Select(Dedup(cands), Keeps(isDir, isFile, relinkable)) <==>
      x in cands && !isDir(x) && (isFile(x) || relinkable(x))
  {
    DedupKeepsEachOnce(cands);
    SelectExactly(Dedup(cands), Keeps(isDir, isFile, relinkable));
  }

  // ----- findServices -----

  /** One web server the image may ship: where it lives, its service name and
      the command that starts it. */
  datatype Service = Service(path: string, name: string, command: string)

  /** The servers looked for, in priority order. */
  const ServiceTable: seq<Service> := [
    Service("/etc/init.d/uhttpd", "uhttpd", "/etc/init.d/uhttpd start"),
    Service("/usr/bin/httpd", "httpd", "/usr/bin/httpd"),
    Service("/usr/sbin/httpd", "httpd", "/usr/sbin/httpd"),
    Service("/bin/goahead", "goahead", "/bin/goahead"),
    Service("/bin/alphapd", "alphapd", "/bin/alphapd"),
    Service("/bin/boa", "boa", "/bin/boa"),
    Service("/usr/sbin/lighttpd", "lighttpd", "/usr/sbin/lighttpd -f /etc/lighttpd/lighttpd.conf")
  ]

  /** The index of the first service in `table` that exists. */
  function FirstExisting(table: seq<Service>, exists_: string -> bool): (r: Option<nat>)
    ensures r.Some? ==> r.value < |table| && exists_(table[r.value].path)
    ensures r.Some? ==> forall j :: 0 <= j < r.value ==> !exists_(table[j].path)
    ensures r.None? ==> forall j :: 0 <= j < |table| ==> !exists_(table[j].path)
  {
    if table == [] then None
    else
      var r := FirstExisting(table[..|table| - 1], exists_);
      if r.Some? then r
      else if exists_(table[|table| - 1].path) then Some(|table| - 1)
      else None
  }

  /** The service that is started: the first one that exists. */
  function Chosen(table: seq<Service>, exists_: string -> bool): Option<Service>
  {
    match FirstExisting(table, exists_)
    case None => None
    case Some(i) => Some(table[i])
  }

  /** The start command of every existing service, by path. */
  function ExistingServices(table: seq<Service>, exists_: string -> bool): map<string, string>
  {
    if table == [] then map[]
    else
      var m := ExistingServices(table[..|table| - 1], exists_);
      var s := table[|table| - 1];
      if exists_(s.path) then m[s.path := s.command] else m
  }

  /** One `if existsInGuest(...)` block of findServices, after the blocks for
      `table[..k]`: record the service, and take it if nothing was taken. */
  method Probe(table: seq<Service>, k: nat, exists_: string -> bool,
               services: map<string, string>, chosen: Option<Service>)
    returns (services': map<string, string>, chosen': Option<Service>)
    requires k < |table|
    requires services == ExistingServices(table[..k], exists_) && chosen == Chosen(table[..k], exists_)
    ensures services' == ExistingServices(table[..k + 1], exists_)
    ensures chosen' == Chosen(table[..k + 1], exists_)
  {
    assert table[..k + 1][..k] == table[..k];
    var s := table[k];
    services', chosen' := services, chosen;
    if exists_(s.path) {
      services' := services'[s.path := s.command];
      if chosen'.None? {
        chosen' := Some(s);
      }
    }
  }

  /** findServices. The result holds the map of services and `chosen`, the
      service whose start command and name are written to the service files;
      `None` when no server exists, and then the returned map is empty. A
      root that is not absolute makes the first existence check rewrite
      "/etc/init.d/uhttpd" with it, which raises. The root is not empty, as
      for findInit. */
  method FindServices(root: string, exists_: string -> bool) returns (r: Result<(map<string, string>, Option<Service>)>)
    requires root != ""
    ensures r.Err? <==> !StartsWith(root, "/")
    ensures r.Ok? ==> r.value.0 == ExistingServices(ServiceTable, exists_)
    ensures r.Ok? ==> r.value.1 == Chosen(ServiceTable, exists_)
    ensures r.Ok? && r.value.1.None? ==> r.value.0 == map[]
  {
    if !StartsWith(root, "/") {
      return Err(ValueError);
    }
    var services, chosen := ProbeInOrder(ServiceTable, exists_);
    return Ok((services, chosen));
  }

  /** The seven probes of findServices over a table of seven servers. */
  method ProbeInOrder(t: seq<Service>, exists_: string -> bool) returns (services: map<string, string>, chosen: Option<Service>)
    requires |t| == 7
    ensures services == ExistingServices(t, exists_)
    ensures chosen == Chosen(t, exists_)
    ensures chosen.None? ==> services == map[]
  {
    services, chosen := map[], None;
    services, chosen := Probe(t, 0, exists_, services, chosen);
    services, chosen := Probe(t, 1, exists_, services, chosen);
    services, chosen := Probe(t, 2, exists_, services, chosen);
    services, chosen := Probe(t, 3, exists_, services, chosen);
    services, chosen := Probe(t, 4, exists_, services, chosen);
    services, chosen := Probe(t, 5, exists_, services, chosen);
    services, chosen := Probe(t, 6, exists_, services, chosen);
    assert t[..7] == t;
    if chosen.None? {
      assert FirstExisting(t, exists_).None?;
      ExistingServicesEmpty(t, exists_);
      return map[], None;
    }
  }

  lemma {:induction false} ExistingServicesEmpty(table: seq<Service>, exists_: string -> bool)
    requires FirstExisting(table, exists_).None?
    ensures ExistingServices(table, exists_) == map[]
  {
    if table != [] {
      ExistingServicesEmpty(table[..|table| - 1], exists_);
    }
  }

  /** Every existing server is recorded with its own start command, and
      nothing else is, when the table lists each path once. */
  lemma {:induction false} ExistingServicesExactly(table: seq<Service>, exists_: string -> bool)
    requires forall i, j :: 0 <= i < j < |table| ==> table[i].path != table[j].path
    ensures forall p :: p in ExistingServices(table, exists_) <==>
      exists j :: 0 <= j < |table| && table[j].path == p && exists_(p)
    ensures forall j :: 0 <= j < |table| && exists_(table[j].path) ==>
      ExistingServices(table, exists_)[table[j].path] == table[j].command
  {
    if table != [] {
      var init := table[..|table| - 1];
      ExistingServicesExactly(init, exists_);
      var last := |table| - 1;
      forall p ensures p in ExistingServices(table, exists_) <==>
        exists j :: 0 <= j < |table| && table[j].path == p && exists_(p)
      {
        if p in ExistingServices(init, exists_) {
          var j :| 0 <= j < |init| && init[j].path == p && exists_(p);
          assert table[j].path == p;
        }
        if exists j :: 0 <= j < |table| && table[j].path == p && exists_(p) {
          var j :| 0 <= j < |table| && table[j].path == p && exists_(p);
          if j < last {
            assert init[j].path == p;
          }
        }
      }
      forall j | 0 <= j < |table| && exists_(table[j].path)
        ensures ExistingServices(table, exists_)[table[j].path] == table[j].command
      {
        if j < last {
          assert init[j] == table[j];
        }
      }
    }
  }

  /** For the servers of findServices: the map lists exactly the servers
      present, each with its start command; the started one is the first
      present in priority order. */
  lemma FindServicesExactly(exists_: string -> bool)
    ensures forall p :: p in ExistingServices(ServiceTable, exists_) <==>
      exists j :: 0 <= j < |ServiceTable| && ServiceTable[j].path == p && exists_(p)
    ensures forall j :: 0 <= j < |ServiceTable| && exists_(ServiceTable[j].path) ==>
      ExistingServices(ServiceTable, exists_)[ServiceTable[j].path] == ServiceTable[j].command
    ensures Chosen(ServiceTable, exists_).Some? ==>
      var i := FirstExisting(ServiceTable, exists_).value;
      exists_(ServiceTable[i].path) && forall j :: 0 <= j < i ==> !exists_(ServiceTable[j].path)
  {
    ExistingServicesExactly(ServiceTable, exists_);
  }

  // ----- createReferencedDirectories -----

  /** The alternatives of the first group of `^(/var|/etc|/tmp)(.+)/([^/]+)$`. */
  const Roots: seq<string> := ["/var", "/etc", "/tmp"]

  /** `s` is matched by that pattern with these groups (re.match anchors the
      start; `.` does not match a newline; `[^/]` does). */
  predicate MatchesAs(s: string, g1: string, g2: string, g3: string)
  {
    g1 in Roots && |g2| >= 1 && (forall i :: 0 <= i < |g2| ==> g2[i] != '\n') &&
    |g3| >= 1 && (forall i :: 0 <= i < |g3| ==> g3[i] != '/') &&
    s == g1 + g2 + "/" + g3
  }

  /** Directories meant as printf formats, and the services directory, are skipped. */
  predicate Excluded(dirPath: string)
  {
    Contains(dirPath, "%s") || Contains(dirPath, "%d") || Contains(dirPath, "%c") ||
    Contains(dirPath, "/tmp/services")
  }

  /** The directory (group 1 + group 2) that a string from a binary asks to be
      created, if any. Group 3 holds no '/', so the greedy group 2 runs up to
      the last '/' of the string. */
  function DirectoryFor(s: string): (r: Option<string>)
    ensures r.Some? ==> 5 <= |r.value| && |r.value| + 1 < |s| && !Excluded(r.value)
    ensures r.Some? ==> MatchesAs(s, r.value[..4], r.value[4..], s[|r.value| + 1..])
  {
    match LastIndexOf(s, '/')
    case None => None
    case Some(k) =>
      if k >= 5 && s[..4] in Roots && (forall i :: 4 <= i < k ==> s[i] != '\n') && k + 1 < |s|
         && !Excluded(s[..k])
      then
        var d := s[..k];
        var group2 := d[4..];
        var group3 := s[k + 1..];
        assert d[..4] == s[..4];
        assert s == d[..4] + group2 + "/" + group3;
        assert forall i :: 0 <= i < |group2| ==> group2[i] != '\n' by {
          forall i | 0 <= i < |group2| ensures group2[i] != '\n' {
            assert group2[i] == s[i + 4];
          }
        }
        assert forall i :: 0 <= i < |group3| ==> group3[i] != '/' by {
          forall i | 0 <= i < |group3| ensures group3[i] != '/' {
            assert group3[i] == s[k + 1 + i];
          }
        }
        Some(d)
      else None
  }

  /** Every match of the pattern whose directory is not excluded is found,
      with the directory the groups give. */
  lemma DirectoryForComplete(s: string, g1: string, g2: string, g3: string)
    requires MatchesAs(s, g1, g2, g3) && !Excluded(g1 + g2)
    ensures DirectoryFor(s) == Some(g1 + g2)
  {
    var k := |g1 + g2|;
    assert s[k] == '/';
    assert forall j :: k < j < |s| ==> s[j] == g3[j - k - 1];
    assert LastIndexOf(s, '/') == Some(k);
    assert s[..k] == g1 + g2;
    assert s[..4] == g1;
    assert forall i :: 4 <= i < k ==> s[i] == g2[i - 4];
  }

  /** The directories the strings of `found` name, in order, with repeats. */
  function Matched(found: seq<string>): (r: seq<string>)
    ensures forall k :: 0 <= k < |r| ==> StartsWith(r[k], "/")
  {
    if found == [] then []
    else
      var m := DirectoryFor(found[|found| - 1]);
      Matched(found[..|found| - 1]) + (if m.Some? then [m.value] else [])
  }

  /** A directory is collected exactly when some string names it. */
  lemma {:induction false} MatchedExactly(found: seq<string>)
    ensures forall d :: d in Matched(found) <==> exists s :: s in found && DirectoryFor(s) == Some(d)
  {
    if found != [] {
      var init := found[..|found| - 1];
      MatchedExactly(init);
      assert forall s :: s in found <==> s in init || s == found[|found| - 1];
    }
  }

  /** The host directories that createReferencedDirectories computes, as
      written, for the guest directories `dirs`: each goes through this file's
      guestToHostPath, so it is the directory followed by the root without its
      leading '/'. */
  function HostDirs(root: string, dirs: seq<string>): (r: seq<string>)
    requires StartsWith(root, "/")
    ensures |r| == |dirs| && forall k :: 0 <= k < |r| ==> r[k] == dirs[k] + root[1..]
  {
    seq(|dirs|, k requires 0 <= k < |dirs| => GuestToHostPath(root, dirs[k]).value)
  }

  /** As written, a directory named in a binary is created outside the image:
      for the root "/tmp/root", "/etc/foo" is created as "/etc/footmp/root". */
  lemma HostDirsMisplaces()
    ensures HostDirs("/tmp/root", ["/etc/foo"]) == ["/etc/footmp/root"]
    ensures !StartsWith(HostDirs("/tmp/root", ["/etc/foo"])[0], "/tmp/root")
  {
    GuestToHostMisplaces();
    assert HostDirs("/tmp/root", ["/etc/foo"])[0] == GuestToHostPath("/tmp/root", "/etc/foo").value;
  }

  /** The evidently intended host directories: each guest directory under
      the image root, as src/guestUtils.py places it. */
  function HostDirsCorrected(root: string, dirs: seq<string>): (r: seq<string>)
    requires StartsWith(root, "/")
    ensures |r| == |dirs| && forall k :: 0 <= k < |r| ==> StartsWith(r[k], root)
    ensures forall k :: 0 <= k < |r| && StartsWith(dirs[k], "/") ==>
      Ok(r[k]) == GuestUtils.GuestToHostPath(root, dirs[k])
  {
    seq(|dirs|, k requires 0 <= k < |dirs| => GuestToHostPathCorrected(root, dirs[k]).value)
  }

  /** One more string extends the collected directories by what it names. */
  lemma MatchedSnoc(found: seq<string>, i: nat)
    requires i < |found|
    ensures var m := DirectoryFor(found[i]);
      Matched(found[..i + 1]) == Matched(found[..i]) + (if m.Some? then [m.value] else [])
  {
    assert found[..i + 1][..i] == found[..i];
  }

  /** One more directory extends the host directories by its host path. */
  lemma HostDirsSnoc(root: string, dirs: seq<string>, d: string)
    requires StartsWith(root, "/")
    ensures HostDirs(root, dirs + [d]) == HostDirs(root, dirs) + [GuestToHostPath(root, d).value]
  {
  }

  /** The part of createReferencedDirectories after the file walk, as
      written: for each string found in an executable, in order, compute the
      host path of the directory it names with this file's guestToHostPath.
      `found` stands for the strings of the executables the walk reaches; as
      written the walk starts at each of "/bin", "/sbin", "/usr/bin" and
      "/usr/sbin" followed by the root without its leading '/'.
      `created` is the set written to dir_log; `made` lists the host paths
      handed to readIfLinked and then makedirs (see HostDirs for where they
      lie). */
  method CollectDirectories(root: string, found: seq<string>) returns (r: Result<(set<string>, seq<string>)>)
    ensures r.Err? <==> !StartsWith(root, "/")
    ensures r.Ok? ==> forall d :: d in r.value.0 <==> d in Matched(found)
    ensures r.Ok? ==> r.value.1 == HostDirs(root, Matched(found))
  {
    if !StartsWith(root, "/") {
      // The existence check of "/bin" rewrites it with the relative root,
      // which raises before anything is created.
      return Err(ValueError);
    }
    var createdDirs: set<string> := {};
    var made: seq<string> := [];
    var i := 0;
    while i < |found|
      invariant 0 <= i <= |found|
      invariant forall d :: d in createdDirs <==> d in Matched(found[..i])
      invariant made == HostDirs(root, Matched(found[..i]))
    {
      var path := found[i];
      ghost var ms := Matched(found[..i]);
      MatchedSnoc(found, i);
      var m := DirectoryFor(path);
      if m.Some? {
        var dirPath := m.value;
        var fullPath := GuestToHostPath(root, dirPath);
        HostDirsSnoc(root, ms, dirPath);
        made := made + [fullPath.value];
        if dirPath !in createdDirs {
          createdDirs := createdDirs + {dirPath};
        }
      }
      i := i + 1;
    }
    assert found[..i] == found;
    return Ok((createdDirs, made));
  }
}
