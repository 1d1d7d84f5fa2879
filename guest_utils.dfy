/** The host/guest path rewriters of src/guestUtils.py. A guest path is a path
    inside the extracted firmware root; a host path is where that file lies on
    the analysing machine, under `imagePath`. */
module GuestUtils {
  import opened Text

  /** `imagePath` with one trailing '/' removed, if it has one. */
  function StripOneSlash(imagePath: string): (r: string)
    ensures imagePath == r || imagePath == r + "/"
    ensures EndsWith(imagePath, "/") ==> r + "/" == imagePath
    ensures !EndsWith(imagePath, "/") ==> r == imagePath
  {
    if EndsWith(imagePath, "/") then imagePath[..|imagePath| - 1] else imagePath
  }

  /** `imagePath` with a '/' appended unless it already ends in one. */
  function WithSlash(imagePath: string): (r: string)
    ensures EndsWith(r, "/") && StartsWith(r, imagePath)
    ensures EndsWith(imagePath, "/") ==> r == imagePath
    ensures !EndsWith(imagePath, "/") ==> r == imagePath + "/"
  {
    if EndsWith(imagePath, "/") then imagePath else imagePath + "/"
  }

  /** hostToGuestPath: replaces the leftmost occurrence of the image root in
      `path` by "/". Both arguments must be absolute. */
  function HostToGuestPath(imagePath: string, path: string): (r: Result<string>)
    ensures r.Err? <==> !(StartsWith(imagePath, "/") && StartsWith(path, "/"))
  {
    if !StartsWith(imagePath, "/") || !StartsWith(path, "/") then Err(ValueError)
    else Ok(ReplaceFirst(path, StripOneSlash(imagePath), "/"))
  }

  /** guestToHostPath: the image root (with a trailing '/') followed by the
      guest path without its leading '/'. */
  function GuestToHostPath(imagePath: string, path: string): (r: Result<string>)
    ensures r.Err? <==> !(StartsWith(imagePath, "/") && StartsWith(path, "/"))
    ensures r.Ok? ==> r.value == WithSlash(imagePath) + path[1..]
    ensures r.Ok? ==> StartsWith(r.value, imagePath)
  {
    if !StartsWith(imagePath, "/") || !StartsWith(path, "/") then Err(ValueError)
    else
      var root := WithSlash(imagePath);
      ReplaceFirstPrefix(path, "/", root);
      Ok(ReplaceFirst(path, "/", root))
  }

  /** A host path that does not contain the image root is returned unchanged. */
  lemma HostToGuestOutsideImage(imagePath: string, path: string)
    requires StartsWith(imagePath, "/") && StartsWith(path, "/")
    requires !Contains(path, StripOneSlash(imagePath))
    ensures HostToGuestPath(imagePath, path) == Ok(path)
  {
    ReplaceFirstAbsent(path, StripOneSlash(imagePath), "/");
  }

  /** A host path under the image root loses that root and gains "/" in its
      place; the rest of the path keeps its own leading '/'. */
  lemma HostToGuestUnderImage(imagePath: string, rest: string)
    requires StartsWith(imagePath, "/") && StartsWith(rest, "/")
    ensures HostToGuestPath(imagePath, StripOneSlash(imagePath) + rest) == Ok("/" + rest)
  {
    var root := StripOneSlash(imagePath);
    var path := root + rest;
    assert StartsWith(path, root);
    if root == [] {
      assert path == rest;
    } else {
      assert path[..1] == root[..1] == imagePath[..1];
    }
    ReplaceFirstPrefix(path, root, "/");
    assert path[|root|..] == rest;
  }

  /** Appending '/' to the stripped root gives the root with a trailing '/'. */
  lemma StripThenAppend(imagePath: string)
    ensures WithSlash(imagePath) == StripOneSlash(imagePath) + "/"
  {
    if EndsWith(imagePath, "/") {
      assert imagePath == imagePath[..|imagePath| - 1] + "/";
    }
  }

  /** Going guest -> host -> guest with the same image root does not give the
      guest path back: the result carries a doubled leading slash, "/" + p. */
  lemma GuestHostGuest(imagePath: string, p: string)
    requires StartsWith(imagePath, "/") && StartsWith(p, "/")
    ensures GuestToHostPath(imagePath, p).Ok?
    ensures HostToGuestPath(imagePath, GuestToHostPath(imagePath, p).value) == Ok("/" + p)
  {
    var root := StripOneSlash(imagePath);
    StripThenAppend(imagePath);
    assert p == "/" + p[1..];
    assert (root + "/") + p[1..] == root + p;
    HostToGuestUnderImage(imagePath, p);
  }
}
