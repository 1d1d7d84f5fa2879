/** The pure helpers of src/util.py: the emulator's architecture table and the
    `strings` extractor of printable runs. */
module PyUtil {

  /** Members of the Architecture enum that the code names; any other member
      is `OtherArch`. */
  datatype Architecture = Mips | Arm | UnknownArch | OtherArch(name: string)

  datatype Endianess = Little | Big | UnknownEndian

  /** The (architecture, endianness) pairs the emulator supports, in the order listed. */
  const CompatibleConfigurations: seq<(Architecture, Endianess)> :=
    [(Mips, Little), (Mips, Big), (Arm, Little)]

  /** checkCompatibility: an unknown architecture or byte order is never
      compatible; otherwise the pair must be listed. */
  function CheckCompatibility(arch: Architecture, endianess: Endianess): (ok: bool)
    ensures arch == UnknownArch || endianess == UnknownEndian ==> !ok
  {
    if arch == UnknownArch || endianess == UnknownEndian then false
    else (arch, endianess) in CompatibleConfigurations
  }

  /** The emulator runs MIPS in either byte order and little-endian ARM, and
      nothing else. */
  lemma CompatibleExactly(arch: Architecture, endianess: Endianess)
    ensures CheckCompatibility(arch, endianess) <==>
      (arch == Mips && endianess != UnknownEndian) || (arch == Arm && endianess == Little)
  {
    var t := CompatibleConfigurations;
    if arch == Mips && endianess == Little {
      assert (arch, endianess) == t[0];
    } else if arch == Mips && endianess == Big {
      assert (arch, endianess) == t[1];
    } else if arch == Arm && endianess == Little {
      assert (arch, endianess) == t[2];
    } else {
      assert (arch, endianess) !in t;
    }
  }

  type byte = b: int | 0 <= b < 256

  /** Membership of `chr(b)` in Python's `string.printable`: digits, ASCII
      letters, punctuation and the whitespace " \t\n\r\x0b\x0c". */
  predicate Printable(b: byte)
  {
    (0x20 <= b <= 0x7e) || (0x09 <= b <= 0x0d)
  }

  function ToChars(bs: seq<byte>): (s: string)
    ensures |s| == |bs| && forall i :: 0 <= i < |s| ==> s[i] == bs[i] as char
  {
    seq(|bs|, i requires 0 <= i < |bs| => bs[i] as char)
  }

  /** The runs of `data` between non-printable bytes, in order. A run may be
      empty (two non-printable bytes in a row, or one at either end); the last
      run is the one still open at the end of the input. */
  function Runs(data: seq<byte>): (rs: seq<seq<byte>>)
    ensures |rs| >= 1
  {
    if data == [] then [[]]
    else
      var rs := Runs(data[..|data| - 1]);
      var b := data[|data| - 1];
      if Printable(b) then rs[..|rs| - 1] + [rs[|rs| - 1] + [b]]
      else rs + [[]]
  }

  /** The runs of `rs` at least `minLength` long, as strings, in order. */
  function LongRuns(rs: seq<seq<byte>>, minLength: int): seq<string>
  {
    if rs == [] then []
    else
      LongRuns(rs[..|rs| - 1], minLength)
        + (if |rs[|rs| - 1]| >= minLength then [ToChars(rs[|rs| - 1])] else [])
  }

  /** What `strings` yields for `data`. */
  function Extracted(data: seq<byte>, minLength: int): seq<string>
  {
    LongRuns(Runs(data), minLength)
  }

  predicate AllPrintable(r: seq<byte>)
  {
    forall i :: 0 <= i < |r| ==> Printable(r[i])
  }

  /** Every run is made of printable bytes only. */
  lemma {:induction false} RunsPrintable(data: seq<byte>)
    ensures forall k :: 0 <= k < |Runs(data)| ==> AllPrintable(Runs(data)[k])
  {
    if data != [] {
      RunsPrintable(data[..|data| - 1]);
    }
  }

  /** Every non-printable byte closes exactly one run: there is one run more
      than there are non-printable bytes. */
  lemma {:induction false} RunsCoverInput(data: seq<byte>)
    ensures |Runs(data)| - 1 == |set i | 0 <= i < |data| && !Printable(data[i])|
  {
    var bad := set i | 0 <= i < |data| && !Printable(data[i]);
    if data != [] {
      var init := data[..|data| - 1];
      RunsCoverInput(init);
      var badInit := set i | 0 <= i < |init| && !Printable(init[i]);
      if Printable(data[|data| - 1]) {
        assert bad == badInit;
      } else {
        assert bad == badInit + {|data| - 1};
      }
    }
  }

  /** Every character of `t` is in `string.printable`. */
  predicate PrintableText(t: string)
  {
    forall j :: 0 <= j < |t| ==> t[j] as int < 256 && Printable(t[j] as int as byte)
  }

  /** The non-printable bytes of `data`, in order. */
  function NonPrintables(data: seq<byte>): seq<byte>
  {
    if data == [] then []
    else
      var b := data[|data| - 1];
      NonPrintables(data[..|data| - 1]) + (if Printable(b) then [] else [b])
  }

  /** The runs with the separating bytes put back between them. */
  function Join(rs: seq<seq<byte>>, seps: seq<byte>): seq<byte>
    requires |rs| == |seps| + 1
    decreases |seps|
  {
    if seps == [] then rs[0]
    else Join(rs[..|rs| - 1], seps[..|seps| - 1]) + [seps[|seps| - 1]] + rs[|rs| - 1]
  }

  /** The runs, joined by the non-printable bytes that closed them, give
      back the input: no byte is lost or added. */
  lemma {:induction false} RunsJoin(data: seq<byte>)
    ensures |Runs(data)| == |NonPrintables(data)| + 1
    ensures Join(Runs(data), NonPrintables(data)) == data
  {
    if data != [] {
      var init := data[..|data| - 1];
      var b := data[|data| - 1];
      RunsJoin(init);
      var rs, seps := Runs(init), NonPrintables(init);
      if Printable(b) {
        assert Runs(data) == rs[..|rs| - 1] + [rs[|rs| - 1] + [b]] && NonPrintables(data) == seps;
        JoinExtendLast(rs, seps, b);
      } else {
        var rs2, seps2 := rs + [[]], seps + [b];
        assert Runs(data) == rs2 && NonPrintables(data) == seps2;
        assert rs2[..|rs2| - 1] == rs && seps2[..|seps2| - 1] == seps;
        assert Join(rs2, seps2) == Join(rs, seps) + [b] + [];
      }
      assert init + [b] == data;
    }
  }

  /** Extending the last run extends the joined bytes. */
  lemma JoinExtendLast(rs: seq<seq<byte>>, seps: seq<byte>, b: byte)
    requires |rs| == |seps| + 1
    ensures Join(rs[..|rs| - 1] + [rs[|rs| - 1] + [b]], seps) == Join(rs, seps) + [b]
  {
    var rs2 := rs[..|rs| - 1] + [rs[|rs| - 1] + [b]];
    if seps != [] {
      assert rs2[..|rs2| - 1] == rs[..|rs| - 1];
      var j := Join(rs[..|rs| - 1], seps[..|seps| - 1]);
      assert j + [seps[|seps| - 1]] + (rs[|rs| - 1] + [b]) == j + [seps[|seps| - 1]] + rs[|rs| - 1] + [b];
    }
  }

  /** Every yielded string is at least `minLength` long and consists of
      characters of `string.printable` (so it is ASCII). */
  lemma {:induction false} LongRunsShape(rs: seq<seq<byte>>, minLength: int)
    requires forall k :: 0 <= k < |rs| ==> AllPrintable(rs[k])
    ensures forall k :: 0 <= k < |LongRuns(rs, minLength)| ==>
      |LongRuns(rs, minLength)[k]| >= minLength &&
      forall j :: 0 <= j < |LongRuns(rs, minLength)[k]| ==>
        LongRuns(rs, minLength)[k][j] as int < 0x80
    ensures forall k :: 0 <= k < |LongRuns(rs, minLength)| ==> PrintableText(LongRuns(rs, minLength)[k])
  {
    if rs != [] {
      LongRunsShape(rs[..|rs| - 1], minLength);
    }
  }

  /** The strings yielded once `d` has been read: the long-enough runs that
      a non-printable byte has closed. */
  function ClosedRuns(d: seq<byte>, minLength: int): seq<string>
  {
    var rs := Runs(d);
    LongRuns(rs[..|rs| - 1], minLength)
  }

  /** The accumulator once `d` has been read: the run still open. */
  function OpenRun(d: seq<byte>): string
  {
    var rs := Runs(d);
    ToChars(rs[|rs| - 1])
  }

  /** A printable byte extends the open run. */
  lemma RunsExtend(data: seq<byte>, i: nat, minLength: int)
    requires i < |data| && Printable(data[i])
    ensures ClosedRuns(data[..i + 1], minLength) == ClosedRuns(data[..i], minLength)
    ensures OpenRun(data[..i + 1]) == OpenRun(data[..i]) + [data[i] as char]
  {
    var d, b := data[..i], data[i];
    assert data[..i + 1] == d + [b];
    var rs := Runs(d);
    assert (d + [b])[..|d|] == d;
    var rs' := rs[..|rs| - 1] + [rs[|rs| - 1] + [b]];
    assert Runs(d + [b]) == rs';
    assert rs'[..|rs'| - 1] == rs[..|rs| - 1];
    assert ToChars(rs[|rs| - 1] + [b]) == ToChars(rs[|rs| - 1]) + [b as char];
  }

  /** A non-printable byte closes the open run, which is yielded if it is
      long enough, and opens an empty one. */
  lemma RunsClose(data: seq<byte>, i: nat, minLength: int)
    requires i < |data| && !Printable(data[i])
    ensures var o := OpenRun(data[..i]);
      ClosedRuns(data[..i + 1], minLength) == ClosedRuns(data[..i], minLength) + (if |o| >= minLength then [o] else [])
    ensures OpenRun(data[..i + 1]) == ""
  {
    var d, b := data[..i], data[i];
    assert data[..i + 1] == d + [b];
    var rs := Runs(d);
    assert (d + [b])[..|d|] == d;
    assert Runs(d + [b]) == rs + [[]];
    assert (rs + [[]])[..|rs|] == rs;
  }

  /** At end of input the open run is yielded if it is long enough; every
      yielded string is at least `minLength` long and made of characters of
      `string.printable`, hence ASCII. */
  lemma ExtractedEnd(data: seq<byte>, minLength: int)
    ensures var o := OpenRun(data);
      Extracted(data, minLength) == ClosedRuns(data, minLength) + (if |o| >= minLength then [o] else [])
    ensures var out := Extracted(data, minLength);
      (forall k :: 0 <= k < |out| ==> |out[k]| >= minLength) &&
      (forall k, j :: 0 <= k < |out| && 0 <= j < |out[k]| ==> out[k][j] as int < 0x80) &&
      (forall k :: 0 <= k < |out| ==> PrintableText(out[k]))
  {
    var rs := Runs(data);
    assert rs[..|rs|] == rs;
    RunsPrintable(data);
    LongRunsShape(rs, minLength);
  }

  /** strings(filePath, minLength) over the file's bytes: accumulate printable
      characters; a non-printable byte yields the accumulator if it is long
      enough and resets it; at end of input the open run is yielded if it is
      long enough. */
  method Strings(data: seq<byte>, minLength: int) returns (out: seq<string>)
    ensures out == Extracted(data, minLength)
    ensures forall k :: 0 <= k < |out| ==> |out[k]| >= minLength
    ensures forall k, j :: 0 <= k < |out| && 0 <= j < |out[k]| ==> out[k][j] as int < 0x80
    ensures forall k :: 0 <= k < |out| ==> PrintableText(out[k])
  {
    out := [];
    var result: string := "";
    var i := 0;
    while i < |data|
      invariant 0 <= i <= |data|
      invariant out == ClosedRuns(data[..i], minLength) && result == OpenRun(data[..i])
    {
      var b := data[i];
      if Printable(b) {
        RunsExtend(data, i, minLength);
        result := result + [b as char];
      } else {
        RunsClose(data, i, minLength);
        if |result| >= minLength {
          out := out + [result];
        }
        result := "";
      }
      i := i + 1;
    }
    if |result| >= minLength {
      out := out + [result];
    }
    assert data[..|data|] == data;
    ExtractedEnd(data, minLength);
  }
}
