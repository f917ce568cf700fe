/** From an application identifier to the program it runs: where its
    `.desktop` descriptor is looked for under one data directory, and how
    the binary is read off the descriptor's `Exec` line. */
module Descriptor {

  import opened Wrappers
  import opened RustStr
  import opened Fs

  const ExecKey := "Exec"

  /** `{base}/{vendor}/{app}`, where `vendor` and `app` are the first two
      pieces of the identifier split on `-`: the vendor is the text before
      the first `-`, the app the text from there up to the next `-` or the
      end (anything after a second `-` is not part of the path). */
  function VendorPath(base: Path, name: string): (r: Path)
    requires '-' in name
    ensures var k := FindChar(name, '-').value;
      r == base + "/" + name[..k] + "/" + Split(name[k + 1..], '-')[0]
  {
    var k := FindChar(name, '-').value;
    SplitAt(name, '-', k);
    var v := Split(name, '-');
    assert v[0] == name[..k] && v[1] == Split(name[k + 1..], '-')[0];
    base + "/" + v[0] + "/" + v[1]
  }

  lemma VendorPathInside(base: Path, name: string)
    requires '-' in name
    ensures StartsWith(VendorPath(base, name), base + "/")
  {
    var k := FindChar(name, '-').value;
    PrefixStarts(base + "/", name[..k] + "/" + Split(name[k + 1..], '-')[0]);
  }

  /** `a-b-c.desktop` under `base` is looked for as `{base}/a/b`. */
  lemma VendorPathExample(base: Path)
    ensures VendorPath(base, "a-b-c.desktop") == base + "/" + "a" + "/" + "b"
  {
    var name := "a-b-c.desktop";
    assert name[1] == '-' && name[..1] == "a" && '-' !in name[..1];
    FindCharUnique(name, '-', 1);
    var rest := name[2..];
    assert rest == "b-c.desktop";
    assert rest[1] == '-' && rest[..1] == "b" && '-' !in rest[..1];
    FirstPiece(rest, '-', 1);
  }

  /** The identifier under each child of `indir`, entry by entry, until an
      entry that is an error. */
  function ProbeEntries(fs: FileSystem, indir: Path, entries: seq<DirEntry>, name: string): (r: Result<Option<Path>>)
    ensures r.Err? ==> r.error.Io?
    decreases |entries|
  {
    if entries == [] then Ok(None)
    else match entries[0]
      case BadEntry(f) => Err(Io(f))
      case Entry(child) =>
        var p := indir + "/" + child + "/" + name;
        if fs.Exists(p) then Ok(Some(p)) else ProbeEntries(fs, indir, entries[1..], name)
  }

  /** `{indir}/{name}`, then, when `indir` is a directory, `{child}/{name}`
      for each of its children: one level down, never deeper. */
  function ProbeSubdir(fs: FileSystem, indir: Path, name: string): (r: Result<Option<Path>>)
    ensures r.Err? ==> r.error.Io?
  {
    var p := indir + "/" + name;
    if fs.Exists(p) then Ok(Some(p))
    else if !fs.IsDir(indir) then Ok(None)
    else match fs.ReadDir(indir)
      case Unlistable(f) => Err(Io(f))
      case Listed(entries) => ProbeEntries(fs, indir, entries, name)
  }

  /** `ProbeSubdir` over a list of subdirectories, stopping at the first hit or error. */
  function ProbeSubdirs(fs: FileSystem, indirs: seq<Path>, name: string): (r: Result<Option<Path>>)
    ensures r.Err? ==> r.error.Io?
    decreases |indirs|
  {
    if indirs == [] then Ok(None)
    else
      var r := ProbeSubdir(fs, indirs[0], name);
      if r == Ok(None) then ProbeSubdirs(fs, indirs[1..], name) else r
  }

  /** The descriptor of identifier `name` under data directory `dir`: the
      vendor paths under `applications/` and `applnk/` when the identifier
      holds a `-`, else (or when neither exists) the probes of
      `applications/` and then `applnk/`. */
  function Location(fs: FileSystem, dir: Path, name: string): (r: Result<Option<Path>>)
    ensures r.Err? ==> r.error.Io?
  {
    var apps := dir + "/applications";
    var applnk := dir + "/applnk";
    if '-' in name && fs.Exists(VendorPath(apps, name)) then Ok(Some(VendorPath(apps, name)))
    else if '-' in name && fs.Exists(VendorPath(applnk, name)) then Ok(Some(VendorPath(applnk, name)))
    else ProbeSubdirs(fs, [apps, applnk], name)
  }

  /** The search of one data directory, with the early exits of lib.rs:249-299. */
  method LocateDescriptor(fs: FileSystem, dir: Path, name: string) returns (r: Result<Option<Path>>)
    ensures r == Location(fs, dir, name)
  {
    var filePath: Option<Path> := None;
    if '-' in name {
      var v := Split(name, '-');
      var vendor, app := v[0], v[1];
      var p := dir + "/applications" + "/" + vendor + "/" + app;
      if fs.Exists(p) {
        filePath := Some(p);
      } else {
        p := dir + "/applnk" + "/" + vendor + "/" + app;
        if fs.Exists(p) {
          filePath := Some(p);
        }
      }
    }
    if filePath.None? {
      var indirs := [dir + "/applications", dir + "/applnk"];
      var n := 0;
      label indir:
      while n < |indirs|
        invariant 0 <= n <= |indirs|
        invariant filePath.None?
        invariant Location(fs, dir, name) == ProbeSubdirs(fs, indirs[n..], name)
      {
        var p := indirs[n] + "/" + name;
        if fs.Exists(p) {
          filePath := Some(p);
          break;
        }
        if fs.IsDir(indirs[n]) {
          var listing := fs.ReadDir(indirs[n]);
          if listing.Unlistable? {
            return Err(Io(listing.failure));
          }
          var entries := listing.entries;
          var m := 0;
          while m < |entries|
            invariant 0 <= m <= |entries|
            invariant filePath.None?
            invariant ProbeEntries(fs, indirs[n], entries, name) == ProbeEntries(fs, indirs[n], entries[m..], name)
          {
            if entries[m].BadEntry? {
              return Err(Io(entries[m].failure));
            }
            var child := indirs[n] + "/" + entries[m].name + "/" + name;
            if fs.Exists(child) {
              filePath := Some(child);
              break indir;
            }
            assert entries[m..][1..] == entries[m + 1..];
            m := m + 1;
          }
        }
        assert indirs[n..][1..] == indirs[n + 1..];
        n := n + 1;
      }
    }
    return Ok(filePath);
  }

  /** The first path of `paths` that exists. */
  function FirstExisting(fs: FileSystem, paths: seq<Path>): Option<Path>
    decreases |paths|
  {
    if paths == [] then None
    else if fs.Exists(paths[0]) then Some(paths[0])
    else FirstExisting(fs, paths[1..])
  }

  /** The first existing path is the existing one with none before it, and
      there is none exactly when no path exists. */
  lemma {:induction false} FirstExistingIsFirst(fs: FileSystem, paths: seq<Path>, i: nat)
    requires i <= |paths|
    requires forall j :: 0 <= j < i ==> !fs.Exists(paths[j])
    ensures i < |paths| && fs.Exists(paths[i]) ==> FirstExisting(fs, paths) == Some(paths[i])
    ensures i == |paths| ==> FirstExisting(fs, paths) == None
    decreases i
  {
    if i > 0 {
      FirstExistingIsFirst(fs, paths[1..], i - 1);
    }
  }

  /** The first existing path of two lists is that of the first list, if any,
      else that of the second. */
  lemma {:induction false} FirstExistingAppend(fs: FileSystem, a: seq<Path>, b: seq<Path>)
    ensures FirstExisting(fs, a + b) ==
      if FirstExisting(fs, a).Some? then FirstExisting(fs, a) else FirstExisting(fs, b)
    decreases |a|
  {
    if a == [] {
      assert a + b == b;
    } else {
      assert (a + b)[0] == a[0] && (a + b)[1..] == a[1..] + b;
      FirstExistingAppend(fs, a[1..], b);
    }
  }

  /** The child paths probed under `indir`, entry by entry, up to the first
      entry that is an error. */
  function ChildPaths(indir: Path, entries: seq<DirEntry>, name: string): seq<Path>
    decreases |entries|
  {
    if entries == [] then []
    else match entries[0]
      case BadEntry(_) => []
      case Entry(child) => [indir + "/" + child + "/" + name] + ChildPaths(indir, entries[1..], name)
  }

  lemma PrefixStarts(p: string, q: string)
    ensures StartsWith(p + q, p)
  {
    assert (p + q)[..|p|] == p;
  }

  /** The paths probed under `indir`: `{indir}/{name}`, then the child paths
      when `indir` is a directory that could be listed. */
  function SubdirPaths(fs: FileSystem, indir: Path, name: string): seq<Path> {
    [indir + "/" + name]
    + if fs.IsDir(indir) && fs.ReadDir(indir).Listed?
      then ChildPaths(indir, fs.ReadDir(indir).entries, name) else []
  }

  /** Every path probed under `indir` lies below it. */
  lemma SubdirPathsInside(fs: FileSystem, indir: Path, name: string)
    ensures forall i :: 0 <= i < |SubdirPaths(fs, indir, name)| ==> StartsWith(SubdirPaths(fs, indir, name)[i], indir + "/")
  {
    var paths := SubdirPaths(fs, indir, name);
    forall i | 0 <= i < |paths| ensures StartsWith(paths[i], indir + "/") {
      if i == 0 {
        PrefixStarts(indir + "/", name);
      } else {
        var entries := fs.ReadDir(indir).entries;
        ChildPathsOneLevel(indir, entries, name, i - 1);
        PrefixStarts(indir + "/", entries[i - 1].name + "/" + name);
      }
    }
  }

  /** Every path the search of one data directory may probe, in the order
      it probes them: all of them lie under its `applications/` or its
      `applnk/` subdirectory. */
  function ProbeOrder(fs: FileSystem, dir: Path, name: string): (r: seq<Path>)
    ensures forall i :: 0 <= i < |r| ==>
      StartsWith(r[i], dir + "/applications" + "/") || StartsWith(r[i], dir + "/applnk" + "/")
  {
    var apps := dir + "/applications";
    var applnk := dir + "/applnk";
    (if '-' in name then
       VendorPathInside(apps, name);
       VendorPathInside(applnk, name);
       [VendorPath(apps, name), VendorPath(applnk, name)]
     else [])
    + (SubdirPathsInside(fs, apps, name); SubdirPaths(fs, apps, name))
    + (SubdirPathsInside(fs, applnk, name); SubdirPaths(fs, applnk, name))
  }

  /** `indir` is not a directory, or it lists without any error. */
  predicate ListsCleanly(fs: FileSystem, indir: Path) {
    !fs.IsDir(indir)
    || (fs.ReadDir(indir).Listed? && forall i :: 0 <= i < |fs.ReadDir(indir).entries| ==> fs.ReadDir(indir).entries[i].Entry?)
  }

  lemma {:induction false} ProbeEntriesIsFirstExisting(fs: FileSystem, indir: Path, entries: seq<DirEntry>, name: string)
    ensures ProbeEntries(fs, indir, entries, name).Ok? ==>
      ProbeEntries(fs, indir, entries, name).value == FirstExisting(fs, ChildPaths(indir, entries, name))
    ensures (forall i :: 0 <= i < |entries| ==> entries[i].Entry?) ==> ProbeEntries(fs, indir, entries, name).Ok?
    decreases |entries|
  {
    if entries != [] && entries[0].Entry? {
      ProbeEntriesIsFirstExisting(fs, indir, entries[1..], name);
    }
  }

  lemma ProbeSubdirIsFirstExisting(fs: FileSystem, indir: Path, name: string)
    ensures ProbeSubdir(fs, indir, name).Ok? ==>
      ProbeSubdir(fs, indir, name).value == FirstExisting(fs, SubdirPaths(fs, indir, name))
    ensures ListsCleanly(fs, indir) ==> ProbeSubdir(fs, indir, name).Ok?
  {
    var p := indir + "/" + name;
    if fs.IsDir(indir) && fs.ReadDir(indir).Listed? {
      var entries := fs.ReadDir(indir).entries;
      ProbeEntriesIsFirstExisting(fs, indir, entries, name);
      FirstExistingAppend(fs, [p], ChildPaths(indir, entries, name));
    } else {
      assert SubdirPaths(fs, indir, name) == [p];
    }
  }

  /** The search of one data directory either fails on a listing, or finds
      exactly the first existing path of `ProbeOrder` (nothing when none
      exists); it cannot fail when both subdirectories list cleanly. */
  lemma LocationIsFirstProbe(fs: FileSystem, dir: Path, name: string)
    ensures Location(fs, dir, name).Ok? ==>
      Location(fs, dir, name).value == FirstExisting(fs, ProbeOrder(fs, dir, name))
    ensures ListsCleanly(fs, dir + "/applications") && ListsCleanly(fs, dir + "/applnk") ==>
      Location(fs, dir, name).Ok?
  {
    var apps := dir + "/applications";
    var applnk := dir + "/applnk";
    var vendor := if '-' in name then [VendorPath(apps, name), VendorPath(applnk, name)] else [];
    var probes := SubdirPaths(fs, apps, name) + SubdirPaths(fs, applnk, name);
    ProbeSubdirIsFirstExisting(fs, apps, name);
    ProbeSubdirIsFirstExisting(fs, applnk, name);
    ProbeSubdirsPair(fs, apps, applnk, name);
    FirstExistingAppend(fs, vendor, probes);
    FirstExistingAppend(fs, SubdirPaths(fs, apps, name), SubdirPaths(fs, applnk, name));
    assert ProbeOrder(fs, dir, name) == vendor + probes;
    if '-' in name {
      FirstExistingPair(fs, VendorPath(apps, name), VendorPath(applnk, name));
    } else {
      assert FirstExisting(fs, vendor) == None;
    }
  }

  lemma ProbeSubdirsPair(fs: FileSystem, a: Path, b: Path, name: string)
    ensures ProbeSubdirs(fs, [a, b], name) ==
      if ProbeSubdir(fs, a, name) == Ok(None) then ProbeSubdir(fs, b, name) else ProbeSubdir(fs, a, name)
  {
    assert [a, b][1..] == [b];
    assert [b][1..] == [];
    assert ProbeSubdirs(fs, [b], name) == ProbeSubdir(fs, b, name);
  }

  lemma FirstExistingPair(fs: FileSystem, a: Path, b: Path)
    ensures FirstExisting(fs, [a, b]) ==
      if fs.Exists(a) then Some(a) else if fs.Exists(b) then Some(b) else None
  {
    assert [a, b][1..] == [b];
    assert [b][1..] == [];
    assert FirstExisting(fs, [b]) == if fs.Exists(b) then Some(b) else None;
  }

  /** Every child path probed lies exactly one level below its subdirectory:
      `{indir}/{child}/{name}` for an entry `child` of the listing. */
  lemma {:induction false} ChildPathsOneLevel(indir: Path, entries: seq<DirEntry>, name: string, i: nat)
    requires i < |ChildPaths(indir, entries, name)|
    ensures i < |entries| && entries[i].Entry?
    ensures ChildPaths(indir, entries, name)[i] == indir + "/" + entries[i].name + "/" + name
    decreases |entries|
  {
    if i > 0 {
      ChildPathsOneLevel(indir, entries[1..], name, i - 1);
    }
  }

  /** The binary named by an `Exec` line: the piece between its first and
      second `=`, cut at its first space; nothing when the line has no `=`. */
  function ExecTarget(line: string): (r: Option<Path>)
    ensures r.None? <==> '=' !in line
    ensures r.Some? ==> '=' !in r.value && ' ' !in r.value
  {
    var fields := Split(line, '=');
    if |fields| >= 2 then
      SplitPiecesClean(line, '=');
      SplitPiecesClean(fields[1], ' ');
      SplitFirstPiece(fields[1], ' ');
      var bin := Split(fields[1], ' ')[0];
      assert forall c :: c in bin ==> c in fields[1];
      Some(bin)
    else None
  }

  /** The first line that starts with `Exec`. */
  function FirstExecLine(lines: seq<string>): (r: Option<string>)
    ensures r.Some? ==> r.value in lines && StartsWith(r.value, ExecKey)
    ensures r.None? <==> forall i :: 0 <= i < |lines| ==> !StartsWith(lines[i], ExecKey)
    decreases |lines|
  {
    if lines == [] then None
    else if StartsWith(lines[0], ExecKey) then Some(lines[0])
    else FirstExecLine(lines[1..])
  }

  /** What a descriptor's text says: `None` when no line starts with `Exec`,
      else the target of the first such line. */
  function ExecOf(text: string): (r: Option<Option<Path>>)
    ensures r.None? <==> forall i :: 0 <= i < |Lines(text)| ==> !StartsWith(Lines(text)[i], ExecKey)
    ensures r.Some? ==> exists l :: l in Lines(text) && StartsWith(l, ExecKey) && r.value == ExecTarget(l)
  {
    match FirstExecLine(Lines(text))
    case None => None
    case Some(line) => Some(ExecTarget(line))
  }

  /** The `for l in buf.lines()` loop that returns at the first `Exec` line. */
  method ExecFromText(text: string) returns (r: Option<Option<Path>>)
    ensures r == ExecOf(text)
  {
    var lines := Lines(text);
    var i := 0;
    while i < |lines|
      invariant 0 <= i <= |lines|
      invariant FirstExecLine(lines) == FirstExecLine(lines[i..])
    {
      if StartsWith(lines[i], ExecKey) {
        return Some(ExecTarget(lines[i]));
      }
      assert lines[i..][1..] == lines[i + 1..];
      i := i + 1;
    }
    return None;
  }

  /** The first `Exec` line is the one with no `Exec` line before it, and
      there is none exactly when no line starts with `Exec`. */
  lemma {:induction false} FirstExecLineIsFirst(lines: seq<string>, i: nat)
    requires i <= |lines|
    requires forall j :: 0 <= j < i ==> !StartsWith(lines[j], ExecKey)
    ensures i < |lines| && StartsWith(lines[i], ExecKey) ==> FirstExecLine(lines) == Some(lines[i])
    ensures i == |lines| ==> FirstExecLine(lines) == None
    decreases i
  {
    if i > 0 {
      FirstExecLineIsFirst(lines[1..], i - 1);
    }
  }

  /** The exact parse of an `Exec` line: for `pre=bin rest`, where `pre`
      holds no `=`, `bin` no `=` and no space, and `rest` is empty or starts
      with a space or a `=`, the binary is `bin`. */
  lemma ExecTargetIs(pre: string, bin: string, rest: string)
    requires '=' !in pre && '=' !in bin && ' ' !in bin
    requires rest == [] || rest[0] == ' ' || rest[0] == '='
    ensures ExecTarget(pre + "=" + bin + rest) == Some(bin)
  {
    var after := bin + rest;
    assert pre + "=" + bin + rest == pre + "=" + after;
    ExecTargetAfter(pre, after);
    BinaryField(bin, rest);
  }

  /** The first `=`-field of `bin + rest` starts with `bin`, followed by its
      end or a space. */
  lemma BinaryFieldPrefix(bin: string, rest: string)
    requires '=' !in bin
    requires rest == [] || rest[0] == ' ' || rest[0] == '='
    ensures var field := Split(bin + rest, '=')[0];
      |bin| <= |field| && field[..|bin|] == bin && (|field| == |bin| || field[|bin|] == ' ')
  {
    var after := bin + rest;
    var field := Split(after, '=')[0];
    SplitFirstPiece(after, '=');
    assert after[..|bin|] == bin;
    FirstPieceLong(after, '=', |bin|);
    assert field[..|bin|] == bin by {
      assert field[..|bin|] == after[..|field|][..|bin|];
    }
    if |field| > |bin| {
      assert field[|bin|] == after[|bin|];
      assert after[|bin|] == rest[0];
      assert field[|bin|] in field;
    }
  }

  /** Cutting that field at its first space leaves `bin`. */
  lemma BinaryField(bin: string, rest: string)
    requires '=' !in bin && ' ' !in bin
    requires rest == [] || rest[0] == ' ' || rest[0] == '='
    ensures Split(Split(bin + rest, '=')[0], ' ')[0] == bin
  {
    BinaryFieldPrefix(bin, rest);
    FirstPiece(Split(bin + rest, '=')[0], ' ', |bin|);
  }

  /** The binary comes from the text after the first `=`. */
  lemma ExecTargetAfter(pre: string, after: string)
    requires '=' !in pre
    ensures ExecTarget(pre + "=" + after) == Some(Split(Split(after, '=')[0], ' ')[0])
  {
    var line := pre + "=" + after;
    assert line[..|pre|] == pre;
    SplitAt(line, '=', |pre|);
    assert line[|pre| + 1..] == after;
  }

  /** A descriptor whose `Exec` line is `Exec=/usr/bin/browser --flag %u`
      runs `/usr/bin/browser`. */
  lemma ExecExample()
    ensures ExecTarget("Exec" + "=" + "/usr/bin/browser" + " --flag %u") == Some("/usr/bin/browser")
  {
    assert '=' !in "Exec" && '=' !in "/usr/bin/browser" && ' ' !in "/usr/bin/browser";
    ExecTargetIs("Exec", "/usr/bin/browser", " --flag %u");
  }
}
