/** The older lookup of utilities.rs: failures to read a `mimeapps.list`
    are skipped, a failure while reading a descriptor or a malformed entry
    aborts the program (an `unwrap` that panics), an unset variable
    contributes no directory, and nothing is searched at all when no desktop
    is named. */
module Utilities {

  import opened Wrappers
  import opened RustStr
  import opened Fs
  import opened XdgEnv
  import opened Candidates
  import opened MimeappsList
  import opened Descriptor
  import Lib

  /** How a call ends: with a path (`Ok`), with `Err(())`, or in a panic. */
  datatype Outcome = Found(path: Path) | Failed | Panicked

  /** What one data directory says about an identifier: `None` to go on to
      the next directory. A listing error, an unreadable descriptor and an
      `Exec` line without `=` all end in a panic. */
  function DirBinary(fs: FileSystem, dir: Path, name: string): (r: Option<Outcome>)
    ensures r != Some(Failed)
  {
    match Location(fs, dir, name)
    case Err(_) => Some(Panicked)
    case Ok(None) => None
    case Ok(Some(p)) =>
      match fs.Read(p)
      case Unreadable(_) => Some(Panicked)
      case Text(t) =>
        match ExecOf(t)
        case None => None
        case Some(None) => Some(Panicked)
        case Some(Some(b)) => Some(Found(b))
  }

  /** The binary of identifier `name`, directory by directory: anything but
      `Err(())` is what one of the directories says. */
  function BinaryIn(fs: FileSystem, dirs: seq<Path>, name: string): (r: Outcome)
    ensures r != Failed ==> exists j :: 0 <= j < |dirs| && DirBinary(fs, dirs[j], name) == Some(r)
    decreases |dirs|
  {
    if dirs == [] then Failed
    else
      assert forall j :: 1 <= j < |dirs| ==> dirs[j] == dirs[1..][j - 1];
      match DirBinary(fs, dirs[0], name)
      case Some(o) => o
      case None => BinaryIn(fs, dirs[1..], name)
  }

  /** An identifier that ends the walk: not blank, and its lookup does not
      end in `Err(())`. */
  predicate Resolves(fs: FileSystem, dataDirs: seq<Path>, name: string) {
    !IsBlank(name) && BinaryIn(fs, dataDirs, name) != Failed
  }

  /** The identifiers of an entry: the first one that resolves gives the
      outcome, so anything but `Err(())` is the outcome of an identifier
      that resolves. */
  function ResolveIdentifiers(fs: FileSystem, dataDirs: seq<Path>, ids: seq<string>): (r: Outcome)
    ensures r != Failed ==> exists j :: 0 <= j < |ids| && Resolves(fs, dataDirs, ids[j]) && r == BinaryIn(fs, dataDirs, ids[j])
    decreases |ids|
  {
    if ids == [] then Failed
    else
      assert forall j :: 1 <= j < |ids| ==> ids[j] == ids[1..][j - 1];
      if Resolves(fs, dataDirs, ids[0]) then BinaryIn(fs, dataDirs, ids[0])
    else ResolveIdentifiers(fs, dataDirs, ids[1..])
  }

  /** `check_mimeapps_list`: a read failure and a missing entry both give
      `Err(())`; a malformed entry panics at the `unwrap` of its `=`. */
  function ListOutcome(fs: FileSystem, dataDirs: seq<Path>, file: Path, query: string): (r: Outcome)
    ensures r.Found? ==> fs.Read(file).Text? && EntryOf(fs.Read(file).text, query).Value?
  {
    match fs.Read(file)
    case Unreadable(_) => Failed
    case Text(t) =>
      match EntryOf(t, query)
      case NoEntry => Failed
      case Malformed => Panicked
      case Value(v) => ResolveIdentifiers(fs, dataDirs, Identifiers(v))
  }

  /** A candidate that ends the search: it exists and its check does not end in `Err(())`. */
  predicate Decisive(fs: FileSystem, dataDirs: seq<Path>, query: string, file: Path) {
    fs.Exists(file) && ListOutcome(fs, dataDirs, file, query) != Failed
  }

  /** The candidates in order: the first decisive one gives the outcome,
      so anything but `Err(())` is the outcome of a decisive candidate. */
  function Scan(fs: FileSystem, dataDirs: seq<Path>, query: string, files: seq<Path>): (r: Outcome)
    ensures r != Failed ==>
      exists j :: 0 <= j < |files| && Decisive(fs, dataDirs, query, files[j]) && r == ListOutcome(fs, dataDirs, files[j], query)
    decreases |files|
  {
    if files == [] then Failed
    else
      assert forall j :: 1 <= j < |files| ==> files[j] == files[1..][j - 1];
      if Decisive(fs, dataDirs, query, files[0]) then ListOutcome(fs, dataDirs, files[0], query)
    else Scan(fs, dataDirs, query, files[1..])
  }

  /** The candidate files in probe order: both tiers' files when a desktop
      is named, none at all otherwise (the generic file is probed inside
      the desktop branch). */
  function SearchOrder(vars: Env): (r: seq<Path>)
    ensures r == [] <==>
      CurrentDesktop !in vars || (PresentDirs(vars, TierAKeys) == [] && PresentDirs(vars, DataKeys) == [])
  {
    var desktops := DesktopList(vars);
    var tierA := PresentDirs(vars, TierAKeys);
    var tierB := PresentDirs(vars, DataKeys);
    if desktops == [] then [] else MimeappsCandidates(tierA, tierB, desktops)
  }

  /** `query_default_app` of utilities.rs: anything but `Err(())` is the
      outcome of a decisive candidate. */
  function DefaultApp(fs: FileSystem, env: Env, query: string): (r: Outcome)
    ensures var vars := ResolvedEnvironment(env);
      var files := SearchOrder(vars);
      var dataDirs := PresentDirs(vars, DataKeys);
      r != Failed ==>
        exists j :: 0 <= j < |files| && Decisive(fs, dataDirs, query, files[j]) && r == ListOutcome(fs, dataDirs, files[j], query)
  {
    var vars := ResolvedEnvironment(env);
    Scan(fs, PresentDirs(vars, DataKeys), query, SearchOrder(vars))
  }

  /** The body of the loop over the data directories of utilities.rs:196-262. */
  method DirectoryBinary(fs: FileSystem, dir: Path, name: string) returns (o: Option<Outcome>)
    ensures o == DirBinary(fs, dir, name)
  {
    var location := LocateDescriptor(fs, dir, name);
    if location.Err? {
      return Some(Panicked);
    }
    if location.value.None? {
      return None;
    }
    var data := fs.Read(location.value.value);
    if data.Unreadable? {
      return Some(Panicked);
    }
    var exec := ExecFromText(data.text);
    match exec
    case None => o := None;
    case Some(None) => o := Some(Panicked);
    case Some(Some(b)) => o := Some(Found(b));
  }

  /** The loop over the data directories of utilities.rs:194-265. */
  method DesktopFileToBinary(fs: FileSystem, dataDirs: seq<Path>, name: string) returns (r: Outcome)
    ensures r == BinaryIn(fs, dataDirs, name)
  {
    var i := 0;
    while i < |dataDirs|
      invariant 0 <= i <= |dataDirs|
      invariant BinaryIn(fs, dataDirs, name) == BinaryIn(fs, dataDirs[i..], name)
    {
      BinaryStep(fs, dataDirs, name, i);
      var o := DirectoryBinary(fs, dataDirs[i], name);
      if o.Some? {
        return o.value;
      }
      i := i + 1;
    }
    return Failed;
  }

  /** utilities.rs:118-185. */
  method CheckMimeappsList(fs: FileSystem, file: Path, dataDirs: seq<Path>, query: string) returns (r: Outcome)
    ensures r == ListOutcome(fs, dataDirs, file, query)
  {
    var data := fs.Read(file);
    if data.Unreadable? {
      return Failed;
    }
    var entry := ScanEntry(data.text, query);
    match entry
    case NoEntry => r := Failed;
    case Malformed => r := Panicked;
    case Value(v) =>
      var ids := Split(v, ';');
      r := ResolveIdentifierList(fs, dataDirs, ids);
  }

  /** The `for v in ...split(";")` loop of utilities.rs:174-182. */
  method ResolveIdentifierList(fs: FileSystem, dataDirs: seq<Path>, ids: seq<string>) returns (r: Outcome)
    ensures r == ResolveIdentifiers(fs, dataDirs, ids)
  {
    var i := 0;
    while i < |ids|
      invariant 0 <= i <= |ids|
      invariant ResolveIdentifiers(fs, dataDirs, ids) == ResolveIdentifiers(fs, dataDirs, ids[i..])
    {
      ResolveStep(fs, dataDirs, ids, i);
      if IsBlank(ids[i]) {
        i := i + 1;
        continue;
      }
      var b := DesktopFileToBinary(fs, dataDirs, ids[i]);
      if b != Failed {
        return b;
      }
      i := i + 1;
    }
    return Failed;
  }

  lemma ResolveStep(fs: FileSystem, dataDirs: seq<Path>, ids: seq<string>, i: nat)
    requires i < |ids|
    ensures ResolveIdentifiers(fs, dataDirs, ids[i..]) ==
      if Resolves(fs, dataDirs, ids[i]) then BinaryIn(fs, dataDirs, ids[i]) else ResolveIdentifiers(fs, dataDirs, ids[i + 1..])
  {
    assert ids[i..][0] == ids[i];
    assert ids[i..][1..] == ids[i + 1..];
  }

  /** One tier of the search, for a non-empty desktop list: each directory's
      desktop-specific files, then its generic file. */
  method SearchTier(fs: FileSystem, dataDirs: seq<Path>, query: string, dirs: seq<Path>, desktops: seq<string>)
    returns (r: Outcome)
    ensures r == Scan(fs, dataDirs, query, CandidatesIn(dirs, desktops))
  {
    ghost var pending := CandidatesIn(dirs, desktops);
    var i := 0;
    while i < |dirs|
      invariant 0 <= i <= |dirs|
      invariant pending == CandidatesIn(dirs[i..], desktops)
      invariant Scan(fs, dataDirs, query, CandidatesIn(dirs, desktops)) == Scan(fs, dataDirs, query, pending)
    {
      assert dirs[i..][1..] == dirs[i + 1..];
      var dir := dirs[i];
      var j := 0;
      while j < |desktops|
        invariant 0 <= j <= |desktops|
        invariant pending == DesktopCandidates(dir, desktops)[j..] + [dir + "/" + GenericList] + CandidatesIn(dirs[i + 1..], desktops)
        invariant Scan(fs, dataDirs, query, CandidatesIn(dirs, desktops)) == Scan(fs, dataDirs, query, pending)
      {
        var file := dir + "/" + desktops[j] + DesktopListSuffix;
        assert pending[0] == file;
        if fs.Exists(file) {
          r := CheckMimeappsList(fs, file, dataDirs, query);
          if r != Failed {
            return;
          }
        }
        assert DesktopCandidates(dir, desktops)[j..][1..] == DesktopCandidates(dir, desktops)[j + 1..];
        pending := pending[1..];
        j := j + 1;
      }
      var file := dir + "/" + GenericList;
      assert pending[0] == file;
      if fs.Exists(file) {
        r := CheckMimeappsList(fs, file, dataDirs, query);
        if r != Failed {
          return;
        }
      }
      pending := pending[1..];
      i := i + 1;
    }
    return Failed;
  }

  /** utilities.rs:10-117. */
  method QueryDefaultApp(fs: FileSystem, env: Env, query: string) returns (r: Outcome)
    ensures r == DefaultApp(fs, env, query)
  {
    var vars := ResolveEnvironment(env);
    var desktops := DesktopList(vars);
    if desktops == [] {
      return Failed;
    }
    var tierA := PresentDirs(vars, TierAKeys);
    var dataDirs := PresentDirs(vars, DataKeys);
    ScanAppend(fs, dataDirs, query, CandidatesIn(tierA, desktops), CandidatesIn(ApplicationsDirs(dataDirs), desktops));
    r := SearchTier(fs, dataDirs, query, tierA, desktops);
    if r == Failed {
      var appDirs := ApplicationsDirs(dataDirs);
      r := SearchTier(fs, dataDirs, query, appDirs, desktops);
    }
  }

  /** Scanning two lists is scanning the first, then, when it ends in
      `Err(())`, the second. */
  lemma {:induction false} ScanAppend(fs: FileSystem, dataDirs: seq<Path>, query: string, a: seq<Path>, b: seq<Path>)
    ensures Scan(fs, dataDirs, query, a + b) ==
      if Scan(fs, dataDirs, query, a) == Failed then Scan(fs, dataDirs, query, b) else Scan(fs, dataDirs, query, a)
    decreases |a|
  {
    if a == [] {
      assert a + b == b;
    } else {
      assert (a + b)[0] == a[0] && (a + b)[1..] == a[1..] + b;
      ScanAppend(fs, dataDirs, query, a[1..], b);
    }
  }

  /** The scan gives the outcome of the first decisive candidate, and
      `Err(())` when no candidate is decisive. */
  lemma ScanFirstDecisive(fs: FileSystem, dataDirs: seq<Path>, query: string, files: seq<Path>, i: nat)
    requires i <= |files|
    requires forall j :: 0 <= j < i ==> !Decisive(fs, dataDirs, query, files[j])
    ensures i < |files| && Decisive(fs, dataDirs, query, files[i]) ==>
      Scan(fs, dataDirs, query, files) == ListOutcome(fs, dataDirs, files[i], query)
    ensures i == |files| ==> Scan(fs, dataDirs, query, files) == Failed
  {
    ScanSkip(fs, dataDirs, query, files, i);
    if i < |files| {
      assert files[i..][0] == files[i];
      ScanStep(fs, dataDirs, query, files[i..]);
    } else {
      assert files[i..] == [];
    }
  }

  /** Candidates that are not decisive are passed over. */
  lemma {:induction false} ScanSkip(fs: FileSystem, dataDirs: seq<Path>, query: string, files: seq<Path>, i: nat)
    requires i <= |files|
    requires forall j :: 0 <= j < i ==> !Decisive(fs, dataDirs, query, files[j])
    ensures Scan(fs, dataDirs, query, files) == Scan(fs, dataDirs, query, files[i..])
    decreases i
  {
    if i > 0 {
      assert !Decisive(fs, dataDirs, query, files[0]);
      ScanStep(fs, dataDirs, query, files);
      assert forall j :: 0 <= j < i - 1 ==> files[1..][j] == files[j + 1];
      ScanSkip(fs, dataDirs, query, files[1..], i - 1);
      assert files[1..][i - 1..] == files[i..];
    } else {
      assert files[i..] == files;
    }
  }

  lemma ScanStep(fs: FileSystem, dataDirs: seq<Path>, query: string, files: seq<Path>)
    requires files != []
    ensures Scan(fs, dataDirs, query, files) ==
      if Decisive(fs, dataDirs, query, files[0]) then ListOutcome(fs, dataDirs, files[0], query) else Scan(fs, dataDirs, query, files[1..])
  {
  }

  /** The identifiers give the outcome of the first one that resolves. */
  lemma ResolveFirst(fs: FileSystem, dataDirs: seq<Path>, ids: seq<string>, i: nat)
    requires i <= |ids|
    requires forall j :: 0 <= j < i ==> !Resolves(fs, dataDirs, ids[j])
    ensures i < |ids| && Resolves(fs, dataDirs, ids[i]) ==>
      ResolveIdentifiers(fs, dataDirs, ids) == BinaryIn(fs, dataDirs, ids[i])
    ensures i == |ids| ==> ResolveIdentifiers(fs, dataDirs, ids) == Failed
  {
    ResolveSkip(fs, dataDirs, ids, i);
    if i < |ids| {
      ResolveStep(fs, dataDirs, ids, i);
    } else {
      assert ids[i..] == [];
    }
  }

  /** Identifiers that do not resolve are passed over. */
  lemma {:induction false} ResolveSkip(fs: FileSystem, dataDirs: seq<Path>, ids: seq<string>, i: nat)
    requires i <= |ids|
    requires forall j :: 0 <= j < i ==> !Resolves(fs, dataDirs, ids[j])
    ensures ResolveIdentifiers(fs, dataDirs, ids) == ResolveIdentifiers(fs, dataDirs, ids[i..])
    decreases i
  {
    if i > 0 {
      assert !Resolves(fs, dataDirs, ids[0]);
      assert ResolveIdentifiers(fs, dataDirs, ids) == ResolveIdentifiers(fs, dataDirs, ids[1..]);
      assert forall j :: 0 <= j < i - 1 ==> ids[1..][j] == ids[j + 1];
      ResolveSkip(fs, dataDirs, ids[1..], i - 1);
      assert ids[1..][i - 1..] == ids[i..];
    } else {
      assert ids[i..] == ids;
    }
  }

  /** The binary of an identifier is given by the first data directory
      that says anything about it. */
  lemma BinaryFirstDir(fs: FileSystem, dirs: seq<Path>, name: string, i: nat)
    requires i <= |dirs|
    requires forall j :: 0 <= j < i ==> DirBinary(fs, dirs[j], name).None?
    ensures i < |dirs| && DirBinary(fs, dirs[i], name).Some? ==>
      BinaryIn(fs, dirs, name) == DirBinary(fs, dirs[i], name).value
    ensures i == |dirs| ==> BinaryIn(fs, dirs, name) == Failed
  {
    BinarySkip(fs, dirs, name, i);
    if i < |dirs| {
      BinaryStep(fs, dirs, name, i);
    } else {
      assert dirs[i..] == [];
    }
  }

  /** Directories that say nothing are passed over. */
  lemma {:induction false} BinarySkip(fs: FileSystem, dirs: seq<Path>, name: string, i: nat)
    requires i <= |dirs|
    requires forall j :: 0 <= j < i ==> DirBinary(fs, dirs[j], name).None?
    ensures BinaryIn(fs, dirs, name) == BinaryIn(fs, dirs[i..], name)
    decreases i
  {
    if i > 0 {
      assert DirBinary(fs, dirs[0], name).None?;
      assert BinaryIn(fs, dirs, name) == BinaryIn(fs, dirs[1..], name);
      assert forall j :: 0 <= j < i - 1 ==> dirs[1..][j] == dirs[j + 1];
      BinarySkip(fs, dirs[1..], name, i - 1);
      assert dirs[1..][i - 1..] == dirs[i..];
    } else {
      assert dirs[i..] == dirs;
    }
  }

  lemma BinaryStep(fs: FileSystem, dirs: seq<Path>, name: string, i: nat)
    requires i < |dirs|
    ensures BinaryIn(fs, dirs[i..], name) ==
      match DirBinary(fs, dirs[i], name)
      case Some(o) => o
      case None => BinaryIn(fs, dirs[i + 1..], name)
  {
    assert dirs[i..][0] == dirs[i];
    assert dirs[i..][1..] == dirs[i + 1..];
  }

  /** Without `XDG_CURRENT_DESKTOP` no file is probed and the lookup fails,
      whatever the filesystem holds. */
  lemma NoDesktopNoSearch(fs: FileSystem, env: Env, query: string)
    requires CurrentDesktop !in env
    ensures SearchOrder(ResolvedEnvironment(env)) == []
    ensures DefaultApp(fs, env, query) == Failed
  {
    ResolvedEnvironmentFacts(env);
  }

  /** With a desktop named, the search order has the shape of lib.rs's, over
      the directories of the set variables only; when all four directory
      variables are set too, it is exactly lib.rs's. */
  lemma SearchOrderWithDesktop(vars: Env)
    requires CurrentDesktop in vars
    ensures SearchOrder(vars) ==
      MimeappsCandidates(PresentDirs(vars, TierAKeys), PresentDirs(vars, DataKeys), DesktopList(vars))
    ensures ConfigHome in vars && ConfigDirs in vars && DataHome in vars && DataDirs in vars ==>
      SearchOrder(vars) == Lib.SearchOrder(vars)
  {
    if ConfigHome in vars && ConfigDirs in vars && DataHome in vars && DataDirs in vars {
      AllSetDirsAgree(vars, TierAKeys);
      AllSetDirsAgree(vars, DataKeys);
    }
  }

  /** One data directory says the same in both files, except that where
      lib.rs returns an error or an `Exec` line without `=`, utilities.rs panics. */
  lemma DirBinaryAgainstLib(fs: FileSystem, dir: Path, name: string)
    ensures DirBinary(fs, dir, name) ==
      match Lib.DirBinary(fs, dir, name)
      case Err(_) => Some(Panicked)
      case Ok(None) => None
      case Ok(Some(None)) => Some(Panicked)
      case Ok(Some(Some(b))) => Some(Found(b))
  {
  }

  /** The two files part ways on a candidate that exists but cannot be read
      or whose entry has no `=`: lib.rs stops there (with an error, or skips
      the malformed entry), utilities.rs skips the unreadable file and
      panics on the malformed entry. */
  lemma CandidateAgainstLib(fs: FileSystem, dataDirs: seq<Path>, query: string, file: Path)
    requires fs.Exists(file)
    ensures fs.Read(file).Unreadable? ==>
      Lib.Decisive(fs, dataDirs, query, file) && !Decisive(fs, dataDirs, query, file)
    ensures fs.Read(file).Text? && EntryOf(fs.Read(file).text, query) == Malformed ==>
      !Lib.Decisive(fs, dataDirs, query, file) && ListOutcome(fs, dataDirs, file, query) == Panicked
  {
  }

  /** `check_mimeapps_list` with the line bound as utilities.rs:163-172
      computes it: the reversed slice panics like the `unwrap` of a missing
      `=`. Wherever the query's line is ended it returns what `ListOutcome`
      returns. */
  function ListOutcomeAsWritten(fs: FileSystem, dataDirs: seq<Path>, file: Path, query: string): (r: Outcome)
    ensures Lib.EndedIn(fs, query, file) ==> r == ListOutcome(fs, dataDirs, file, query)
  {
    match fs.Read(file)
    case Unreadable(_) => Failed
    case Text(t) =>
      if LineEnded(t, query) then AsWrittenAgreesOnEndedLines(t, query); ListEntryAsWritten(fs, dataDirs, t, query)
      else ListEntryAsWritten(fs, dataDirs, t, query)
  }

  function ListEntryAsWritten(fs: FileSystem, dataDirs: seq<Path>, text: string, query: string): Outcome {
    match EntryAsWritten(text, query)
    case None => Panicked
    case Some(NoEntry) => Failed
    case Some(Malformed) => Panicked
    case Some(Value(v)) => ResolveIdentifiers(fs, dataDirs, Identifiers(v))
  }

  /** The search over the candidates with that check. When every existing
      candidate's query line is ended it returns what `Scan` returns. */
  function ScanAsWritten(fs: FileSystem, dataDirs: seq<Path>, query: string, files: seq<Path>): (r: Outcome)
    ensures Lib.AllEnded(fs, query, files) ==> r == Scan(fs, dataDirs, query, files)
    decreases |files|
  {
    if files == [] then Failed
    else
      assert Lib.AllEnded(fs, query, files) ==> Lib.AllEnded(fs, query, files[1..]) by {
        assert forall j :: 0 <= j < |files| - 1 ==> files[1..][j] == files[j + 1];
      }
      if fs.Exists(files[0]) && ListOutcomeAsWritten(fs, dataDirs, files[0], query) != Failed
      then ListOutcomeAsWritten(fs, dataDirs, files[0], query)
      else ScanAsWritten(fs, dataDirs, query, files[1..])
  }

  /** `query_default_app` of utilities.rs with that scan. It returns what
      `DefaultApp` returns whenever every existing candidate's query line
      is ended. */
  function DefaultAppAsWritten(fs: FileSystem, env: Env, query: string): (r: Outcome)
    ensures var vars := ResolvedEnvironment(env);
      Lib.AllEnded(fs, query, SearchOrder(vars)) ==> r == DefaultApp(fs, env, query)
  {
    var vars := ResolvedEnvironment(env);
    ScanAsWritten(fs, PresentDirs(vars, DataKeys), query, SearchOrder(vars))
  }

  /** A candidate whose last line is `text/html=` and a value of 13 to 22
      characters, without a `'\n'`: as written, the bound falls short of the
      `=` and the `unwrap` panics; with the intended bound the value is
      resolved. */
  lemma CandidateAsWrittenPanics(fs: FileSystem, dataDirs: seq<Path>, file: Path, value: string)
    requires '\n' !in value && 13 <= |value| < 23
    requires fs.Read(file) == Text(Header + "\n" + "text/html=" + value)
    ensures ListOutcomeAsWritten(fs, dataDirs, file, "text/html") == Panicked
    ensures ListOutcome(fs, dataDirs, file, "text/html") == ResolveIdentifiers(fs, dataDirs, Identifiers(value))
  {
    UnendedLastLine(value);
  }
}
