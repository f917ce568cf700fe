/** The default-application lookup of lib.rs: every I/O error stops the
    search and is returned, an unset variable reads as an empty directory,
    and a search that finds nothing ends in a NotFound error. */
module Lib {

  import opened Wrappers
  import opened RustStr
  import opened Fs
  import opened XdgEnv
  import opened Candidates
  import opened MimeappsList
  import opened Descriptor

  /** What one data directory says about an identifier: `Ok(None)` to go on
      to the next directory, `Ok(Some(target))` to stop with the target of
      the descriptor's first `Exec` line (`None` when that line has no `=`). */
  function DirBinary(fs: FileSystem, dir: Path, name: string): (r: Result<Option<Option<Path>>>)
    ensures r.Err? ==> r.error.Io?
  {
    match Location(fs, dir, name)
    case Err(e) => Err(e)
    case Ok(None) => Ok(None)
    case Ok(Some(p)) =>
      match fs.Read(p)
      case Unreadable(f) => Err(Io(f))
      case Text(t) => Ok(ExecOf(t))
  }

  /** The binary of identifier `name`, directory by directory. */
  function BinaryIn(fs: FileSystem, dirs: seq<Path>, name: string): (r: Result<Option<Path>>)
    ensures r.Err? ==> r.error.Io?
    decreases |dirs|
  {
    if dirs == [] then Ok(None)
    else match DirBinary(fs, dirs[0], name)
      case Err(e) => Err(e)
      case Ok(Some(target)) => Ok(target)
      case Ok(None) => BinaryIn(fs, dirs[1..], name)
  }

  /** An identifier that ends the walk over an entry's identifiers: it is
      not blank, and its lookup gives a binary or an error. */
  predicate Resolves(fs: FileSystem, dataDirs: seq<Path>, name: string) {
    !IsBlank(name) && BinaryIn(fs, dataDirs, name) != Ok(None)
  }

  /** The identifiers of an entry, in order: the first one that resolves
      gives the outcome (blank ones and ones without a binary are skipped). */
  function ResolveIdentifiers(fs: FileSystem, dataDirs: seq<Path>, ids: seq<string>): (r: Result<Option<Path>>)
    ensures r.Err? ==> r.error.Io?
    decreases |ids|
  {
    if ids == [] then Ok(None)
    else if Resolves(fs, dataDirs, ids[0]) then BinaryIn(fs, dataDirs, ids[0])
    else ResolveIdentifiers(fs, dataDirs, ids[1..])
  }

  /** `check_mimeapps_list`: a read failure is an error; no entry and a
      malformed entry both mean nothing found in this file. */
  function ListOutcome(fs: FileSystem, dataDirs: seq<Path>, file: Path, query: string): (r: Result<Option<Path>>)
    ensures r.Err? ==> r.error.Io?
  {
    match fs.Read(file)
    case Unreadable(f) => Err(Io(f))
    case Text(t) =>
      match EntryOf(t, query)
      case NoEntry => Ok(None)
      case Malformed => Ok(None)
      case Value(v) => ResolveIdentifiers(fs, dataDirs, Identifiers(v))
  }

  /** A candidate that ends the search: it exists, and checking it gives a
      binary or an error. */
  predicate Decisive(fs: FileSystem, dataDirs: seq<Path>, query: string, file: Path) {
    fs.Exists(file) && ListOutcome(fs, dataDirs, file, query) != Ok(None)
  }

  /** The candidates in order: the first decisive one gives the outcome. */
  function Scan(fs: FileSystem, dataDirs: seq<Path>, query: string, files: seq<Path>): (r: Result<Option<Path>>)
    ensures r.Err? ==> r.error.Io?
    decreases |files|
  {
    if files == [] then Ok(None)
    else if Decisive(fs, dataDirs, query, files[0]) then ListOutcome(fs, dataDirs, files[0], query)
    else Scan(fs, dataDirs, query, files[1..])
  }

  /** Every candidate file, in the order the lookup probes them: since each
      of the six variables gives at least one directory, at least six
      directories' worth, even in an empty environment. */
  function SearchOrder(vars: Env): (r: seq<Path>)
    ensures |r| >= 6 * (|DesktopList(vars)| + 1)
  {
    var tierA := ChainedDirs(vars, TierAKeys);
    var tierB := ChainedDirs(vars, DataKeys);
    assert |TierAKeys| == 4 && |DataKeys| == 2;
    MulMono(6, |tierA| + |tierB|, |DesktopList(vars)| + 1);
    MimeappsCandidates(tierA, tierB, DesktopList(vars))
  }

  lemma MulMono(a: nat, b: nat, n: nat)
    requires a <= b
    ensures a * n <= b * n
  {
    assert b * n == a * n + (b - a) * n;
  }

  function NotFoundMessage(query: string): string {
    "No results for mime query: " + query
  }

  /** `query_default_app`: any failure is an I/O error or the NotFound
      error naming the query. */
  function DefaultApp(fs: FileSystem, env: Env, query: string): (r: Result<Path>)
    ensures r.Err? ==> r.error.Io? || r.error == NotFound(NotFoundMessage(query))
  {
    var vars := ResolvedEnvironment(env);
    match Scan(fs, ChainedDirs(vars, DataKeys), query, SearchOrder(vars))
    case Err(e) => Err(e)
    case Ok(None) => Err(NotFound(NotFoundMessage(query)))
    case Ok(Some(b)) => Ok(b)
  }

  /** The body of the loop over the data directories of lib.rs:249-315. */
  method DirectoryBinary(fs: FileSystem, dir: Path, name: string) returns (o: Result<Option<Option<Path>>>)
    ensures o == DirBinary(fs, dir, name)
  {
    var location := LocateDescriptor(fs, dir, name);
    if location.Err? {
      return Err(location.error);
    }
    if location.value.None? {
      return Ok(None);
    }
    var data := fs.Read(location.value.value);
    if data.Unreadable? {
      return Err(Io(data.failure));
    }
    var exec := ExecFromText(data.text);
    return Ok(exec);
  }

  /** The loop over the data directories of lib.rs:248-318. */
  method DesktopFileToBinary(fs: FileSystem, dataDirs: seq<Path>, name: string) returns (r: Result<Option<Path>>)
    ensures r == BinaryIn(fs, dataDirs, name)
  {
    var i := 0;
    while i < |dataDirs|
      invariant 0 <= i <= |dataDirs|
      invariant BinaryIn(fs, dataDirs, name) == BinaryIn(fs, dataDirs[i..], name)
    {
      BinaryStep(fs, dataDirs, name, i);
      var o := DirectoryBinary(fs, dataDirs[i], name);
      if o.Err? {
        return Err(o.error);
      }
      if o.value.Some? {
        return Ok(o.value.value);
      }
      i := i + 1;
    }
    return Ok(None);
  }

  /** lib.rs:190-240: bound the query's line, cut it at its `=`, and try the
      identifiers after it one by one. */
  method CheckMimeappsList(fs: FileSystem, file: Path, dataDirs: seq<Path>, query: string) returns (r: Result<Option<Path>>)
    ensures r == ListOutcome(fs, dataDirs, file, query)
  {
    var data := fs.Read(file);
    if data.Unreadable? {
      return Err(Io(data.failure));
    }
    var entry := ScanEntry(data.text, query);
    match entry
    case NoEntry => r := Ok(None);
    case Malformed => r := Ok(None);
    case Value(v) =>
      var ids := Split(v, ';');
      r := ResolveIdentifierList(fs, dataDirs, ids);
  }

  /** The `for v in ...split(';')` loop of lib.rs:228-236. */
  method ResolveIdentifierList(fs: FileSystem, dataDirs: seq<Path>, ids: seq<string>) returns (r: Result<Option<Path>>)
    ensures r == ResolveIdentifiers(fs, dataDirs, ids)
  {
    var i := 0;
    while i < |ids|
      invariant 0 <= i <= |ids|
      invariant ResolveIdentifiers(fs, dataDirs, ids) == ResolveIdentifiers(fs, dataDirs, ids[i..])
    {
      ResolveStep(fs, dataDirs, ids, i);
      if IsBlank(ids[i]) {
        i := i + 1;
        continue;
      }
      var b := DesktopFileToBinary(fs, dataDirs, ids[i]);
      if b.Err? {
        return b;
      }
      if b.value.Some? {
        return b;
      }
      i := i + 1;
    }
    return Ok(None);
  }

  lemma ResolveStep(fs: FileSystem, dataDirs: seq<Path>, ids: seq<string>, i: nat)
    requires i < |ids|
    ensures ResolveIdentifiers(fs, dataDirs, ids[i..]) ==
      if Resolves(fs, dataDirs, ids[i]) then BinaryIn(fs, dataDirs, ids[i]) else ResolveIdentifiers(fs, dataDirs, ids[i + 1..])
  {
    assert ids[i..][0] == ids[i];
    assert ids[i..][1..] == ids[i + 1..];
  }

  /** One tier of the search: for each directory, its desktop-specific files
      and then its generic file, stopping at the first decisive one. */
  method SearchTier(fs: FileSystem, dataDirs: seq<Path>, query: string, dirs: seq<Path>, desktops: seq<string>)
    returns (r: Result<Option<Path>>)
    ensures r == Scan(fs, dataDirs, query, CandidatesIn(dirs, desktops))
  {
    ghost var pending := CandidatesIn(dirs, desktops);
    var i := 0;
    while i < |dirs|
      invariant 0 <= i <= |dirs|
      invariant pending == CandidatesIn(dirs[i..], desktops)
      invariant Scan(fs, dataDirs, query, CandidatesIn(dirs, desktops)) == Scan(fs, dataDirs, query, pending)
    {
      assert dirs[i..][1..] == dirs[i + 1..];
      var dir := dirs[i];
      var j := 0;
      while j < |desktops|
        invariant 0 <= j <= |desktops|
        invariant pending == DesktopCandidates(dir, desktops)[j..] + [dir + "/" + GenericList] + CandidatesIn(dirs[i + 1..], desktops)
        invariant Scan(fs, dataDirs, query, CandidatesIn(dirs, desktops)) == Scan(fs, dataDirs, query, pending)
      {
        var file := dir + "/" + desktops[j] + DesktopListSuffix;
        assert pending[0] == file;
        if fs.Exists(file) {
          r := CheckMimeappsList(fs, file, dataDirs, query);
          if r != Ok(None) {
            return;
          }
        }
        assert DesktopCandidates(dir, desktops)[j..][1..] == DesktopCandidates(dir, desktops)[j + 1..];
        pending := pending[1..];
        j := j + 1;
      }
      var file := dir + "/" + GenericList;
      assert pending[0] == file;
      if fs.Exists(file) {
        r := CheckMimeappsList(fs, file, dataDirs, query);
        if r != Ok(None) {
          return;
        }
      }
      pending := pending[1..];
      i := i + 1;
    }
    return Ok(None);
  }

  /** lib.rs:88-188: resolve the environment, search the first tier, then
      the second under `applications/`, and fail with NotFound. */
  method QueryDefaultApp(fs: FileSystem, env: Env, query: string) returns (r: Result<Path>)
    ensures r == DefaultApp(fs, env, query)
  {
    var vars := ResolveEnvironment(env);
    var desktops := DesktopList(vars);
    var tierA := ChainedDirs(vars, TierAKeys);
    var dataDirs := ChainedDirs(vars, DataKeys);
    ScanAppend(fs, dataDirs, query, CandidatesIn(tierA, desktops), CandidatesIn(ApplicationsDirs(dataDirs), desktops));
    var found := SearchTier(fs, dataDirs, query, tierA, desktops);
    if found == Ok(None) {
      var appDirs := ApplicationsDirs(dataDirs);
      found := SearchTier(fs, dataDirs, query, appDirs, desktops);
    }
    match found
    case Err(e) => r := Err(e);
    case Ok(None) => r := Err(NotFound(NotFoundMessage(query)));
    case Ok(Some(b)) => r := Ok(b);
  }

  /** Scanning two lists is scanning the first, then, when it ends without
      an outcome, the second. */
  lemma {:induction false} ScanAppend(fs: FileSystem, dataDirs: seq<Path>, query: string, a: seq<Path>, b: seq<Path>)
    ensures Scan(fs, dataDirs, query, a + b) ==
      if Scan(fs, dataDirs, query, a) == Ok(None) then Scan(fs, dataDirs, query, b) else Scan(fs, dataDirs, query, a)
    decreases |a|
  {
    if a == [] {
      assert a + b == b;
    } else {
      assert (a + b)[0] == a[0] && (a + b)[1..] == a[1..] + b;
      ScanAppend(fs, dataDirs, query, a[1..], b);
    }
  }

  /** The scan gives the outcome of the first decisive candidate, and
      nothing when no candidate is decisive. */
  lemma ScanFirstDecisive(fs: FileSystem, dataDirs: seq<Path>, query: string, files: seq<Path>, i: nat)
    requires i <= |files|
    requires forall j :: 0 <= j < i ==> !Decisive(fs, dataDirs, query, files[j])
    ensures i < |files| && Decisive(fs, dataDirs, query, files[i]) ==>
      Scan(fs, dataDirs, query, files) == ListOutcome(fs, dataDirs, files[i], query)
    ensures i == |files| ==> Scan(fs, dataDirs, query, files) == Ok(None)
  {
    ScanSkip(fs, dataDirs, query, files, i);
    if i < |files| {
      assert files[i..][0] == files[i];
      ScanStep(fs, dataDirs, query, files[i..]);
    } else {
      assert files[i..] == [];
    }
  }

  /** Candidates that are not decisive are passed over. */
  lemma {:induction false} ScanSkip(fs: FileSystem, dataDirs: seq<Path>, query: string, files: seq<Path>, i: nat)
    requires i <= |files|
    requires forall j :: 0 <= j < i ==> !Decisive(fs, dataDirs, query, files[j])
    ensures Scan(fs, dataDirs, query, files) == Scan(fs, dataDirs, query, files[i..])
    decreases i
  {
    if i > 0 {
      ScanSkip(fs, dataDirs, query, files, i - 1);
      assert !Decisive(fs, dataDirs, query, files[i - 1]);
      assert files[i - 1..][0] == files[i - 1];
      assert files[i - 1..][1..] == files[i..];
      ScanStep(fs, dataDirs, query, files[i - 1..]);
    }
  }

  lemma ScanStep(fs: FileSystem, dataDirs: seq<Path>, query: string, files: seq<Path>)
    requires files != []
    ensures Scan(fs, dataDirs, query, files) ==
      if Decisive(fs, dataDirs, query, files[0]) then ListOutcome(fs, dataDirs, files[0], query) else Scan(fs, dataDirs, query, files[1..])
  {
  }

  /** The scan gives nothing exactly when no candidate is decisive. */
  lemma {:induction false} ScanNothingIff(fs: FileSystem, dataDirs: seq<Path>, query: string, files: seq<Path>)
    ensures Scan(fs, dataDirs, query, files) == Ok(None) <==>
      forall j :: 0 <= j < |files| ==> !Decisive(fs, dataDirs, query, files[j])
    decreases |files|
  {
    if files != [] {
      ScanNothingIff(fs, dataDirs, query, files[1..]);
      assert forall j :: 1 <= j < |files| ==> files[j] == files[1..][j - 1];
    }
  }

  /** The lookup fails with NotFound, and its message, exactly when no
      candidate file is decisive. */
  lemma NotFoundIff(fs: FileSystem, env: Env, query: string)
    ensures var vars := ResolvedEnvironment(env);
      var dataDirs := ChainedDirs(vars, DataKeys);
      var files := SearchOrder(vars);
      DefaultApp(fs, env, query) == Err(NotFound(NotFoundMessage(query))) <==>
        forall j :: 0 <= j < |files| ==> !Decisive(fs, dataDirs, query, files[j])
  {
    var vars := ResolvedEnvironment(env);
    ScanNothingIff(fs, ChainedDirs(vars, DataKeys), query, SearchOrder(vars));
  }

  /** The lookup returns the binary of the first decisive candidate. */
  lemma DefaultAppFirstDecisive(fs: FileSystem, env: Env, query: string, i: nat)
    requires var vars := ResolvedEnvironment(env);
      var dataDirs := ChainedDirs(vars, DataKeys);
      i < |SearchOrder(vars)| && Decisive(fs, dataDirs, query, SearchOrder(vars)[i])
      && forall j :: 0 <= j < i ==> !Decisive(fs, dataDirs, query, SearchOrder(vars)[j])
    ensures var vars := ResolvedEnvironment(env);
      var o := ListOutcome(fs, ChainedDirs(vars, DataKeys), SearchOrder(vars)[i], query);
      DefaultApp(fs, env, query) == if o.Ok? then Ok(o.value.value) else Err(o.error)
  {
    var vars := ResolvedEnvironment(env);
    ScanFirstDecisive(fs, ChainedDirs(vars, DataKeys), query, SearchOrder(vars), i);
  }

  /** The identifiers give the outcome of the first one that resolves, and
      nothing when none does. */
  lemma ResolveFirst(fs: FileSystem, dataDirs: seq<Path>, ids: seq<string>, i: nat)
    requires i <= |ids|
    requires forall j :: 0 <= j < i ==> !Resolves(fs, dataDirs, ids[j])
    ensures i < |ids| && Resolves(fs, dataDirs, ids[i]) ==>
      ResolveIdentifiers(fs, dataDirs, ids) == BinaryIn(fs, dataDirs, ids[i])
    ensures i == |ids| ==> ResolveIdentifiers(fs, dataDirs, ids) == Ok(None)
  {
    ResolveSkip(fs, dataDirs, ids, i);
    if i < |ids| {
      ResolveStep(fs, dataDirs, ids, i);
    } else {
      assert ids[i..] == [];
    }
  }

  /** Identifiers that do not resolve are passed over. */
  lemma {:induction false} ResolveSkip(fs: FileSystem, dataDirs: seq<Path>, ids: seq<string>, i: nat)
    requires i <= |ids|
    requires forall j :: 0 <= j < i ==> !Resolves(fs, dataDirs, ids[j])
    ensures ResolveIdentifiers(fs, dataDirs, ids) == ResolveIdentifiers(fs, dataDirs, ids[i..])
    decreases i
  {
    if i > 0 {
      ResolveSkip(fs, dataDirs, ids, i - 1);
      assert !Resolves(fs, dataDirs, ids[i - 1]);
      ResolveStep(fs, dataDirs, ids, i - 1);
    }
  }

  /** The binary of an identifier is that of the first data directory that
      says anything about it. */
  lemma BinaryFirstDir(fs: FileSystem, dirs: seq<Path>, name: string, i: nat)
    requires i <= |dirs|
    requires forall j :: 0 <= j < i ==> DirBinary(fs, dirs[j], name) == Ok(None)
    ensures i < |dirs| && DirBinary(fs, dirs[i], name).Ok? && DirBinary(fs, dirs[i], name).value.Some? ==>
      BinaryIn(fs, dirs, name) == Ok(DirBinary(fs, dirs[i], name).value.value)
    ensures i < |dirs| && DirBinary(fs, dirs[i], name).Err? ==>
      BinaryIn(fs, dirs, name) == Err(DirBinary(fs, dirs[i], name).error)
    ensures i == |dirs| ==> BinaryIn(fs, dirs, name) == Ok(None)
  {
    BinarySkip(fs, dirs, name, i);
    if i < |dirs| {
      BinaryStep(fs, dirs, name, i);
    } else {
      assert dirs[i..] == [];
    }
  }

  /** Directories that say nothing are passed over. */
  lemma {:induction false} BinarySkip(fs: FileSystem, dirs: seq<Path>, name: string, i: nat)
    requires i <= |dirs|
    requires forall j :: 0 <= j < i ==> DirBinary(fs, dirs[j], name) == Ok(None)
    ensures BinaryIn(fs, dirs, name) == BinaryIn(fs, dirs[i..], name)
    decreases i
  {
    if i > 0 {
      BinarySkip(fs, dirs, name, i - 1);
      BinaryStep(fs, dirs, name, i - 1);
    }
  }

  lemma BinaryStep(fs: FileSystem, dirs: seq<Path>, name: string, i: nat)
    requires i < |dirs|
    ensures BinaryIn(fs, dirs[i..], name) ==
      match DirBinary(fs, dirs[i], name)
      case Err(e) => Err(e)
      case Ok(Some(target)) => Ok(target)
      case Ok(None) => BinaryIn(fs, dirs[i + 1..], name)
  {
    assert dirs[i..][0] == dirs[i];
    assert dirs[i..][1..] == dirs[i + 1..];
  }

  /** An unset variable still costs a directory: with `XDG_DATA_HOME`
      unset, the first data directory is the empty one. */
  lemma UnsetDataHomeIsEmptyDir(vars: Env)
    requires DataHome !in vars
    ensures ChainedDirs(vars, DataKeys)[0] == ""
  {
    VariableDirs(vars, [], DataHome, [DataDirs]);
    assert [] + [DataHome] + [DataDirs] == DataKeys;
  }

  /** So, with no desktop named either, the first file of the second tier
      is `/applications/mimeapps.list`, at the root of the filesystem. */
  lemma UnsetDataHomeProbesRoot(vars: Env)
    requires DataHome !in vars && CurrentDesktop !in vars
    ensures SearchOrder(vars)[|CandidatesIn(ChainedDirs(vars, TierAKeys), [])|] == "/applications/mimeapps.list"
  {
    UnsetDataHomeIsEmptyDir(vars);
    var dataDirs := ChainedDirs(vars, DataKeys);
    SecondTierStart(ChainedDirs(vars, TierAKeys), dataDirs, []);
    assert DirCandidates(dataDirs[0] + "/applications", [])[0] == "" + "/applications" + "/" + GenericList;
  }

  /** Both hold of the resolved environment when neither `HOME` nor
      `XDG_DATA_HOME` nor `XDG_CURRENT_DESKTOP` is set. */
  lemma UnsetInResolved(env: Env)
    requires Home !in env && DataHome !in env && CurrentDesktop !in env
    ensures DataHome !in ResolvedEnvironment(env) && CurrentDesktop !in ResolvedEnvironment(env)
  {
    ResolvedEnvironmentFacts(env);
  }

  /** A candidate that, when it can be read, has a `'\n'` after the first
      occurrence of the query. */
  predicate EndedIn(fs: FileSystem, query: string, file: Path) {
    fs.Read(file).Text? ==> LineEnded(fs.Read(file).text, query)
  }

  /** Every existing candidate of `files` is such a file. */
  predicate AllEnded(fs: FileSystem, query: string, files: seq<Path>) {
    forall j :: 0 <= j < |files| && fs.Exists(files[j]) ==> EndedIn(fs, query, files[j])
  }

  /** `check_mimeapps_list` with the line bound as lib.rs:209-216 computes
      it: `None` where the slice panics, which needs a query line with no
      `'\n'` after it. Wherever the query's line is ended it returns what
      `ListOutcome` returns. */
  function ListOutcomeAsWritten(fs: FileSystem, dataDirs: seq<Path>, file: Path, query: string)
    : (r: Option<Result<Option<Path>>>)
    ensures r.None? ==> !EndedIn(fs, query, file)
    ensures EndedIn(fs, query, file) ==> r == Some(ListOutcome(fs, dataDirs, file, query))
  {
    match fs.Read(file)
    case Unreadable(f) => Some(Err(Io(f)))
    case Text(t) =>
      if LineEnded(t, query) then AsWrittenAgreesOnEndedLines(t, query); ListEntryAsWritten(fs, dataDirs, t, query)
      else ListEntryAsWritten(fs, dataDirs, t, query)
  }

  function ListEntryAsWritten(fs: FileSystem, dataDirs: seq<Path>, text: string, query: string)
    : Option<Result<Option<Path>>>
  {
    match EntryAsWritten(text, query)
    case None => None
    case Some(NoEntry) => Some(Ok(None))
    case Some(Malformed) => Some(Ok(None))
    case Some(Value(v)) => Some(ResolveIdentifiers(fs, dataDirs, Identifiers(v)))
  }

  /** The search over the candidates with that check: `None` as soon as one
      of them panics. When every existing candidate's query line is ended
      it returns what `Scan` returns. */
  function ScanAsWritten(fs: FileSystem, dataDirs: seq<Path>, query: string, files: seq<Path>)
    : (r: Option<Result<Option<Path>>>)
    ensures AllEnded(fs, query, files) ==> r == Some(Scan(fs, dataDirs, query, files))
    decreases |files|
  {
    if files == [] then Some(Ok(None))
    else
      assert AllEnded(fs, query, files) ==> AllEnded(fs, query, files[1..]) by {
        assert forall j :: 0 <= j < |files| - 1 ==> files[1..][j] == files[j + 1];
      }
      var rest := ScanAsWritten(fs, dataDirs, query, files[1..]);
      if !fs.Exists(files[0]) then rest
      else match ListOutcomeAsWritten(fs, dataDirs, files[0], query)
        case None => None
        case Some(o) => if o == Ok(None) then rest else Some(o)
  }

  /** `query_default_app` with that scan: `None` when the lookup panics. It
      returns what `DefaultApp` returns whenever every existing candidate's
      query line is ended. */
  function DefaultAppAsWritten(fs: FileSystem, env: Env, query: string): (r: Option<Result<Path>>)
    ensures var vars := ResolvedEnvironment(env);
      AllEnded(fs, query, SearchOrder(vars)) ==> r == Some(DefaultApp(fs, env, query))
  {
    var vars := ResolvedEnvironment(env);
    match ScanAsWritten(fs, ChainedDirs(vars, DataKeys), query, SearchOrder(vars))
    case None => None
    case Some(Err(e)) => Some(Err(e))
    case Some(Ok(None)) => Some(Err(NotFound(NotFoundMessage(query))))
    case Some(Ok(Some(b))) => Some(Ok(b))
  }

  /** A candidate whose last line is `text/html=` and one identifier of
      fewer than 13 characters (`a.desktop`, say), without a `'\n'`: as
      written, checking it panics; with the intended bound it tries that
      identifier. */
  lemma CandidateAsWrittenPanics(fs: FileSystem, dataDirs: seq<Path>, file: Path, id: string)
    requires '\n' !in id && ';' !in id && |id| < 13
    requires fs.Read(file) == Text(Header + "\n" + "text/html=" + id)
    ensures ListOutcomeAsWritten(fs, dataDirs, file, "text/html") == None
    ensures ListOutcome(fs, dataDirs, file, "text/html") == ResolveIdentifiers(fs, dataDirs, [id])
  {
    UnendedLastLine(id);
    SingleIdentifier(id);
  }
}
