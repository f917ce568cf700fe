/** The candidate `mimeapps.list` paths of the "File name and location"
    section of the freedesktop mime-apps specification: for each directory,
    one desktop-specific file per desktop name, then the generic file. */
module Candidates {

  import opened Fs

  const GenericList := "mimeapps.list"
  const DesktopListSuffix := "-mimeapps.list"

  /** A path whose file name ends in `mimeapps.list`. */
  predicate IsListFile(p: Path) {
    |GenericList| <= |p| && p[|p| - |GenericList|..] == GenericList
  }

  lemma ListFileSuffix(p: Path, suffix: string)
    requires suffix == DesktopListSuffix || suffix == GenericList
    ensures IsListFile(p + suffix)
  {
    var q := p + suffix;
    assert q[|q| - |suffix|..] == suffix;
    assert DesktopListSuffix[1..] == GenericList;
    assert q[|q| - |GenericList|..] == suffix[|suffix| - |GenericList|..];
  }

  /** `{dir}/{desktop}-mimeapps.list` for each desktop, in order. */
  function DesktopCandidates(dir: Path, desktops: seq<string>): (r: seq<Path>)
    ensures |r| == |desktops|
  {
    seq(|desktops|, i requires 0 <= i < |desktops| => dir + "/" + desktops[i] + DesktopListSuffix)
  }

  /** The candidates of one directory: the desktop-specific ones, then `{dir}/mimeapps.list`. */
  function DirCandidates(dir: Path, desktops: seq<string>): (r: seq<Path>)
    ensures forall i :: 0 <= i < |r| ==> IsListFile(r[i])
  {
    var specific := DesktopCandidates(dir, desktops);
    forall i | 0 <= i < |specific| ensures IsListFile(specific[i]) {
      ListFileSuffix(dir + "/" + desktops[i], DesktopListSuffix);
    }
    ListFileSuffix(dir + "/", GenericList);
    specific + [dir + "/" + GenericList]
  }

  /** The candidates of a list of directories, directory by directory: each
      one names a `mimeapps.list` file. */
  function CandidatesIn(dirs: seq<Path>, desktops: seq<string>): (r: seq<Path>)
    ensures r == [] <==> dirs == []
    ensures forall i :: 0 <= i < |r| ==> IsListFile(r[i])
    decreases |dirs|
  {
    if dirs == [] then [] else DirCandidates(dirs[0], desktops) + CandidatesIn(dirs[1..], desktops)
  }

  /** `{dir}/applications` for each directory, in order. */
  function ApplicationsDirs(dirs: seq<Path>): (r: seq<Path>)
    ensures |r| == |dirs|
  {
    seq(|dirs|, i requires 0 <= i < |dirs| => dirs[i] + "/applications")
  }

  /** The whole search order: the first tier's directories, then the second
      tier's directories under `applications/`; one file per desktop and a
      generic one for every directory of either tier. */
  function MimeappsCandidates(tierA: seq<Path>, tierB: seq<Path>, desktops: seq<string>): (r: seq<Path>)
    ensures |r| == (|tierA| + |tierB|) * (|desktops| + 1)
    ensures forall i :: 0 <= i < |r| ==> IsListFile(r[i])
  {
    CandidatesInLength(tierA, desktops);
    CandidatesInLength(ApplicationsDirs(tierB), desktops);
    CandidatesIn(tierA, desktops) + CandidatesIn(ApplicationsDirs(tierB), desktops)
  }

  /** The second tier starts with the candidates of the first second-tier
      directory, under `applications/`. */
  lemma SecondTierStart(tierA: seq<Path>, tierB: seq<Path>, desktops: seq<string>)
    requires tierB != []
    ensures |CandidatesIn(tierA, desktops)| < |MimeappsCandidates(tierA, tierB, desktops)|
    ensures MimeappsCandidates(tierA, tierB, desktops)[|CandidatesIn(tierA, desktops)|] ==
      DirCandidates(tierB[0] + "/applications", desktops)[0]
  {
    var appDirs := ApplicationsDirs(tierB);
    assert appDirs[0] == tierB[0] + "/applications";
    var first := DirCandidates(appDirs[0], desktops);
    assert CandidatesIn(appDirs, desktops) == first + CandidatesIn(appDirs[1..], desktops);
    assert CandidatesIn(appDirs, desktops)[0] == first[0];
  }

  /** The candidates of two lists of directories are those of the first, then those of the second. */
  lemma {:induction false} CandidatesInAppend(a: seq<Path>, b: seq<Path>, desktops: seq<string>)
    ensures CandidatesIn(a + b, desktops) == CandidatesIn(a, desktops) + CandidatesIn(b, desktops)
    decreases |a|
  {
    if a == [] {
      assert a + b == b;
    } else {
      assert (a + b)[0] == a[0] && (a + b)[1..] == a[1..] + b;
      CandidatesInAppend(a[1..], b, desktops);
    }
  }

  /** Each directory contributes one candidate per desktop and the generic one. */
  lemma {:induction false} CandidatesInLength(dirs: seq<Path>, desktops: seq<string>)
    ensures |CandidatesIn(dirs, desktops)| == |dirs| * (|desktops| + 1)
    decreases |dirs|
  {
    if dirs != [] {
      CandidatesInLength(dirs[1..], desktops);
      MulStep(|dirs|, |desktops| + 1);
    }
  }

  lemma MulStep(i: nat, n: nat)
    requires i > 0
    ensures (i - 1) * n + n == i * n
  {
  }

  lemma MulBelow(i: nat, m: nat, n: nat)
    requires i < m
    ensures i * n + n <= m * n
    decreases m - i
  {
    MulStep(i + 1, n);
    if i + 1 < m {
      MulBelow(i + 1, m, n);
    }
  }

  lemma IndexInMiddle(a: seq<Path>, b: seq<Path>, c: seq<Path>, j: nat)
    requires j < |b|
    ensures (a + b + c)[|a| + j] == b[j]
  {
  }

  /** The candidates of directory `i` sit between those of the directories
      before it and those of the directories after it. */
  lemma CandidatesAround(dirs: seq<Path>, desktops: seq<string>, i: nat)
    requires i < |dirs|
    ensures CandidatesIn(dirs, desktops) ==
      CandidatesIn(dirs[..i], desktops) + DirCandidates(dirs[i], desktops) + CandidatesIn(dirs[i + 1..], desktops)
  {
    assert dirs == dirs[..i] + ([dirs[i]] + dirs[i + 1..]);
    CandidatesInAppend(dirs[..i], [dirs[i]] + dirs[i + 1..], desktops);
    CandidatesInAppend([dirs[i]], dirs[i + 1..], desktops);
    assert [dirs[i]][1..] == [];
    assert CandidatesIn([dirs[i]], desktops) == DirCandidates(dirs[i], desktops);
  }

  /** The `j`-th file of one directory. */
  lemma DirCandidateAt(dir: Path, desktops: seq<string>, j: nat)
    requires j <= |desktops|
    ensures |DirCandidates(dir, desktops)| == |desktops| + 1
    ensures DirCandidates(dir, desktops)[j] ==
      if j < |desktops| then dir + "/" + desktops[j] + DesktopListSuffix else dir + "/" + GenericList
  {
  }

  /** Candidate number `i * (n + 1) + j`, for `n` desktops, is the `j`-th
      file of the `i`-th directory: the desktop-specific file of desktop `j`
      when `j < n`, the generic file when `j == n`. */
  lemma CandidateAt(dirs: seq<Path>, desktops: seq<string>, i: nat, j: nat)
    requires i < |dirs| && j <= |desktops|
    ensures |CandidatesIn(dirs, desktops)| == |dirs| * (|desktops| + 1)
    ensures i * (|desktops| + 1) + j < |dirs| * (|desktops| + 1)
    ensures CandidatesIn(dirs, desktops)[i * (|desktops| + 1) + j] ==
      if j < |desktops| then dirs[i] + "/" + desktops[j] + DesktopListSuffix
      else dirs[i] + "/" + GenericList
  {
    CandidatesInLength(dirs, desktops);
    CandidatesInLength(dirs[..i], desktops);
    CandidatesAround(dirs, desktops, i);
    DirCandidateAt(dirs[i], desktops, j);
    var before := CandidatesIn(dirs[..i], desktops);
    var here := DirCandidates(dirs[i], desktops);
    var after := CandidatesIn(dirs[i + 1..], desktops);
    var k := i * (|desktops| + 1) + j;
    assert |dirs[..i]| == i;
    assert k == |before| + j;
    MulBelow(i, |dirs|, |desktops| + 1);
    IndexInMiddle(before, here, after, j);
    assert CandidatesIn(dirs, desktops)[k] == here[j];
  }
}
