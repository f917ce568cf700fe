/** The environment side of the lookup: which variables are kept, the
    defaults of the XDG Base Directory Specification ("Environment
    variables" section) that are filled in, the desktop list and the
    directory lists read from the `:`-separated variables. */
module XdgEnv {

  import opened RustStr

  type Env = map<string, string>

  const Home := "HOME"
  const DataHome := "XDG_DATA_HOME"
  const DataDirs := "XDG_DATA_DIRS"
  const ConfigHome := "XDG_CONFIG_HOME"
  const ConfigDirs := "XDG_CONFIG_DIRS"
  const CurrentDesktop := "XDG_CURRENT_DESKTOP"

  const DataHomeSuffix := "/.local/share"
  const ConfigHomeSuffix := "/.config"
  const DefaultDataDirs := "/usr/local/share:/usr/share"

  /** The variables whose directories the first search tier walks, in order. */
  const TierAKeys := [ConfigHome, ConfigDirs, DataHome, DataDirs]

  /** The variables whose directories hold `applications/` and `applnk/`, in order. */
  const DataKeys := [DataHome, DataDirs]

  /** The variable names the lookup copies out of the process environment. */
  predicate IsTracked(name: string) {
    StartsWith(name, "XDG_CONFIG") || StartsWith(name, "XDG_DATA")
    || StartsWith(name, CurrentDesktop) || name == Home
  }

  /** The map the lookup works from: the tracked variables of `raw`, then
      `XDG_DATA_HOME` and `XDG_CONFIG_HOME` derived from `HOME` and
      `XDG_DATA_DIRS` from its fixed default where they are missing. */
  function ResolvedEnvironment(raw: Env): (r: Env)
    ensures DataDirs in r
    ensures forall k :: k in raw && IsTracked(k) ==> k in r && r[k] == raw[k]
  {
    var kept := map k | k in raw && IsTracked(k) :: raw[k];
    var withData :=
      if Home in kept && DataHome !in kept then kept[DataHome := kept[Home] + DataHomeSuffix] else kept;
    var withConfig :=
      if Home in withData && ConfigHome !in withData then withData[ConfigHome := withData[Home] + ConfigHomeSuffix] else withData;
    if DataDirs !in withConfig then withConfig[DataDirs := DefaultDataDirs] else withConfig
  }

  /** Copies the tracked variables one by one, then inserts the defaults. */
  method ResolveEnvironment(raw: Env) returns (vars: Env)
    ensures vars == ResolvedEnvironment(raw)
  {
    vars := map[];
    var remaining := raw.Keys;
    while remaining != {}
      invariant remaining <= raw.Keys
      invariant forall k :: k in vars <==> k in raw && k !in remaining && IsTracked(k)
      invariant forall k :: k in vars ==> vars[k] == raw[k]
      decreases remaining
    {
      var k :| k in remaining;
      if IsTracked(k) {
        vars := vars[k := raw[k]];
      }
      remaining := remaining - {k};
    }
    assert vars == map k | k in raw && IsTracked(k) :: raw[k];
    if Home in vars && DataHome !in vars {
      var h := vars[Home];
      vars := vars[DataHome := h + DataHomeSuffix];
    }
    if Home in vars && ConfigHome !in vars {
      var h := vars[Home];
      vars := vars[ConfigHome := h + ConfigHomeSuffix];
    }
    if DataDirs !in vars {
      vars := vars[DataDirs := DefaultDataDirs];
    }
  }

  /** What the resolved map holds, key by key. */
  lemma ResolvedEnvironmentFacts(raw: Env)
    ensures var r := ResolvedEnvironment(raw);
      && (forall k :: k in r ==> IsTracked(k))
      && (forall k :: k in raw && IsTracked(k) ==> k in r && r[k] == raw[k])
      && (forall k :: k in r && k != DataHome && k != ConfigHome && k != DataDirs ==> k in raw)
      && (DataHome in r <==> DataHome in raw || Home in raw)
      && (Home in raw && DataHome !in raw ==> r[DataHome] == raw[Home] + DataHomeSuffix)
      && (ConfigHome in r <==> ConfigHome in raw || Home in raw)
      && (Home in raw && ConfigHome !in raw ==> r[ConfigHome] == raw[Home] + ConfigHomeSuffix)
      && DataDirs in r
      && (DataDirs !in raw ==> r[DataDirs] == DefaultDataDirs)
      && (ConfigDirs in r <==> ConfigDirs in raw)
      && (CurrentDesktop in r <==> CurrentDesktop in raw)
  {
    TrackedNames();
    ResolvedKeys(raw);
    ResolvedDefaults(raw);
  }

  /** The six variable names the lookup reads are all tracked. */
  lemma TrackedNames()
    ensures IsTracked(Home) && IsTracked(DataHome) && IsTracked(DataDirs)
    ensures IsTracked(ConfigHome) && IsTracked(ConfigDirs) && IsTracked(CurrentDesktop)
  {
    assert DataHome[..8] == "XDG_DATA";
    assert DataDirs[..8] == "XDG_DATA";
    assert ConfigHome[..10] == "XDG_CONFIG";
    assert ConfigDirs[..10] == "XDG_CONFIG";
  }

  /** Only tracked variables are kept, with their values; the others come from defaults. */
  lemma ResolvedKeys(raw: Env)
    ensures var r := ResolvedEnvironment(raw);
      && (forall k :: k in r ==> IsTracked(k))
      && (forall k :: k in raw && IsTracked(k) ==> k in r && r[k] == raw[k])
      && (forall k :: k in r && k != DataHome && k != ConfigHome && k != DataDirs ==> k in raw)
  {
    TrackedNames();
  }

  /** The three defaults, and when each is used. */
  lemma ResolvedDefaults(raw: Env)
    requires IsTracked(Home) && IsTracked(DataHome) && IsTracked(DataDirs) && IsTracked(ConfigHome)
    ensures var r := ResolvedEnvironment(raw);
      && (DataHome in r <==> DataHome in raw || Home in raw)
      && (Home in raw && DataHome !in raw ==> r[DataHome] == raw[Home] + DataHomeSuffix)
      && (ConfigHome in r <==> ConfigHome in raw || Home in raw)
      && (Home in raw && ConfigHome !in raw ==> r[ConfigHome] == raw[Home] + ConfigHomeSuffix)
      && DataDirs in r
      && (DataDirs !in raw ==> r[DataDirs] == DefaultDataDirs)
  {
  }

  /** The desktop names of `XDG_CURRENT_DESKTOP`, trimmed and split on `:`;
      empty when the variable is unset. */
  function DesktopList(vars: Env): (desktops: seq<string>)
    ensures desktops == [] <==> CurrentDesktop !in vars
  {
    if CurrentDesktop in vars then Split(Trim(vars[CurrentDesktop]), ':') else []
  }

  /** The directories one variable contributes to lib.rs's list: its value
      split on `:`, an unset variable reading as `""`. */
  function ChainedPieces(vars: Env, key: string): seq<string> {
    Split(if key in vars then vars[key] else "", ':')
  }

  /** The directories one variable contributes to utilities.rs's list: none
      when it is unset. */
  function PresentPieces(vars: Env, key: string): seq<string> {
    if key in vars then Split(vars[key], ':') else []
  }

  /** The directories of lib.rs's `split_and_chain!`, variables in order:
      every variable, set or not, contributes at least one. */
  function ChainedDirs(vars: Env, keys: seq<string>): (r: seq<string>)
    ensures |r| >= |keys|
    decreases |keys|
  {
    if keys == [] then [] else ChainedPieces(vars, keys[0]) + ChainedDirs(vars, keys[1..])
  }

  /** The directories of utilities.rs, variables in order: there are none
      exactly when none of the variables is set. */
  function PresentDirs(vars: Env, keys: seq<string>): (r: seq<string>)
    ensures r == [] <==> forall i :: 0 <= i < |keys| ==> keys[i] !in vars
    decreases |keys|
  {
    if keys == [] then []
    else
      assert forall i :: 1 <= i < |keys| ==> keys[i] == keys[1..][i - 1];
      PresentPieces(vars, keys[0]) + PresentDirs(vars, keys[1..])
  }

  /** Both directory lists take the variables one after the other. */
  lemma DirsAppend(vars: Env, a: seq<string>, b: seq<string>)
    ensures ChainedDirs(vars, a + b) == ChainedDirs(vars, a) + ChainedDirs(vars, b)
    ensures PresentDirs(vars, a + b) == PresentDirs(vars, a) + PresentDirs(vars, b)
  {
    ChainedAppend(vars, a, b);
    PresentAppend(vars, a, b);
  }

  lemma {:induction false} ChainedAppend(vars: Env, a: seq<string>, b: seq<string>)
    ensures ChainedDirs(vars, a + b) == ChainedDirs(vars, a) + ChainedDirs(vars, b)
    decreases |a|
  {
    if a == [] {
      assert a + b == b;
    } else {
      var ab := a + b;
      assert ab[0] == a[0] && ab[1..] == a[1..] + b;
      ChainedAppend(vars, a[1..], b);
      ConcatAssoc(ChainedPieces(vars, a[0]), ChainedDirs(vars, a[1..]), ChainedDirs(vars, b));
    }
  }

  lemma ConcatAssoc(h: seq<string>, x: seq<string>, y: seq<string>)
    ensures h + (x + y) == (h + x) + y
  {
  }

  lemma {:induction false} PresentAppend(vars: Env, a: seq<string>, b: seq<string>)
    ensures PresentDirs(vars, a + b) == PresentDirs(vars, a) + PresentDirs(vars, b)
    decreases |a|
  {
    if a == [] {
      assert a + b == b;
    } else {
      var ab := a + b;
      assert ab[0] == a[0] && ab[1..] == a[1..] + b;
      PresentAppend(vars, a[1..], b);
      ConcatAssoc(PresentPieces(vars, a[0]), PresentDirs(vars, a[1..]), PresentDirs(vars, b));
    }
  }

  /** When every variable is set, the two readings give the same directories. */
  lemma {:induction false} AllSetDirsAgree(vars: Env, keys: seq<string>)
    requires forall i :: 0 <= i < |keys| ==> keys[i] in vars
    ensures PresentDirs(vars, keys) == ChainedDirs(vars, keys)
    decreases |keys|
  {
    if keys != [] {
      assert keys[0] in vars;
      assert forall i :: 0 <= i < |keys[1..]| ==> keys[1..][i] == keys[i + 1];
      AllSetDirsAgree(vars, keys[1..]);
    }
  }

  /** An unset variable adds exactly one empty directory to lib.rs's list and
      nothing at all to utilities.rs's list; a set variable adds its pieces
      to both. */
  lemma VariableDirs(vars: Env, before: seq<string>, key: string, after: seq<string>)
    ensures ChainedDirs(vars, before + [key] + after) ==
      ChainedDirs(vars, before) + (if key in vars then Split(vars[key], ':') else [""]) + ChainedDirs(vars, after)
    ensures PresentDirs(vars, before + [key] + after) ==
      PresentDirs(vars, before) + (if key in vars then Split(vars[key], ':') else []) + PresentDirs(vars, after)
  {
    ChainedVariable(vars, before, key, after);
    PresentVariable(vars, before, key, after);
    OneVariableDirs(vars, key);
  }

  lemma ChainedVariable(vars: Env, before: seq<string>, key: string, after: seq<string>)
    ensures ChainedDirs(vars, before + [key] + after) ==
      ChainedDirs(vars, before) + ChainedDirs(vars, [key]) + ChainedDirs(vars, after)
  {
    ChainedAppend(vars, before + [key], after);
    ChainedAppend(vars, before, [key]);
  }

  lemma PresentVariable(vars: Env, before: seq<string>, key: string, after: seq<string>)
    ensures PresentDirs(vars, before + [key] + after) ==
      PresentDirs(vars, before) + PresentDirs(vars, [key]) + PresentDirs(vars, after)
  {
    PresentAppend(vars, before + [key], after);
    PresentAppend(vars, before, [key]);
  }

  lemma OneVariableDirs(vars: Env, key: string)
    ensures ChainedDirs(vars, [key]) == if key in vars then Split(vars[key], ':') else [""]
    ensures PresentDirs(vars, [key]) == if key in vars then Split(vars[key], ':') else []
  {
    assert [key][1..] == [];
    assert Split("", ':') == [""];
  }
}
