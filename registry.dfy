/**
 * The `add` command: `createVariation` (index.js:206-245) and the loop over
 * extra names in the `add` action (index.js:266-276).
 *
 * Paths are relative to `variations/`. The registry file `variations/apps.json`
 * is `None` while it does not exist and `Some(apps)` once it does; its JSON
 * text is not modelled. `fs.existsSync` sees files as well as folders, so the
 * name `apps.json` collides with the registry file.
 */
module Registry {
  import opened Wrappers
  import opened Profiles

  /** The sub-folder of a variation's iOS overlay that mirrors the app target. */
  const IosVariationTargetDir := "main_target"

  /** The registry file's name under `variations/`. */
  const ConfFile := "apps.json"

  /** The modelled part of the workspace: folders under `variations/` and the registry file. */
  datatype Store = Store(folders: set<string>, registry: Option<seq<Profile>>)

  /** What `createVariation` reports on the console. */
  datatype Report =
    | Created       // folder (and, if needed, registry entry) made
    | FolderOnly    // folder made; the name was already registered, a warning is printed
    | Skipped       // the path existed, nothing done
    | Failed        // folder made, then apps.json could not be read: the process exits

  /** `fs.existsSync('variations/' + path)`: a folder, or the registry file itself.
      Every folder exists; the registry file exists under its own name while it is
      there; any other path exists only as a folder. */
  predicate PathExists(s: Store, path: string)
    ensures path in s.folders ==> PathExists(s, path)
    ensures path == ConfFile && s.registry.Some? ==> PathExists(s, path)
    ensures path != ConfFile ==> (PathExists(s, path) <==> path in s.folders)
  {
    path in s.folders || (path == ConfFile && s.registry.Some?)
  }

  /** The folders the three recursive `mkdirSync` calls leave behind (index.js:211-213). */
  function Skeleton(variation: string): (r: set<string>)
    ensures variation in r
  {
    {variation, variation + "/android", variation + "/ios",
     variation + "/ios/" + IosVariationTargetDir, variation + "/src"}
  }

  /** A path that goes on with `/` after the variation is never `apps.json`. */
  lemma SlashPathIsNotRegistry(variation: string, suffix: string)
    requires |suffix| > 0 && suffix[0] == '/'
    ensures variation + suffix != ConfFile
  {
    if |variation + suffix| == |ConfFile| {
      assert (variation + suffix)[|variation|] == '/';
      assert forall k | 0 <= k < |ConfFile| :: ConfFile[k] != '/';
    }
  }

  /** Only the name `apps.json` itself makes a folder where the registry file lives. */
  lemma SkeletonMeetsRegistry(variation: string)
    ensures ConfFile in Skeleton(variation) <==> variation == ConfFile
  {
    SlashPathIsNotRegistry(variation, "/android");
    SlashPathIsNotRegistry(variation, "/ios");
    SlashPathIsNotRegistry(variation, "/ios/" + IosVariationTargetDir);
    assert variation + "/ios/" + IosVariationTargetDir == variation + ("/ios/" + IosVariationTargetDir);
    SlashPathIsNotRegistry(variation, "/src");
  }

  /** The default profile with its `name` overwritten (index.js:219-220, 232-233). */
  function Named(defaults: Profile, variation: string): (p: Profile)
    ensures p.name == variation && p.ios == defaults.ios && p.android == defaults.android
  {
    defaults.(name := variation)
  }

  /** The folder is made but `readJsonFile` finds a folder, not a file, at `apps.json`
      and exits (index.js:215-216, 33-35). */
  predicate CreateFails(s: Store, variation: string)
    ensures CreateFails(s, variation) <==>
      !PathExists(s, variation) && s.registry.None? && (ConfFile in s.folders || variation == ConfFile)
  {
    SkeletonMeetsRegistry(variation);
    !PathExists(s, variation) && s.registry.None? && ConfFile in s.folders + Skeleton(variation)
  }

  /** The whole effect of one `createVariation(variation)` on the store: folders are
      only added, the variation's path exists afterwards, and the registry only grows
      at its end. */
  function Create(s: Store, defaults: Profile, variation: string): (t: Store)
    ensures s.folders <= t.folders && PathExists(t, variation)
    ensures RegistryPrefix(s, t)
  {
    if PathExists(s, variation) then s
    else
      var folders := s.folders + Skeleton(variation);
      match s.registry
      case None =>
        if ConfFile in folders then Store(folders, None)
        else Store(folders, Some([Named(defaults, variation)]))
      case Some(apps) =>
        if HasName(apps, variation) then Store(folders, s.registry)
        else Store(folders, Some(apps + [Named(defaults, variation)]))
  }

  /** Where an `add` run ends: the store, and whether the process exited early. */
  datatype Run = Run(store: Store, exited: bool)

  /** `createVariation` applied to each name in order, until one of them exits.
      Folders are only added and the registry only grows at its end. */
  function AddAll(s: Store, defaults: Profile, names: seq<string>): (r: Run)
    ensures s.folders <= r.store.folders && RegistryPrefix(s, r.store)
  {
    if names == [] then Run(s, false)
    else
      var prev := AddAll(s, defaults, names[..|names| - 1]);
      if prev.exited then prev
      else
        var last := names[|names| - 1];
        Run(Create(prev.store, defaults, last), CreateFails(prev.store, last))
  }

  /** The registry, or the empty sequence while the file does not exist. */
  function Entries(s: Store): seq<Profile>
  {
    if s.registry.Some? then s.registry.value else []
  }

  /** The registry of `s` is an initial segment of the registry of `t`. */
  predicate RegistryPrefix(s: Store, t: Store)
  {
    s.registry.Some? ==> t.registry.Some? && s.registry.value <= t.registry.value
  }

  /** A file and a folder never share a path: no folder stands at `apps.json` while
      the registry file exists. */
  predicate Consistent(s: Store)
  {
    !(ConfFile in s.folders && s.registry.Some?)
  }

  ghost predicate UniqueRegistry(s: Store)
  {
    NamesUnique(Entries(s))
  }

  // ---- createVariation, case by case -------------------------------------

  /** An existing variation folder stops everything, even if apps.json lacks the name. */
  lemma CreateWithFolderChangesNothing(s: Store, defaults: Profile, variation: string)
    requires PathExists(s, variation)
    ensures Create(s, defaults, variation) == s
  {
  }

  /** The name `apps.json` meets the registry file: with a registry it is skipped,
      without one its folder is made and the run exits. */
  lemma CreateRegistryName(s: Store, defaults: Profile)
    ensures s.registry.Some? ==> Create(s, defaults, ConfFile) == s
    ensures s.registry.None? && ConfFile !in s.folders ==>
      CreateFails(s, ConfFile) &&
      Create(s, defaults, ConfFile) == Store(s.folders + Skeleton(ConfFile), None)
  {
  }

  /** Missing folder, existing registry without the name: the default profile is appended. */
  lemma CreateAppendsProfile(s: Store, defaults: Profile, variation: string)
    requires !PathExists(s, variation) && s.registry.Some? && !HasName(s.registry.value, variation)
    ensures var t := Create(s, defaults, variation);
      && t.folders == s.folders + Skeleton(variation)
      && t.registry.Some?
      && |t.registry.value| == |s.registry.value| + 1
      && t.registry.value[..|s.registry.value|] == s.registry.value
      && t.registry.value[|s.registry.value|] == Named(defaults, variation)
  {
  }

  /** Missing folder, name already registered: only the folders are made. */
  lemma CreateKeepsRegisteredName(s: Store, defaults: Profile, variation: string)
    requires !PathExists(s, variation) && s.registry.Some? && HasName(s.registry.value, variation)
    ensures Create(s, defaults, variation) == Store(s.folders + Skeleton(variation), s.registry)
  {
  }

  /** Missing folder and no registry file: a registry of exactly one default entry,
      unless a folder stands where the registry file would be. */
  lemma CreateStartsRegistry(s: Store, defaults: Profile, variation: string)
    requires !PathExists(s, variation) && s.registry.None?
    requires ConfFile !in s.folders && variation != ConfFile
    ensures Create(s, defaults, variation).registry == Some([Named(defaults, variation)])
  {
    SkeletonMeetsRegistry(variation);
  }

  // ---- what createVariation preserves -------------------------------------

  /** The folders change exactly when the variation's path did not exist. */
  lemma CreateGrows(s: Store, defaults: Profile, variation: string)
    ensures (Create(s, defaults, variation).folders == s.folders) <==> PathExists(s, variation)
  {
  }

  /** `createVariation` never puts a folder where the registry file is, nor a registry
      file where a folder is. */
  lemma CreateKeepsConsistent(s: Store, defaults: Profile, variation: string)
    requires Consistent(s)
    ensures Consistent(Create(s, defaults, variation))
  {
    SkeletonMeetsRegistry(variation);
  }

  /** Unique names stay unique. */
  lemma CreateKeepsNamesUnique(s: Store, defaults: Profile, variation: string)
    requires UniqueRegistry(s)
    ensures UniqueRegistry(Create(s, defaults, variation))
  {
    var t := Create(s, defaults, variation);
    if !PathExists(s, variation) && s.registry.Some? && !HasName(s.registry.value, variation) {
      var apps := s.registry.value;
      var apps' := t.registry.value;
      forall i, j | 0 <= i < j < |apps'| ensures apps'[i].name != apps'[j].name {
        if j == |apps| {
          assert apps'[i] == apps[i];
        } else {
          assert apps'[i] == apps[i] && apps'[j] == apps[j];
        }
      }
    }
  }

  /** After a `createVariation` that made the folder and went on, `switch` can find the
      variation: either the entry it appended or the one that was already there. */
  lemma CreateThenFind(s: Store, defaults: Profile, variation: string)
    requires !PathExists(s, variation) && !CreateFails(s, variation)
    ensures var t := Create(s, defaults, variation);
      && t.registry.Some?
      && Find(t.registry.value, variation)
         == if s.registry.Some? && HasName(s.registry.value, variation)
            then Find(s.registry.value, variation)
            else Some(Named(defaults, variation))
  {
    var t := Create(s, defaults, variation);
    match s.registry
    case None =>
      FindIsFirst(t.registry.value, variation, 0);
    case Some(apps) =>
      if !HasName(apps, variation) {
        FindIsFirst(t.registry.value, variation, |apps|);
      }
  }

  /** A second `add` of the same name changes nothing. */
  lemma CreateIdempotent(s: Store, defaults: Profile, variation: string)
    ensures Create(Create(s, defaults, variation), defaults, variation)
            == Create(s, defaults, variation)
  {
  }

  // ---- the add loop -------------------------------------------------------

  /** Once a run has exited, later names change nothing. */
  lemma {:induction false} AddAllStaysExited(s: Store, defaults: Profile, names: seq<string>, more: seq<string>)
    requires AddAll(s, defaults, names).exited
    ensures AddAll(s, defaults, names + more) == AddAll(s, defaults, names)
    decreases |more|
  {
    if more != [] {
      var init := more[..|more| - 1];
      AddAllStaysExited(s, defaults, names, init);
      assert (names + more)[..|names + more| - 1] == names + init;
      assert names + more != [];
      assert AddAll(s, defaults, names + init).exited;
    } else {
      assert names + more == names;
    }
  }

  /** After an `add` that did not exit, every named variation's path exists. */
  lemma {:induction false} AddAllMakesFolders(s: Store, defaults: Profile, names: seq<string>)
    ensures var r := AddAll(s, defaults, names);
      !r.exited ==> forall n | n in names :: PathExists(r.store, n)
  {
    if names != [] {
      var init := names[..|names| - 1];
      var mid := AddAll(s, defaults, init);
      AddAllMakesFolders(s, defaults, init);
      if !mid.exited {
        var t := Create(mid.store, defaults, names[|names| - 1]);
        forall n | n in init ensures PathExists(t, n) {
          assert n in mid.store.folders || (n == ConfFile && mid.store.registry.Some?);
        }
        assert names == init + [names[|names| - 1]];
      }
    }
  }

  /** An `add` run exits only while there is no registry file, and leaves none. */
  lemma {:induction false} AddAllExitLeavesNoRegistry(s: Store, defaults: Profile, names: seq<string>)
    ensures var r := AddAll(s, defaults, names);
      r.exited ==> s.registry.None? && r.store.registry.None? && ConfFile in r.store.folders
  {
    if names != [] {
      var init := names[..|names| - 1];
      AddAllExitLeavesNoRegistry(s, defaults, init);
      var mid := AddAll(s, defaults, init);
    }
  }

  /** An `add` run keeps files and folders apart. */
  lemma {:induction false} AddAllKeepsConsistent(s: Store, defaults: Profile, names: seq<string>)
    requires Consistent(s)
    ensures Consistent(AddAll(s, defaults, names).store)
  {
    if names != [] {
      var init := names[..|names| - 1];
      AddAllKeepsConsistent(s, defaults, init);
      if !AddAll(s, defaults, init).exited {
        CreateKeepsConsistent(AddAll(s, defaults, init).store, defaults, names[|names| - 1]);
      }
    }
  }

  /** `add` with any list of names keeps registry names unique. */
  lemma {:induction false} AddAllKeepsNamesUnique(s: Store, defaults: Profile, names: seq<string>)
    requires UniqueRegistry(s)
    ensures UniqueRegistry(AddAll(s, defaults, names).store)
  {
    if names != [] {
      var init := names[..|names| - 1];
      AddAllKeepsNamesUnique(s, defaults, init);
      if !AddAll(s, defaults, init).exited {
        CreateKeepsNamesUnique(AddAll(s, defaults, init).store, defaults, names[|names| - 1]);
      }
    }
  }

  /** Every entry of `t` past the registry of `s` is the default profile named after
      one of `names`. */
  ghost predicate AddsOnlyDefaults(s: Store, t: Store, defaults: Profile, names: seq<string>)
  {
    forall k | |Entries(s)| <= k < |Entries(t)| ::
      exists n | n in names :: Entries(t)[k] == Named(defaults, n)
  }

  /** Every entry `add` puts in the registry is the default profile named after one
      of the arguments. */
  lemma {:induction false} AddAllAddsDefaults(s: Store, defaults: Profile, names: seq<string>)
    ensures AddsOnlyDefaults(s, AddAll(s, defaults, names).store, defaults, names)
  {
    if names != [] {
      var init := names[..|names| - 1];
      var last := names[|names| - 1];
      var mid := AddAll(s, defaults, init);
      var t := AddAll(s, defaults, names).store;
      AddAllAddsDefaults(s, defaults, init);
      assert AddsOnlyDefaults(s, mid.store, defaults, init);
      forall k | |Entries(s)| <= k < |Entries(t)|
        ensures exists n | n in names :: Entries(t)[k] == Named(defaults, n)
      {
        if k < |Entries(mid.store)| {
          assert Entries(t)[k] == Entries(mid.store)[k];
          var n :| n in init && Entries(mid.store)[k] == Named(defaults, n);
          assert n in names;
        } else {
          assert !mid.exited;
          assert Entries(t)[k] == Named(defaults, last);
          assert last in names;
        }
      }
    }
  }

  /** The folders and the registry file of the working directory, as one `add`
      invocation reads and rewrites them. */
  class Workspace {
    var folders: set<string>
    var registry: Option<seq<Profile>>
    /** The profile exported by defaultConfig.js. */
    const defaultConfig: Profile

    function State(): Store
      reads this
    {
      Store(folders, registry)
    }

    constructor (folders0: set<string>, registry0: Option<seq<Profile>>, defaults: Profile)
      ensures State() == Store(folders0, registry0) && defaultConfig == defaults
    {
      folders := folders0;
      registry := registry0;
      defaultConfig := defaults;
    }

    /** `createVariation(variation)` (index.js:206-245). */
    method CreateVariation(variation: string) returns (report: Report)
      modifies this
      ensures State() == Create(old(State()), defaultConfig, variation)
      ensures report == Skipped <==> PathExists(old(State()), variation)
      ensures report == Failed <==> CreateFails(old(State()), variation)
      ensures report == FolderOnly <==>
        !PathExists(old(State()), variation) && old(registry).Some? && HasName(old(registry).value, variation)
    {
      if !PathExists(State(), variation) {
        folders := folders + Skeleton(variation);
        if registry.Some? {
          var apps := registry.value;
          if !HasName(apps, variation) {
            apps := apps + [Named(defaultConfig, variation)];
            registry := Some(apps);
            report := Created;
          } else {
            report := FolderOnly;
          }
        } else if ConfFile in folders {
          report := Failed;
        } else {
          registry := Some([Named(defaultConfig, variation)]);
          report := Created;
        }
      } else {
        report := Skipped;
      }
    }

    /** The `add <variation> [otherVariations...]` action (index.js:266-276);
        `exited` is set when `handleError` ends the process. */
    method Add(variation: string, otherVariations: seq<string>) returns (exited: bool)
      modifies this
      ensures Run(State(), exited) == AddAll(old(State()), defaultConfig, [variation] + otherVariations)
    {
      var report := CreateVariation(variation);
      exited := report == Failed;
      assert ([variation] + otherVariations)[..1] == [variation];
      var i := 0;
      while i < |otherVariations| && !exited
        invariant 0 <= i <= |otherVariations|
        invariant Run(State(), exited) == AddAll(old(State()), defaultConfig, [variation] + otherVariations[..i])
      {
        var names := [variation] + otherVariations[..i + 1];
        assert names[..|names| - 1] == [variation] + otherVariations[..i];
        report := CreateVariation(otherVariations[i]);
        exited := report == Failed;
        i := i + 1;
      }
      if exited {
        AddAllStaysExited(old(State()), defaultConfig, [variation] + otherVariations[..i], otherVariations[i..]);
        assert [variation] + otherVariations[..i] + otherVariations[i..] == [variation] + otherVariations;
      } else {
        assert otherVariations[..i] == otherVariations;
      }
    }
  }
}
