/**
 * `switchTo(variation)` (index.js:65-89) restricted to the files whose edits
 * are modelled: the target's Info.plist, the build configurations of the
 * Xcode project and `android/app/build.gradle`. The overlay copies, the
 * Android rename tool and `gradlew clean` are outside the model.
 */
module Switching {
  import opened Wrappers
  import opened Profiles
  import opened Signing
  import opened IosProject
  import Registry

  /** The modelled project files; `gradle` is `None` when the build script cannot be read. */
  datatype Project = Project(
    infoPlist: map<string, PlistValue>,
    buildConfigs: seq<map<string, string>>,
    gradle: Option<seq<string>>)

  /** Why `switch` stops before touching any project file. */
  datatype SwitchError =
    | RegistryMissing                    // apps.json cannot be read (index.js:33-35)
    | UnknownVariation(variation: string) // no profile with that name (index.js:69-71)

  /** The edits of `runiOS` (108-109, 125-126) and `androidSigning` (166-179)
      for profile `app`. */
  function ApplyProfile(app: Profile, p: Project): (q: Project)
    ensures SetsOnly(p.infoPlist, q.infoPlist, DisplayNameKey, PString(app.ios.displayName))
    ensures |q.buildConfigs| == |p.buildConfigs|
    ensures forall c | 0 <= c < |p.buildConfigs| ::
      SetsIdentity(p.buildConfigs[c], q.buildConfigs[c], app.ios.id, app.ios.xcodeTeam)
    ensures q.gradle == AndroidSigning(p.gradle, app.name).gradle
  {
    Project(
      SetDisplayName(p.infoPlist, app.ios.displayName),
      SetIosBuildSettings(p.buildConfigs, app.ios.id, app.ios.xcodeTeam),
      AndroidSigning(p.gradle, app.name).gradle)
  }

  /** `switchTo(variation)` on the modelled files. */
  function SwitchTo(registry: Option<seq<Profile>>, variation: string, p: Project)
    : (r: Result<Project, SwitchError>)
    ensures registry.None? ==> r == Err(RegistryMissing)
    ensures registry.Some? ==> (r.Ok? <==> HasName(registry.value, variation))
    ensures registry.Some? && !HasName(registry.value, variation) ==>
      r == Err(UnknownVariation(variation))
  {
    match registry
    case None => Err(RegistryMissing)
    case Some(apps) =>
      match Find(apps, variation)
      case None => Err(UnknownVariation(variation))
      case Some(app) => Ok(ApplyProfile(app, p))
  }

  // ---- properties -----------------------------------------------------------

  /** A successful switch leaves the project showing the FIRST profile of that name:
      its display name in Info.plist and its quoted bundle id and team in every build
      configuration. An unreadable build script stays unreadable; for a plain name a
      readable one keeps its line count, and for a name without `$` every signing line
      selects the variation. */
  lemma SwitchApplies(apps: seq<Profile>, variation: string, p: Project, i: nat)
    requires i < |apps| && apps[i].name == variation
    requires forall j | 0 <= j < i :: apps[j].name != variation
    ensures var r := SwitchTo(Some(apps), variation, p);
      && r.Ok?
      && SetsOnly(p.infoPlist, r.value.infoPlist, DisplayNameKey, PString(apps[i].ios.displayName))
      && (forall c | 0 <= c < |p.buildConfigs| ::
           SetsIdentity(p.buildConfigs[c], r.value.buildConfigs[c], apps[i].ios.id, apps[i].ios.xcodeTeam))
      && (p.gradle.None? ==> r.value.gradle.None?)
      && (p.gradle.Some? ==> r.value.gradle.Some?)
      && (p.gradle.Some? && PlainName(variation) ==> |r.value.gradle.value| == |p.gradle.value|)
      && (p.gradle.Some? && '$' !in variation ==>
           forall k | 0 <= k < |p.gradle.value| && Contains(p.gradle.value[k]) ::
             var line := r.value.gradle.value[k];
             |line| >= |Selector(variation)| &&
             line[|line| - |Selector(variation)|..] == Selector(variation))
  {
    FindIsFirst(apps, variation, i);
    var q := SwitchTo(Some(apps), variation, p).value;
    if p.gradle.Some? && '$' !in variation {
      forall k | 0 <= k < |p.gradle.value| && Contains(p.gradle.value[k])
        ensures var line := q.gradle.value[k];
          |line| >= |Selector(variation)| &&
          line[|line| - |Selector(variation)|..] == Selector(variation)
      {
        RewrittenLinesSelect(p.gradle.value, variation, k);
      }
    }
  }

  /** Applying a profile after another is the same as applying it alone, when the
      earlier name is plain and the later name does not quote the match. */
  lemma ApplyProfileOverrides(a: Profile, b: Profile, p: Project)
    requires PlainName(a.name) && !QuotesMatch(b.name)
    ensures ApplyProfile(b, ApplyProfile(a, p)) == ApplyProfile(b, p)
  {
    SetDisplayNameOverrides(p.infoPlist, a.ios.displayName, b.ios.displayName);
    SetIosBuildSettingsOverrides(p.buildConfigs, a.ios.id, a.ios.xcodeTeam, b.ios.id, b.ios.xcodeTeam);
    if p.gradle.Some? {
      RewriteLinesOverrides(p.gradle.value, a.name, b.name);
    }
  }

  /** On the modelled files, switching to `v` after any successful switch gives the
      same project as switching to `v` directly: a re-run converges. The earlier name
      `w` must be plain and `v` must not quote the match in the signing replacement. */
  lemma SwitchOverrides(registry: Option<seq<Profile>>, w: string, v: string, p: Project)
    requires SwitchTo(registry, w, p).Ok? && PlainName(w) && !QuotesMatch(v)
    ensures SwitchTo(registry, v, SwitchTo(registry, w, p).value) == SwitchTo(registry, v, p)
  {
    var a := Find(registry.value, w).value;
    if HasName(registry.value, v) {
      ApplyProfileOverrides(a, Find(registry.value, v).value, p);
    }
  }

  /** Running `switch V` twice leaves the modelled files as the first run did, when
      `V` is plain and does not quote the match in the signing replacement. */
  lemma SwitchIdempotent(registry: Option<seq<Profile>>, v: string, p: Project)
    requires SwitchTo(registry, v, p).Ok? && PlainName(v) && !QuotesMatch(v)
    ensures SwitchTo(registry, v, SwitchTo(registry, v, p).value) == SwitchTo(registry, v, p)
  {
    SwitchOverrides(registry, v, v, p);
  }

  /** After `add` made a variation's folder, `switch` to it finds a profile; when
      the name was new, the default profile named after it. */
  lemma SwitchAfterCreate(s: Registry.Store, defaults: Profile, v: string, p: Project)
    requires !Registry.PathExists(s, v) && !Registry.CreateFails(s, v)
    requires s.registry.None? || !HasName(s.registry.value, v)
    ensures SwitchTo(Registry.Create(s, defaults, v).registry, v, p)
            == Ok(ApplyProfile(Registry.Named(defaults, v), p))
  {
    Registry.CreateThenFind(s, defaults, v);
  }
}
