/**
 * The two project edits `runiOS` makes (index.js:91-134): the display name in
 * the target's Info.plist (108-109) and two Xcode build settings (125-126).
 * Parsing and printing of both files belong to the `plist` and `xcode`
 * libraries and are not modelled; the edits are made on their parsed form.
 */
module IosProject {

  /** A value of a property list. */
  datatype PlistValue =
    | PString(s: string)
    | PInteger(n: int)
    | PBool(b: bool)
    | PDate(iso: string)
    | PData(bytes: seq<bv8>)
    | PArray(items: seq<PlistValue>)
    | PDict(entries: map<string, PlistValue>)

  /** The key index.js sets in Info.plist. */
  const DisplayNameKey := "CFBundleDisplayName"
  const BundleIdSetting := "PRODUCT_BUNDLE_IDENTIFIER"
  const TeamSetting := "DEVELOPMENT_TEAM"

  /** `after` is `before` with `key` set to `value` and every other key kept. */
  ghost predicate SetsOnly<V>(before: map<string, V>, after: map<string, V>, key: string, value: V)
  {
    && after.Keys == before.Keys + {key}
    && after[key] == value
    && forall k | k in before && k != key :: after[k] == before[k]
  }

  /** `after` is `before` with both build settings written and every other setting kept. */
  ghost predicate SetsIdentity(before: map<string, string>, after: map<string, string>,
                               id: string, xcodeTeam: string)
  {
    && after.Keys == before.Keys + {BundleIdSetting, TeamSetting}
    && after[BundleIdSetting] == Quote(id)
    && after[TeamSetting] == Quote(xcodeTeam)
    && forall k | k in before && k != BundleIdSetting && k != TeamSetting :: after[k] == before[k]
  }

  /** `obj.CFBundleDisplayName = app.ios.displayName` on the parsed Info.plist. */
  function SetDisplayName(plist: map<string, PlistValue>, displayName: string): (r: map<string, PlistValue>)
    ensures SetsOnly(plist, r, DisplayNameKey, PString(displayName))
  {
    plist[DisplayNameKey := PString(displayName)]
  }

  /** `'"' + s + '"'`: the value is written between double quotes, unescaped. */
  function Quote(s: string): (r: string)
    ensures |r| == |s| + 2 && r[0] == '"' && r[|r| - 1] == '"' && r[1..|r| - 1] == s
  {
    "\"" + s + "\""
  }

  /** The build settings index.js writes, as (setting, value) pairs, in order. */
  function BuildSettingWrites(id: string, xcodeTeam: string): (w: seq<(string, string)>)
    ensures |w| == 2 && w[0].0 == BundleIdSetting && w[1].0 == TeamSetting
    ensures forall k | 0 <= k < 2 ::
      |w[k].1| >= 2 && w[k].1[0] == '"' && w[k].1[|w[k].1| - 1] == '"'
    ensures w[0].1[1..|w[0].1| - 1] == id && w[1].1[1..|w[1].1| - 1] == xcodeTeam
  {
    [(BundleIdSetting, Quote(id)), (TeamSetting, Quote(xcodeTeam))]
  }

  /** `project.updateBuildProperty(key, value)`: the setting is written into every
      build configuration the project lists, Debug and Release alike. */
  function UpdateBuildProperty(configs: seq<map<string, string>>, key: string, value: string)
    : (r: seq<map<string, string>>)
    ensures |r| == |configs|
    ensures forall c | 0 <= c < |configs| :: SetsOnly(configs[c], r[c], key, value)
  {
    if configs == [] then []
    else [configs[0][key := value]] + UpdateBuildProperty(configs[1..], key, value)
  }

  /** The writes applied one after another. */
  function ApplyWrites(configs: seq<map<string, string>>, writes: seq<(string, string)>)
    : seq<map<string, string>>
    decreases |writes|
  {
    if writes == [] then configs
    else ApplyWrites(UpdateBuildProperty(configs, writes[0].0, writes[0].1), writes[1..])
  }

  /** The build settings of every configuration after `runiOS`: both settings quoted,
      every other setting kept, no configuration added or dropped. */
  function SetIosBuildSettings(configs: seq<map<string, string>>, id: string, xcodeTeam: string)
    : (r: seq<map<string, string>>)
    ensures |r| == |configs|
    ensures forall c | 0 <= c < |configs| :: SetsIdentity(configs[c], r[c], id, xcodeTeam)
  {
    var w := BuildSettingWrites(id, xcodeTeam);
    var first := UpdateBuildProperty(configs, BundleIdSetting, Quote(id));
    var second := UpdateBuildProperty(first, TeamSetting, Quote(xcodeTeam));
    assert w[1..][1..] == [];
    assert ApplyWrites(configs, w) == ApplyWrites(first, w[1..]) == ApplyWrites(second, []);
    ApplyWrites(configs, w)
  }

  // ---- properties -----------------------------------------------------------

  /** A later display name replaces an earlier one; setting the same one twice
      changes nothing more. */
  lemma SetDisplayNameOverrides(plist: map<string, PlistValue>, a: string, b: string)
    ensures SetDisplayName(SetDisplayName(plist, a), b) == SetDisplayName(plist, b)
  {
  }

  /** Writing the settings twice leaves what the second write says. */
  lemma SetsIdentityOverrides(m: map<string, string>, once: map<string, string>,
                              twice: map<string, string>, direct: map<string, string>,
                              idA: string, teamA: string, idB: string, teamB: string)
    requires SetsIdentity(m, once, idA, teamA)
    requires SetsIdentity(once, twice, idB, teamB)
    requires SetsIdentity(m, direct, idB, teamB)
    ensures twice == direct
  {
    assert twice.Keys == direct.Keys;
    forall k | k in twice ensures twice[k] == direct[k] {
      if k != BundleIdSetting && k != TeamSetting {
        assert twice[k] == once[k] == m[k];
      }
    }
  }

  /** Writing the build settings for `b` after those for `a` is the same as writing
      them for `b` only. */
  lemma SetIosBuildSettingsOverrides(configs: seq<map<string, string>>,
                                     idA: string, teamA: string, idB: string, teamB: string)
    ensures SetIosBuildSettings(SetIosBuildSettings(configs, idA, teamA), idB, teamB)
         == SetIosBuildSettings(configs, idB, teamB)
  {
    var once := SetIosBuildSettings(configs, idA, teamA);
    var twice := SetIosBuildSettings(once, idB, teamB);
    var direct := SetIosBuildSettings(configs, idB, teamB);
    forall c | 0 <= c < |configs| ensures twice[c] == direct[c] {
      SetsIdentityOverrides(configs[c], once[c], twice[c], direct[c], idA, teamA, idB, teamB);
    }
  }
}
