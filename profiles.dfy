/**
 * A variation profile as stored in `variations/apps.json`, and the lookup
 * `apps.find(app => app.name == variation)` used by `switch` (index.js:66-71).
 */
module Profiles {
  import opened Wrappers

  /** The `ios` block of a profile: the keys index.js reads (109, 125, 126). */
  datatype IosConfig = IosConfig(displayName: string, id: string, xcodeTeam: string)

  /** The `android` block of a profile: the keys index.js reads (182). */
  datatype AndroidConfig = AndroidConfig(displayName: string, id: string)

  /** One entry of the registry array. */
  datatype Profile = Profile(name: string, ios: IosConfig, android: AndroidConfig)

  /** `apps.some(app => app.name == variation)` (index.js:218): scans the entries in
      order and holds exactly when one of them carries the name. */
  predicate HasName(apps: seq<Profile>, variation: string)
    ensures HasName(apps, variation) <==> exists i | 0 <= i < |apps| :: apps[i].name == variation
  {
    if |apps| == 0 then false
    else apps[0].name == variation || HasName(apps[1..], variation)
  }

  /** No two entries of the registry share a name. */
  ghost predicate NamesUnique(apps: seq<Profile>)
  {
    forall i, j | 0 <= i < j < |apps| :: apps[i].name != apps[j].name
  }

  /** Position of the first entry named `variation`, scanning in array order. */
  function FindIndex(apps: seq<Profile>, variation: string): (r: Option<nat>)
    ensures r.Some? ==> r.value < |apps| && apps[r.value].name == variation
    ensures r.Some? ==> forall j | 0 <= j < r.value :: apps[j].name != variation
    ensures r.None? <==> !HasName(apps, variation)
  {
    if |apps| == 0 then None
    else if apps[0].name == variation then Some(0)
    else match FindIndex(apps[1..], variation)
      case None => None
      case Some(k) => Some(k + 1)
  }

  /** `apps.find(app => app.name == variation)`: the first profile with that name, if any. */
  function Find(apps: seq<Profile>, variation: string): (r: Option<Profile>)
    ensures r.Some? ==> r.value in apps && r.value.name == variation
    ensures r.None? <==> !HasName(apps, variation)
  {
    match FindIndex(apps, variation)
    case None => None
    case Some(i) => Some(apps[i])
  }

  /** Find returns exactly the first entry of the array whose name matches. */
  lemma FindIsFirst(apps: seq<Profile>, variation: string, i: nat)
    requires i < |apps| && apps[i].name == variation
    requires forall j | 0 <= j < i :: apps[j].name != variation
    ensures Find(apps, variation) == Some(apps[i])
  {
    var r := FindIndex(apps, variation);
    assert r.Some? by { assert HasName(apps, variation); }
    assert !(r.value < i);
    assert !(i < r.value);
  }

  /** In a registry whose names are unique, Find returns the one entry with that name. */
  lemma FindUnique(apps: seq<Profile>, variation: string, i: nat)
    requires NamesUnique(apps)
    requires i < |apps| && apps[i].name == variation
    ensures Find(apps, variation) == Some(apps[i])
  {
    forall j | 0 <= j < i ensures apps[j].name != variation {
      assert apps[j].name != apps[i].name;
    }
    FindIsFirst(apps, variation, i);
  }

  /** Appending never changes what an earlier-present name resolves to. */
  lemma {:induction false} FindAppend(apps: seq<Profile>, extra: seq<Profile>, variation: string)
    requires HasName(apps, variation)
    ensures Find(apps + extra, variation) == Find(apps, variation)
  {
    var i := FindIndex(apps, variation).value;
    assert (apps + extra)[i] == apps[i];
    forall j | 0 <= j < i ensures (apps + extra)[j].name != variation {
      assert (apps + extra)[j] == apps[j];
    }
    FindIsFirst(apps + extra, variation, i);
  }
}
