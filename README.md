# react-native-variations, modelled in Dafny

`react-native-variations` keeps several white-label "variations" of one React
Native app in a single repository. `add <variation> [others...]` creates, for
each name, the overlay folders `variations/<name>/{android,ios/main_target,src}`
and a default profile in the registry `variations/apps.json`. `switch <variation>`
looks the profile up in that registry and rewrites the live project: the iOS
display name in the target's `Info.plist`, the `PRODUCT_BUNDLE_IDENTIFIER` and
`DEVELOPMENT_TEAM` build settings of the Xcode project, and the
`signingConfig signingConfigs.<name>` selector in `android/app/build.gradle`.
It also copies the overlays and runs the Android rename tool.

This project models the decision logic of `index.js`:

- `profiles.dfy` (module `Profiles`): the profile record and the registry lookup
  `apps.find(app => app.name == variation)`.
- `registry.dfy` (module `Registry`): the `createVariation` state machine over the
  variation folders and the registry file. It is a pure function `Create` on a `Store`,
  and a class `Workspace` whose methods `CreateVariation` and `Add` update the folders
  and the registry in place. `Add` loops over the extra names in argument order.
- `signing.dfy` (module `Signing`): the `gm` regular-expression replace on the
  Android build script, as a function over its lines.
- `ios.dfy` (module `IosProject`): the Info.plist edit and the two quoted build-setting writes.
- `switching.dfy` (module `Switching`): `switchTo` on those files. It aborts before any edit
  when the registry or the profile is missing. Re-running it converges when the
  variation names involved hold no line terminator and do not quote the match
  (`$&`, `` $` ``, `$'`) in the signing replacement.
- `wrappers.dfy`: `Option` and `Result`.

Facts of `index.js` that the model keeps:
- the Info.plist key written is `CFBundleDisplayName` (index.js:109);
- the profile fields read are `ios.id`, `ios.xcodeTeam`, `ios.displayName`, `android.id` and `android.displayName` (index.js:109, 125-126, 182);
- the signing pattern has no `^`, so a match anywhere in a line is rewritten from there to the end of the line (index.js:169);
- the replacement is a string template for `String.prototype.replace`, so `$$` and `$&` in a variation name are substituted (index.js:170);
- a build script with no matching line is left as it is without a warning; the warning is printed only when `replace-in-file` throws (index.js:173-178);
- the existence test of `add` also sees the registry file, so the name `apps.json` is skipped while the registry exists, and makes the run exit while it does not (index.js:210, 215-216, 33-35).

## Model

| member | source | states |
|---|---|---|
| Profiles.HasName | index.js:218 | scanning the entries in order, holds exactly when one of them carries the name |
| Profiles.FindIndex | index.js:67 | the index found holds the name and no earlier entry does; none is found exactly when no entry has the name |
| Profiles.Find | index.js:67 | the profile found is in the registry and carries the name; none is found exactly when no entry has it |
| Profiles.FindIsFirst | index.js:67 | the lookup returns the first entry in array order with the requested name |
| Profiles.FindUnique | index.js:67 | in a registry with unique names the lookup returns the one entry with that name |
| Profiles.FindAppend | index.js:67 | appending entries never changes what an already registered name resolves to |
| Registry.PathExists | index.js:210 | every folder exists, the registry file exists under the name `apps.json` while it is there, and any other path exists only as a folder |
| Registry.CreateFails | index.js:215-216 | the read of the registry fails exactly when the path was missing, there is no registry file, and a folder stands at `apps.json` or the name is `apps.json` |
| Registry.Skeleton | index.js:211-213 | the folders `mkdirSync` creates include the variation folder itself, the one later tested for existence |
| Registry.SkeletonMeetsRegistry | index.js:211-215 | the folders made for a name include `apps.json` exactly when the name is `apps.json` |
| Registry.Named | index.js:219-220 | the default profile with `name` set to the variation and its ios/android blocks kept |
| Registry.Create | index.js:206-245 | one `createVariation`: folders are only added, the variation's path exists afterwards, the old registry is a prefix of the new |
| Registry.AddAll | index.js:269-273 | `createVariation` on each name in order until one exits: folders are only added, the old registry is a prefix of the new |
| Registry.CreateWithFolderChangesNothing | index.js:210 | an existing path under `variations/` leaves folders and registry unchanged, even if the registry lacks the name |
| Registry.CreateRegistryName | index.js:210-216 | the name `apps.json` is skipped while the registry file exists; without it, its folders are made, no registry is written and the run exits |
| Registry.CreateAppendsProfile | index.js:215-226 | folder missing, registry present, name absent: folders gain the skeleton, the registry gets one default entry at the end, earlier entries unchanged |
| Registry.CreateKeepsRegisteredName | index.js:227-228 | folder missing and name already registered: only the folders change |
| Registry.CreateStartsRegistry | index.js:230-238 | no registry file and no folder in its place: the new registry holds exactly the default profile for the variation |
| Registry.CreateGrows | index.js:210-243 | the folders change exactly when the variation's path did not exist |
| Registry.CreateKeepsConsistent | index.js:210-238 | `createVariation` never leaves a folder and the registry file at the same path |
| Registry.CreateKeepsNamesUnique | index.js:218-221 | a registry with unique names keeps unique names |
| Registry.CreateThenFind | index.js:215-238 | after a create that made the folder and went on, the lookup finds the variation: the old entry if it existed, else the new default one |
| Registry.CreateIdempotent | index.js:210 | a second `add` of the same name changes nothing |
| Registry.AddAllStaysExited | index.js:33-35 | once the process has exited, later names change nothing |
| Registry.AddAllMakesFolders | index.js:269-273 | after an `add` that did not exit, every named variation's path exists |
| Registry.AddAllExitLeavesNoRegistry | index.js:215-216 | an `add` run exits only when there was no registry file, and leaves none |
| Registry.AddAllKeepsConsistent | index.js:269-273 | a whole `add` run never leaves a folder and the registry file at the same path |
| Registry.AddAllKeepsNamesUnique | index.js:269-273 | `add` with any list of names keeps registry names unique |
| Registry.AddAllAddsDefaults | index.js:269-273 | every entry `add` appends is the default profile named after one of its arguments |
| Registry.Workspace.CreateVariation | index.js:206-245 | the new folders and registry are those of `Create` on the old ones; the report is Skipped exactly when the path existed, Failed exactly when the registry read fails, FolderOnly exactly when the name was already registered |
| Registry.Workspace.Add | index.js:266-276 | the first name and then each extra name in argument order go through `createVariation`, stopping when the process exits |
| Signing.Selector | index.js:170 | the intended signing line starts with the pattern and has the pattern, a dot and the name in length |
| Signing.Expand | index.js:170 | the name part of the replacement after substitution; a name without `$` stands for itself |
| Signing.Replacement | index.js:170 | the replacement starts with the pattern and a dot; for a name without `$` it is `signingConfig signingConfigs.<name>` |
| Signing.ExpandIgnoresMatch | index.js:170 | a name that does not quote the match substitutes to the same text whatever was matched |
| Signing.FirstMatchFrom | index.js:169 | the leftmost occurrence of the pattern at or after a position, or none when the line holds none |
| Signing.FirstMatch | index.js:169 | a match is found exactly when the line contains the pattern, and it is the leftmost one |
| Signing.RewriteLine | index.js:169-170 | a line without the pattern is kept; otherwise the text before the leftmost match is kept and followed by the substituted replacement for that match |
| Signing.RewriteLines | index.js:167-171 | the line count is kept and each line is rewritten on its own |
| Signing.AndroidSigning | index.js:166-179 | a warning is printed exactly when the build script cannot be processed, and then it is unchanged; otherwise every line is rewritten |
| Signing.RewrittenLineShape | index.js:169-170 | for a name without `$`, a rewritten line ends with exactly `signingConfig signingConfigs.<name>` after a kept prefix that holds no match |
| Signing.RewriteKeepsFirstMatch | index.js:169-170 | any replacement starting with the pattern keeps the leftmost match where it was |
| Signing.RewriteLineOverrides | index.js:169-170 | rewriting for a plain name (no line terminator, no `` $` `` or `$'`) and then for a second that does not quote the match equals rewriting for the second alone |
| Signing.RewriteLinesOverrides | index.js:167-171 | the same for the whole build script |
| Signing.RewriteLinesIdempotent | index.js:169-170 | for a plain name that does not quote the match, rewriting twice equals rewriting once |
| Signing.NoMatchNoChange | index.js:173-178 | a script without a matching line is unchanged and no warning is issued |
| Signing.RewrittenLinesSelect | index.js:169-170 | for a name without `$`, after the rewrite every line that held the pattern selects that name |
| Signing.AmpersandNameGrows | index.js:170 | the name `$&` copies the old signing line into the new one, and a second switch makes the line longer again |
| Signing.Escape | index.js:170 | the escaped name never quotes the match |
| Signing.ExpandEscape | index.js:170 | substitution undoes escaping, whatever the match |
| Signing.RewriteLineEscaped | index.js:169-170 | with the name escaped, a matching line keeps its text before the first match and ends with `signingConfig signingConfigs.<name>` for every name |
| Signing.RewriteLineEscapedOverrides | index.js:169-170 | with the name escaped, a later switch overrides an earlier one for every earlier name without a line terminator |
| IosProject.SetDisplayName | index.js:108-109 | only `CFBundleDisplayName` is set, to the display name; every other key keeps its value |
| IosProject.Quote | index.js:125-126 | the value is the text between two double quotes |
| IosProject.BuildSettingWrites | index.js:125-126 | two writes: `PRODUCT_BUNDLE_IDENTIFIER` then `DEVELOPMENT_TEAM`, each a quote-wrapped id or team |
| IosProject.UpdateBuildProperty | index.js:125-126 | every configuration gets the setting, keeps its other settings, and none is added or dropped |
| IosProject.SetIosBuildSettings | index.js:125-126 | every configuration ends with both quoted settings and all its other settings unchanged |
| IosProject.SetDisplayNameOverrides | index.js:108-109 | a later display name replaces an earlier one |
| IosProject.SetsIdentityOverrides | index.js:125-126 | writing the two settings twice leaves what the second write says |
| IosProject.SetIosBuildSettingsOverrides | index.js:125-126 | writing one profile's settings after another's equals writing the later ones alone |
| Switching.ApplyProfile | index.js:80-84 | the project edits of `runiOS` and `androidSigning` for a profile: only the plist key, only the two build settings in every configuration, and the signing rewrite |
| Switching.SwitchTo | index.js:65-89 | a missing registry or an unknown name is an error before any edit; the switch succeeds exactly when the name is registered |
| Switching.SwitchApplies | index.js:66-84 | a successful switch shows the first profile of that name in Info.plist and in every configuration, keeps the build script's unreadability, keeps its line count for a plain name, and for a name without `$` every signing line selects the variation |
| Switching.ApplyProfileOverrides | index.js:80-84 | applying a profile after another equals applying it alone, when the earlier name is plain and the later name does not quote the match |
| Switching.SwitchOverrides | index.js:65-89 | switching to V after any successful switch gives the same modelled files as switching to V directly, when the earlier name is plain and V does not quote the match |
| Switching.SwitchIdempotent | index.js:65-89 | running `switch V` twice leaves the modelled files as one run did, when V is plain and does not quote the match |
| Switching.SwitchAfterCreate | index.js:67 | after `add` created a new name and went on, `switch` to it applies the default profile named after it |

## Left out

- File-system I/O (`readFileSync`, `writeFileSync`, `mkdirSync`, `existsSync`, `readdirSync`/`statSync`). The folders and files are parameters and fields.
- The directory discovery of `getPathToXcodeProject` and `getPathToTarget` (index.js:46-62). When nothing matches, the source silently builds an `undefined/` path segment.
- JSON parsing and pretty-printing of `apps.json` (index.js:30-44, 222, 234). The registry is already parsed. The exit on malformed JSON is not modelled. Names are strings, so the loose `==` of the lookup is string equality.
- defaultConfig.js is not part of this model. The default profile is a parameter of `Workspace` (`defaultConfig`). It is shared and mutated in place in the source; the model gives a fresh copy with the name set.
- Registry.Skeleton: recursive `mkdirSync` also creates the parents of a name that contains `/`, and fails below the registry file (a name such as `apps.json/x`). The empty name, trailing slashes and path normalisation are not modelled either.
- Registry.PathExists: files under `variations/` other than `apps.json` are not modelled, so the existence test sees only folders and the registry file.
- The `xcode` library: `parse`, `getFirstTarget`, `writeSync`. Which build configurations `updateBuildProperty` selects belongs to the library; the model writes into every configuration it is given. Build-setting values are modelled as strings.
- The branch where the project has no first target (index.js:120-122) is not modelled.
- The `plist` library: `parse` and `build`. A top-level value other than a dictionary and real-number values are not modelled.
- The overlay copies made with `cpr`: `synciOS`, `syncAndroid`, `syncSrc` (index.js:136-163, 196-204). Their overwrite, filter and merge semantics belong to the library, and so do the overlay paths (index.js:76-78).
- The child processes of `runAndroid` (index.js:181-194): `react-native-rename` and `./gradlew clean`, with their failure exits.
- Step order and partial failure in `switchTo` (index.js:80-86). `project.parse` and `cpr` complete through callbacks, so no order or rollback is stated. `SwitchTo` gives the combined edits of one successful run.
- RewriteLine: a `$` followed by a backtick or by `'` in the name stands in JavaScript for the whole file's text before or after the match; the model works line by line and keeps these two pairs as written.
- RewriteLines: for the same two pairs, the source copies text of other lines into the rewritten line, so "each line on its own" holds only for names without them. The splitting of the build script into lines at LF, CR, U+2028 and U+2029 is not modelled; a name containing a line terminator adds lines to the file.
- AndroidSigning: inherits the two pairs left out of RewriteLine.
- RewrittenLineShape: stated for names without `$`; for other names the line ends with the substituted replacement that RewriteLine states.
- RewrittenLinesSelect: stated for names without `$`, for the same reason.
- RewriteLineOverrides: holds only when the later name does not quote the match (with `$&` the old line is copied in, see AmpersandNameGrows under Findings) and the earlier name is plain (`Signing.PlainName`): a line terminator, `` $` `` or `$'` in the earlier name leaves extra lines in the file that the later switch does not remove.
- RewriteLinesOverrides: the same two conditions as RewriteLineOverrides.
- RewriteLinesIdempotent: holds only for plain names that do not quote the match; the source's line grows on every run for `$&`, and a name holding a line terminator followed by the pattern adds lines on every run.
- RewriteLineEscapedOverrides: holds only when the earlier name has no line terminator, for the same reason; escaping `$` does not stop a line terminator from splitting the line.
- SwitchApplies: the signing-line clause is stated for names without `$`; the line-count clause is stated for plain names, since the source adds lines for a name holding a line terminator, `` $` `` or `$'`.
- ApplyProfileOverrides: holds only when the earlier profile's name is plain and the later profile's name does not quote the match.
- SwitchOverrides: holds only when the earlier variation's name is plain and the target variation's name does not quote the match.
- SwitchIdempotent: holds only when the variation's name is plain and does not quote the match.
- The `replace-in-file` file handling: globbing, and how read or write failures arise. Any failure is the one `None` case of `AndroidSigning`.
- The CLI: `commander` wiring, `handleError`, `process.exit` and console output (index.js:19-28, 250-290). `CreateVariation` returns the kind of message it prints, and `Add` returns whether the process exited.

## Findings

| source | as written | input that shows it | evidently intended | confidence | as-written member | corrected member |
|---|---|---|---|---|---|---|
| index.js:170 | the name is concatenated into a replacement string, which `String.prototype.replace` reads as a template (`$$`, `$&` and the context pairs are substituted) | variation `$&` on the line `signingConfig signingConfigs.release` gives `signingConfig signingConfigs.signingConfig signingConfigs.release`, and each further switch makes it longer | the name written as it is, e.g. with every `$` doubled before the replace | not executed | Signing.AmpersandNameGrows | Signing.RewriteLineEscapedOverrides |

The switch model keeps the rewrite as written (`Signing.RewriteLine`); `Signing.RewriteLineEscaped` is the rewrite with the name escaped, and its override and idempotence lemma holds for every name without a line terminator.
