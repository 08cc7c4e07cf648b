# AEM crypto helper and JCR node provider of the `cq` cookbook, in Dafny

This project models two pieces of the `cq` Chef cookbook and proves properties of them.

**The crypto helper** (`libraries/_crypto_helper.rb`) keeps a workspace under Chef's file
cache for decrypting values protected by an AEM instance's master key. The model covers:

- the classpath string;
- unpacking the AEM crypto libraries out of the quickstart JAR, in three `unzip` stages;
- reading a compiled `Decrypt.class`'s version from `javap -verbose` output and mapping it
  to a Java release;
- deciding when `Decrypt.java` is recompiled;
- storing and deleting the master key in the tmp directory;
- mapping the exit status of the `Decrypt` helper to plaintext, `nil` or a fatal stop.

The workspace is the class `CryptoHelper.CryptoWorkspace`. Its fields are the tmp directory,
the AEM library directory and the compiled class, and it records every external program it
starts in `trace`. Each step is specified by a function over values (`Materialize`,
`BuildDecryptor`, `DecryptOutcomeOf`). The lemmas about those functions state what the
cookbook promises.

**The `cq_jcr` provider** (`libraries/core_jcr_provider.rb`) brings a content node's
properties to a desired state by posting a diff.

- In append mode the diff holds the desired entries that differ from the current ones.
- In replace mode it also holds an `<name>@Delete` marker for every current property whose
  desired value is missing, `nil` or `false`.
- Properties that are created automatically, or are protected by the node type, are
  filtered out.

The provider is the class `JcrProvider.CqJcrProvider`. Its loops build the diff the way the
source's `each` and `delete_if` do, and each loop is proved equal to a specification
function of module `JcrDiff`.

Modules:

| module | file | contents |
|---|---|---|
| `Outcomes`, `CryptoFailures` | outcomes.dfy | `Option`, `Result`, `Outcome`; the fatal errors of the crypto helper |
| `Text` | text.dfy | Ruby's `\s`, `String#strip`, `join`/`split` |
| `CryptoPaths` | crypto_paths.dfy | `File.join`, the workspace directories, the classpath |
| `JvmVersion` | jvm_version.dfy | the version table, the `javap` line regexes, `compiled_with?`, the recompile test |
| `Archive` | archive.dfy | JARs as entry lists, `unzip -o -b -j` with a glob filter, `Dir[...]` listings |
| `CryptoHelper` | crypto_helper.dfy | the workspace class and the specifications of its steps |
| `JcrDiff` | jcr_diff.dfy | property maps, the two diffs, the `@Delete` stripping, the editable-property filter |
| `JcrProvider` | jcr_provider.dfy | the provider class: loading, diff loops, `modify_node`, `action_create` |

Ruby semantics modelled explicitly:

- `Hash#[]` gives `nil` for a missing key (`JcrDiff.Get`).
- Only `nil` and `false` are falsy (`JcrDiff.Truthy`).
- `merge` lets the argument win (`JcrDiff.Merged`).
- `gsub(/@Delete/, '')` removes leftmost, non-overlapping occurrences (`JcrDiff.StripDelete`).
- `&&` and `||` short-circuit. `editable_property` only fetches the protected list for a
  name that is not automatic, and the rebuild test only runs `javap` when the class exists.
- `nil + '.'` raises.

## Model

| member | source | states |
|---|---|---|
| Text.Strip | libraries/_crypto_helper.rb:348 | `strip` returns a run of the output with no stripped character at either end, and only stripped characters are cut around it |
| Text.StripPadded | libraries/_crypto_helper.rb:348 | a trimmed string padded on both sides by whitespace or NUL strips back to exactly itself |
| Text.StripIdempotent | libraries/_crypto_helper.rb:348 | stripping twice gives the same as stripping once |
| Text.SplitJoin | libraries/_crypto_helper.rb:48-54 | `join(':')` of parts without a colon is undone by splitting at colons |
| CryptoPaths.TrimTrailingSlashes | libraries/_crypto_helper.rb:26-40 | `File.join` removes exactly the trailing run of slashes of the directory: the result is a prefix that does not end in `/`, and every character cut off is a `/` |
| CryptoPaths.JoinShape | libraries/_crypto_helper.rb:26-40 | a joined path is the directory without its trailing slashes, then only slashes (the directory's own trailing ones, or one added when there are none), then the name, which ends the path |
| CryptoPaths.JoinKeepsOut | libraries/_crypto_helper.rb:26-40 | joining paths adds no character other than `/` |
| CryptoPaths.ClasspathStartsWithTmp | libraries/_crypto_helper.rb:42-55 | for any cache path the classpath starts with `.` and then the tmp dir, so the master key written there is found before the libraries |
| CryptoPaths.ClasspathEntries | libraries/_crypto_helper.rb:42-55 | the classpath splits at `:` into exactly `.`, the tmp dir, `libs/aem/*` and `libs/log/*`, in that order, when the cache path holds no colon |
| JvmVersion.DecimalRoundTrip | libraries/_crypto_helper.rb:118-121 | the decimal digits `javap` prints for a version number read back as that number |
| JvmVersion.VersionKeyInjective | libraries/_crypto_helper.rb:121 | `major + '.' + minor` determines the version pair: two pairs with the same key are equal |
| JvmVersion.JvmVersionMapper | libraries/_crypto_helper.rb:95-108 | the mapper gives `nil` exactly for a string that is not one of the table's keys; every label is a single digit from `1` to `8` |
| JvmVersion.MapperMatchesReference | libraries/_crypto_helper.rb:95-108 | `jvm_version_mapper` gives `'1'` for 45.3 and `'2'`..`'8'` for 46.0..52.0, and `nil` for every other version pair |
| JvmVersion.TableKeyHasLabel | libraries/_crypto_helper.rb:95-108 | every key of the table is the key of a labelled version, so the table guesses no label |
| JvmVersion.SpaceRun | libraries/_crypto_helper.rb:118-119 | `\s+` takes the maximal run of whitespace at a position |
| JvmVersion.LineRun | libraries/_crypto_helper.rb:118-119 | `.+` takes the maximal run of characters before the next line feed |
| JvmVersion.MatchLine | libraries/_crypto_helper.rb:118-119 | a captured version is never empty and never spans a line feed |
| JvmVersion.FirstMatch | libraries/_crypto_helper.rb:118-119 | `String#[]` with a regex uses the leftmost line that matches: no earlier position matches |
| JvmVersion.VersionLine | libraries/_crypto_helper.rb:118-119 | the regex lookup gives `nil` exactly when the pattern matches at no position; a captured version is non-empty and on one line |
| JvmVersion.CompiledWith | libraries/_crypto_helper.rb:111-127 | the result is a version label exactly when `javap` succeeded and both version lines are present; otherwise the run stops with the disassembly error |
| JvmVersion.MinorLineOfDisassembly | libraries/_crypto_helper.rb:119 | on `javap` output with a header line and two indented version lines, the minor regex captures the minor number |
| JvmVersion.MajorLineOfDisassembly | libraries/_crypto_helper.rb:118 | on the same output, the major regex captures the major number, even though the minor line comes first |
| JvmVersion.CompiledWithDisassembly | libraries/_crypto_helper.rb:118-124 | parsing `javap`'s rendering of a class version gives that version's release label (`nil` when unmapped) |
| JvmVersion.VersionChanged | libraries/_crypto_helper.rb:129-131 | the probe fails exactly when `compiled_with?` stops the run; an unlabelled class differs from any desired label, and a class whose label is the desired one has not changed |
| JvmVersion.VersionChangedOfDisassembly | libraries/_crypto_helper.rb:129-131 | `jvm_version_changed?` holds exactly when the class's label differs from the desired `jdk_version` |
| JvmVersion.RecompileNeeded | libraries/_crypto_helper.rb:157-158 | a missing class is always rebuilt, and the test can only fail (with the disassembly error) when the class exists |
| JvmVersion.RecompileRule | libraries/_crypto_helper.rb:157-158 | a missing class is rebuilt without running `javap`; an existing one is rebuilt exactly when its label differs from the desired one |
| JvmVersion.UnmappedVersionAlwaysRecompiles | libraries/_crypto_helper.rb:129-131 | a class newer than Java 8 has no label, so it counts as changed whenever a `jdk_version` is set |
| Archive.GlobPrefixStarSuffix | libraries/_crypto_helper.rb:199-203 | a `prefix*suffix` filter selects exactly the paths that start with the prefix and end with the suffix, without overlap |
| Archive.Basename | libraries/_crypto_helper.rb:70 | `-j` keeps the part of the path after its last `/` |
| Archive.ExtractedNameListed | libraries/_crypto_helper.rb:69-79 | every entry the filter selects lands in the destination under its base name |
| Archive.ExtractEntries | libraries/_crypto_helper.rb:69-79 | extraction keeps every file of the destination, and a file whose name no selected entry has keeps its content |
| Archive.ExtractEntriesKeys | libraries/_crypto_helper.rb:69-79 | after extraction the destination holds its old files plus the base names of the selected entries, and nothing else |
| Archive.ExtractEntriesKeepsOthers | libraries/_crypto_helper.rb:69-79 | a file that no selected entry overwrites keeps its content |
| Archive.LastExtractedEntryWins | libraries/_crypto_helper.rb:69-79 | with `-o`, a name gets the content of the last selected entry that has it |
| Archive.AnyMatchIff | libraries/_crypto_helper.rb:69-79 | the no-match check of `unzip` holds exactly when some entry's path matches the filter |
| Archive.UnzipOutcome | libraries/_crypto_helper.rb:69-79 | in the model, extraction fails (fatally) exactly when the file is missing, is not a JAR, or has no entry matching the filter; on success the new listing is the old one plus the extracted names |
| Archive.Unzip | libraries/_crypto_helper.rb:69-79 | the only failure is the extraction error for the filter; success needs an existing JAR and keeps every file of the destination |
| Archive.Visible | libraries/_crypto_helper.rb:179 | `Dir[dir/*]` lists exactly the files of the directory whose name does not start with a dot |
| Archive.GraniteCandidates | libraries/_crypto_helper.rb:210-212 | the granite search keeps exactly the names of the directory that match `com\.adobe\.granite\.crypto.+` |
| CryptoHelper.Materialize | libraries/_crypto_helper.rb:178-229 | no AEM library is ever removed, and no tool is started exactly when the AEM directory already lists five files |
| CryptoHelper.AfterStandalone | libraries/_crypto_helper.rb:189-217 | tmp only loses files and the AEM directory keeps its files; on success tmp listed exactly one file, the standalone JAR, and it is deleted |
| CryptoHelper.AfterGranite | libraries/_crypto_helper.rb:208-225 | tmp is untouched and the AEM directory keeps its files; on success exactly one granite bundle was found and the library extraction was the only tool started |
| CryptoHelper.MaterializeSkipsWhenComplete | libraries/_crypto_helper.rb:183 | five listed AEM libraries: nothing is extracted and both directories stay as they are |
| CryptoHelper.MaterializeStages | libraries/_crypto_helper.rb:178-229 | a successful materialisation runs the three extractions in order (primary to tmp, standalone to aem, granite to aem) and leaves no visible file in tmp |
| CryptoHelper.MaterializeNeedsOneStandalone | libraries/_crypto_helper.rb:189-195 | unless tmp lists exactly one file after the first stage, the run stops there with that listing |
| CryptoHelper.MaterializeNeedsOneGraniteBundle | libraries/_crypto_helper.rb:205-217 | unless exactly one granite bundle is found, the run stops after the second stage, with the standalone JAR already deleted |
| CryptoHelper.LeftoverFileBlocksMaterialize | libraries/_crypto_helper.rb:187-195 | a visible file left in tmp that the standalone JAR does not overwrite makes materialisation stop at the first check |
| CryptoHelper.GraniteBundleIsFound | libraries/_crypto_helper.rb:199-222 | a bundle `com.adobe.granite.crypto<version>.jar` in the install folder is selected by the granite filter, lands under its own name and is found by the granite search |
| CryptoHelper.CompileStep | libraries/_crypto_helper.rb:261-271 | one `javac` run with the crypto classpath succeeds exactly when the compiler does; a compile error stops the run and keeps the old class |
| CryptoHelper.BuildDecryptor | libraries/_crypto_helper.rb:150-159 | a successful build always leaves a compiled class; a failed one failed in `javac` or in the version probe; at most three tools are started |
| CryptoHelper.RecompileIff | libraries/_crypto_helper.rb:150-159 | without a fresh deploy, `javac` runs exactly when the class is missing or the probe answers true, and `javap` runs exactly when the class exists |
| CryptoHelper.DeployCompilesFirst | libraries/_crypto_helper.rb:258 | a freshly deployed `Decrypt.java` is compiled before anything else |
| CryptoHelper.BuildStable | libraries/_crypto_helper.rb:150-159 | a class compiled for the desired release is only probed by the next run, never rebuilt |
| CryptoHelper.UnchangedClassIsKept | libraries/_crypto_helper.rb:157-158 | an existing class the probe reports as unchanged is only probed |
| CryptoHelper.ChangedClassIsRebuilt | libraries/_crypto_helper.rb:157-158 | an existing class the probe reports as changed is probed and then compiled |
| CryptoHelper.UnmappedCompilerRecompilesEveryRun | libraries/_crypto_helper.rb:129-131 | a compiler newer than Java 8 makes every run recompile while a `jdk_version` is set |
| CryptoHelper.StatusOutcome | libraries/_crypto_helper.rb:345-365 | exit 0 gives the stripped output; 1, 2, 4 and 5 are fatal; 3, any other code and a signal give `nil` |
| CryptoHelper.DecryptOutcomeOf | libraries/_crypto_helper.rb:325-366 | a failed entropy spawn raises out of the rescue clause; a helper that cannot start gives `nil`; otherwise the exit-code table decides |
| CryptoHelper.DecryptReturnsPrintedPlaintext | libraries/_crypto_helper.rb:345-348 | a helper that prints the plaintext padded by whitespace makes `decrypt` return exactly the plaintext |
| CryptoHelper.DecryptEvents | libraries/_crypto_helper.rb:333-339 | the entropy daemon starts first and the helper second; the daemon is killed exactly when the helper ran |
| CryptoHelper.CryptoWorkspace.ExtractAemLibs | libraries/_crypto_helper.rb:178-229 | the directories, the programs started and the outcome are those of `Materialize` |
| CryptoHelper.CryptoWorkspace.ExtractGraniteBundle | libraries/_crypto_helper.rb:189-217 | the standalone check, the granite extraction and the deletion of the standalone JAR, as `AfterStandalone` states |
| CryptoHelper.CryptoWorkspace.ExtractCryptoLibs | libraries/_crypto_helper.rb:208-225 | the granite check and the library extraction, as `AfterGranite` states |
| CryptoHelper.CryptoWorkspace.CompileDecryptor | libraries/_crypto_helper.rb:261-271 | the class and the outcome become those of one `javac` run; the directories are unchanged |
| CryptoHelper.CryptoWorkspace.LoadDecryptor | libraries/_crypto_helper.rb:150-159 | a failed materialisation stops before anything is compiled; otherwise the class and outcome are those of `BuildDecryptor` with the answer of `jvm_version_changed?` |
| CryptoHelper.CryptoWorkspace.EnsureCompiled | libraries/_crypto_helper.rb:154-158 | deploy-time compile and the rebuild test, as `BuildDecryptor` states |
| CryptoHelper.CryptoWorkspace.SaveKey | libraries/_crypto_helper.rb:291-307 | the key is written to tmp under the uuid, which is returned; a failed write is fatal and leaves tmp unchanged |
| CryptoHelper.CryptoWorkspace.LoadMasterKey | libraries/_crypto_helper.rb:276-289 | a response other than `'200'` is fatal and writes nothing; otherwise the body is saved as `save_key` does |
| CryptoHelper.CryptoWorkspace.UnloadMasterKey | libraries/_crypto_helper.rb:309-319 | the name is gone from tmp afterwards and the call never fails; it reports whether a file was there |
| CryptoHelper.CryptoWorkspace.LoadThenUnload | libraries/_crypto_helper.rb:276-319 | loading a key under a fresh name and unloading it leaves tmp as it was |
| CryptoHelper.CryptoWorkspace.Decrypt | libraries/_crypto_helper.rb:325-366 | the outcome is `DecryptOutcomeOf` and the programs started are `DecryptEvents`; no directory changes |
| JcrDiff.Merged | libraries/core_jcr_provider.rb:92-95 | the merge has the keys of both maps; desired values win and other keys keep their current value |
| JcrDiff.RegularDiff | libraries/core_jcr_provider.rb:114-122 | every entry of the append-mode diff is a desired property, with its desired value, that differs from the current one |
| JcrDiff.RegularDiffIsUpdates | libraries/core_jcr_provider.rb:114-122 | the append-mode diff over the merged map equals the desired entries whose current value differs: keys only in the current map never appear |
| JcrDiff.RegularDiffEmptyIff | libraries/core_jcr_provider.rb:114-122 | the append-mode diff is empty exactly when every desired property already has its desired value |
| JcrDiff.RegularDiffReachesDesired | libraries/core_jcr_provider.rb:114-122 | applying the append-mode diff gives every desired property its value and changes nothing else |
| JcrDiff.Updates | libraries/core_jcr_provider.rb:172-174 | only desired names are updated, and applying the updates gives every desired property its desired value |
| JcrDiff.Markers | libraries/core_jcr_provider.rb:176-180 | every marker maps to `''`, and every current property whose desired value is missing, `nil` or `false` has one |
| JcrDiff.ForceReplaceDiff | libraries/core_jcr_provider.rb:167-183 | every entry is a marker (`''`) or a desired value, and every differing desired property is in the diff |
| JcrDiff.MarkersKeys | libraries/core_jcr_provider.rb:176-180 | the markers are exactly `<k>@Delete` for each current `k` whose desired value is missing, `nil` or `false`, each mapped to `''` |
| JcrDiff.ForceReplaceEntries | libraries/core_jcr_provider.rb:167-183 | the replace-mode diff holds exactly the markers (value `''`) and the differing desired entries (desired value) |
| JcrDiff.ForceExtendsRegular | libraries/core_jcr_provider.rb:167-183 | the replace-mode diff is the append-mode diff plus the markers |
| JcrDiff.ForceEqualsRegularWhenNothingRemoved | libraries/core_jcr_provider.rb:167-183 | when every current property has a truthy desired value, the two modes post the same diff |
| JcrDiff.FalsyDesiredGetsMarker | libraries/core_jcr_provider.rb:178-180 | a current property whose desired value is missing, `nil` or `false` always gets a deletion marker |
| JcrDiff.SelfDiffMarksFalsy | libraries/core_jcr_provider.rb:167-183 | in replace mode a node already in the desired state still gets markers for its `nil`/`false` properties, and only those |
| JcrDiff.StripDelete | libraries/core_jcr_provider.rb:197 | removing `@Delete` never lengthens a name |
| JcrDiff.StripDeleteMarker | libraries/core_jcr_provider.rb:197 | a marker's name with `@Delete` removed is the property's name with `@Delete` removed |
| JcrDiff.ProtectedProperties | libraries/core_jcr_provider.rb:153-157 | the protected list is the node type's list without `jcr:primaryType` |
| JcrDiff.EditableProperty | libraries/core_jcr_provider.rb:160-165 | automatic properties are never editable, and the check raises exactly when a non-automatic name needs the missing protected list |
| JcrDiff.EditableIff | libraries/core_jcr_provider.rb:160-165 | a name is editable exactly when it is not automatic and not protected; the protected list is only looked up for non-automatic names, and a missing list raises |
| JcrDiff.PrimaryTypeEditable | libraries/core_jcr_provider.rb:153-165 | `jcr:primaryType` is editable whatever the node type declares |
| JcrDiff.FilterDiff | libraries/core_jcr_provider.rb:196-198 | the filter raises exactly when the list is missing and some name is not automatic; otherwise it only removes entries, keeps only names that are editable once `@Delete` is removed, and never changes a value |
| JcrDiff.FilterKeeps | libraries/core_jcr_provider.rb:196-198 | an entry survives exactly when its name, with `@Delete` removed, is neither automatic nor protected |
| JcrDiff.MarkerFilteredLikeProperty | libraries/core_jcr_provider.rb:196-198 | a deletion marker survives the filter exactly when its property does |
| JcrDiff.PropertiesDiff | libraries/core_jcr_provider.rb:185-198 | no posted name is automatic once `@Delete` is removed, and in append mode every posted name is desired |
| JcrDiff.NewNodeNeedsProtectedList | libraries/core_jcr_provider.rb:32-45 | for a node that does not exist, the diff logged at load time raises without the protected list exactly when some desired value is not `nil` and its name, with `@Delete` removed, is not automatic |
| JcrDiff.AppendPostsOnlyDesired | libraries/core_jcr_provider.rb:185-198 | in append mode every posted entry is a desired property with its desired value that differs from the current one |
| JcrDiff.AppendSettles | libraries/core_jcr_provider.rb:185-198 | in append mode a node already in the desired state gets an empty diff |
| JcrProvider.CqJcrProvider.LoadCurrentResource | libraries/core_jcr_provider.rb:32-45 | the node exists exactly when the answer code is `'200'`; only then are its properties read; the properties diff is computed either way, and the load raises exactly when that diff does |
| JcrProvider.CqJcrProvider.Converge | libraries/core_jcr_provider.rb:32-64 | a load whose logged diff raises stops the run before anything is posted; otherwise `action_create` runs on the loaded state |
| JcrProvider.CqJcrProvider.ComputeRegularDiff | libraries/core_jcr_provider.rb:114-122 | the loop over the merged properties builds exactly the append-mode diff |
| JcrProvider.CqJcrProvider.ComputeForceReplaceDiff | libraries/core_jcr_provider.rb:167-183 | the two loops build exactly the replace-mode diff |
| JcrProvider.CqJcrProvider.ComputeUpdates | libraries/core_jcr_provider.rb:172-174 | the first loop collects the desired entries whose current value differs |
| JcrProvider.CqJcrProvider.AddMarkers | libraries/core_jcr_provider.rb:178-180 | the second loop writes every marker over the first loop's result |
| JcrProvider.CqJcrProvider.ComputePropertiesDiff | libraries/core_jcr_provider.rb:185-198 | the diff of the configured mode, filtered |
| JcrProvider.CqJcrProvider.DeleteNonEditable | libraries/core_jcr_provider.rb:196-198 | the `delete_if` loop gives exactly the filtered diff, and raises when the filter does |
| JcrProvider.Accepted | libraries/core_jcr_provider.rb:111 | an answer code is accepted exactly when it starts with `20` |
| JcrProvider.CqJcrProvider.ModifyNode | libraries/core_jcr_provider.rb:97-112 | the payload is posted; the run stops unless the answer code starts with `'20'` |
| JcrProvider.CqJcrProvider.ActionCreate | libraries/core_jcr_provider.rb:47-64 | a missing node gets every desired property; an existing node gets the diff, nothing when the diff is empty, and a raise when the protected list is missing |

Three behaviours of `decrypt` (libraries/_crypto_helper.rb:333-365) that are easy to miss:

- A `Decrypt` helper that cannot be started has no exit status. The `case` in `decrypt`'s
  rescue clause then matches no branch, so the call returns `nil` rather than stopping the
  run.
- A non-zero exit code outside 1 to 5, and death by a signal, also give `nil`.
- The entropy daemon is only killed after the helper ran. When the helper cannot be started,
  the daemon is not killed.

## Left out

- HTTP transport (`http_get`, `http_post`, `http_multipart_post`, `json_to_hash`): each answer is a parameter, a code with a body or a property map.
- `encrypt` (`libraries/_crypto_helper.rb:368-384`): it is only a POST and a field lookup in the JSON answer.
- Subprocesses (`javap`, `javac`, `java`, `rngd`, `Process.kill`): they are parameters, an exit status and output. `unzip` is instead a function of the archive's contents (`Archive.Unzip`). The concurrency of the entropy daemon with the helper is not modelled; only the order of start, run and kill is.
- `crypto_dir_structure`, `download_log_libs` and the cookbook-file resource in `deploy_decryptor`: these are Chef resource plumbing. Only the "source was updated" flag of `deploy_decryptor` is kept.
- `SecureRandom.uuid`: the name is a parameter, and `LoadThenUnload` asks for one not already in tmp.
- Logging, `Chef::Config` and `node[...]` lookups: the cache path and the desired `jdk_version` are parameters.
- `jdk_version` given as an integer in the node attributes: it is modelled as a string or absent. An integer never equals a string label in Ruby, so such a value always counts as changed; the model does not state this case.
- Deletion failures in `unload_master_key` other than a missing file, such as permissions: the model deletes the name when it is present.
- JCR property values that are floats or nested objects: values are `nil`, booleans, strings, integers and arrays of strings.
- Ruby hash iteration order: diffs are maps, so the order of the posted fields is not modelled.
- `unzip` wildcards other than `*` (`?`, `[...]`): the filters the helper uses contain only `*`.
- The per-key HTTP re-fetch of the protected list in `editable_property`: it is modelled as one answer for the whole filter, either a list or missing.
- The current properties of a node that does not exist: the resource definition is not part of this model, so they are taken to be empty.
- `javap` output beyond one header line followed by the two version lines: the parsing functions accept any output, but the lemmas about a whole disassembly use that shape.
- `whyrun_supported?` and `converge_by`: the action runs its block.
- `action_delete` and `action_modify`: they are empty in the source.
- `recipes/_osgi_bundles.rb`: it only declares resources.
- Archive.Unzip: unzip failures other than a missing file, a non-archive and no matching entry are not modelled; the materialisation lemmas assume such an extraction succeeds.
- JcrDiff.StripDelete: its own contract states only that the result is no longer than the name. How markers are stripped is stated by `StripDeleteMarker`, and the full `gsub` behaviour is given by its definition.
