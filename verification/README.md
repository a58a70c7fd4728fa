# Verification of the swap operator's core

The swap operator renders swap settings of a `NodeSwap` object into machine configurations for
OpenShift nodes. This project models its five logical cores in Dafny and proves what they promise.

* **Ignition version conversion** (`Versions`, `Converters`, `Registration`, `Conversion`,
  `FirstConverters`, `IgnitionConverter`, `ShippedConverters`). Any list of single-step converters, cyclic lists
  included, is searched depth first from every source version, and every pair of versions joined by a
  one-directional sequence of converters gets a ready-made chain. `Registration.Walk` is the search
  on values; the class `IgnitionVersionConverter` does it on the heap, with chains as slices over
  backing arrays, and is proved to leave exactly what `Walk` leaves.
* **Duplicate removal for version 2 configurations** (`Occurrences`, `DuplicateFiles`,
  `DuplicateUnits`, `Deduplication`).
* **Render configurations** (`Decimal`, `RenderConfigs`): sizes, names, and the list made of a
  `NodeSwap`'s swaps.
* **Template overlay** (`Templates`), with `Sorting` for the two places where the program sorts.
* **The NodeSwap reconciler** (`Selectors`, `Conditions`, `Cluster`, `Reconciler`, `Runs`). The API
  server is a class whose every call is preceded by arbitrary writes of other actors and may be
  refused or lose its reply. The reconciler's methods are proved equal to functions on the server's
  world, and whole runs are reasoned about with these functions.

`dafny verify dfyconfig.toml` checks everything. Automatic induction is switched off for every
lemma; each induction is written out.

## What the proofs brought to light

* A conversion does not always factor through the version before its target. A chain may begin with a
  converter from a version to itself, but converting a version to itself runs nothing.
  `PenultimateByList` gives the exact condition on the converter list: it fails if and only if, among
  the converters listed from the source that lead to the target, converters from the source to itself
  come first and a direct one comes next. `PenultimateExactly` and `ReturnsExactly` say the same of the
  registered chain, and `SelfStepChangesConversion` is a list for which the two outcomes differ. The
  shipped list has no such converter.
* The comment above the duplicate removal says the final behaviour should not change. For files it
  does not (`ReplayUnchanged`). For drop-ins it does exactly when the latest unit that lists a drop-in
  name lists it only without contents while an earlier one has contents, or is not the last of its
  name and lists the name first with other contents than the last it would write
  (`OnDiskUnchangedExactly`; `EmptyDropinHides` and `RepeatedDropinChanges` are inputs). For a unit's
  own contents it does exactly when the last unit of the name has none and an earlier one has some
  (`ContentsUnchangedExactly`, `ContentsLost`).
* The removal is not idempotent: twice restores input order, three times is once
  (`DeduplicatedThrice`). Two files with different paths are turned round each time
  (`SecondRemovalReverses`). A second removal changes nothing if and only if all files have one path
  and all units one name (`TwiceIsOnceExactly`).
* A rendered configuration loses the index and the enabling flag set for it, because the generator's
  result replaces it; `Describes` states this, and so does `CreatedExactly`.
* The comment of `MkswapSizeArg` promises a fallback to raw bytes; the code returns an error, and the
  model follows the code (`SizeArgExactly`; 1000 bytes are an input, `NoRawBytes`).
* A file-based swap without a file section makes the program panic, and the reconcile then ends
  without any status. `PanicsExactly` and `CrashesExactly` say for which swaps, under any interleaving
  and faults; `MissingFileCrashes` has the one-swap `NodeSwap`. Every other invalid spec is reported
  as degraded (`InvalidSpecReported`).
* A kubelet machine config that exists is never updated: it keeps an outdated selector label or body
  for ever. `KubeletCurrentExactly` says when the one in the cluster is the one the `NodeSwap` calls
  for, `OutdatedLabelStays` has the case where it is not.
* A first success only reports progress; it takes a second reconcile to report availability
  (`StatusStaysShaped`, `Converges`). Neither the readiness of the pools nor the rendered
  configurations enter the cluster or the status: only the kubelet machine config is ever created
  (`ReconcileAllowed`).

## Model

| member | source | states |
|---|---|---|
| Versions.DirectionsOpposed | internal/common/ignition_converter.go:49-52 | precedence is decided by the most significant differing number; a pair and its reverse are both upwards exactly when the versions are equal |
| Versions.SameDirection | internal/common/ignition_converter.go:270 | two steps in one direction make one step in that direction, so a path's pair always shows the direction of its steps |
| Converters.RunChainMeaning | internal/common/ignition_converter.go:301-308 | running a chain passes through stages: either every converter succeeds and the last stage is the result, or those before some position succeed and the outcome is that of the first that fails |
| Converters.RunsToUnique | internal/common/ignition_converter.go:301-308 | those stages and the outcome are determined by the chain and the source value |
| Converters.RunChainExactly | internal/common/ignition_converter.go:93-119 | by the converters' types and translators: a chain succeeds if and only if each converter takes what comes to it and no translator fails, with the last translator's result; otherwise the first that does not gives the wrong-source-type error beside an empty target, or its translator's reason beside what that made |
| Registration.GroupKeepsConverters | internal/common/ignition_converter.go:228-237 | grouping by source version loses and invents no converter |
| Registration.GroupInListOrder | internal/common/ignition_converter.go:228-237 | each group has its converters in the order they are listed |
| Registration.Walk | internal/common/ignition_converter.go:257-288 | the search terminates on every list, cyclic ones included; it never overwrites a registered pair and only adds pairs whose source is its own |
| Registration.PendingShrinks | internal/common/ignition_converter.go:275-286 | a followed path uses up one of finitely many pending versions: the termination measure |
| Registration.WalkIsLocal | internal/common/ignition_converter.go:257-288 | a search reads only pairs with its own source: on maps that agree there it registers the same chains |
| Registration.SearchesCommute | internal/common/ignition_converter.go:238-240 | searching from one more version adds the same registrations whichever searches came before, so the iteration order of the map does not matter |
| Registration.WalkKeepsTree | internal/common/ignition_converter.go:268-286 | at every moment each registered chain ends in a converter into its target and is that converter alone or extends the chain registered for the converter's source |
| Registration.WalkCloses | internal/common/ignition_converter.go:268-286 | when a search returns, every pair it added has all its successors in the same direction registered |
| Conversion.RegisteredExactly | internal/common/ignition_converter.go:217-288 | a pair is registered if and only if some non-empty sequence of listed converters leads from its source to its target with all steps up or all steps down |
| Conversion.RegisteredExtends | internal/common/ignition_converter.go:268-286 | the registered pairs are closed under listed converters that go on in the pair's direction |
| Conversion.RegisteredIsTree | internal/common/ignition_converter.go:268-286 | in the finished map, taking the last converter off a longer chain gives exactly the chain registered for that converter's source |
| Conversion.ChainLeads | internal/common/ignition_converter.go:274-282 | adjacent converters of a registered chain agree on versions, all are listed, and all go in the pair's direction |
| Conversion.PrefixIsRegistered | internal/common/ignition_converter.go:274-286 | every prefix of a registered chain is the chain registered for where it ends |
| Conversion.ChainTargetsDistinct | internal/common/ignition_converter.go:275-285 | no chain reaches a version twice, so it is no longer than the number of versions |
| Conversion.FirstListedIsDirect | internal/common/ignition_converter.go:268-286 | the first listed converter from a version is the whole chain to its target |
| Conversion.ConvertIsTypeSafe | internal/common/ignition_converter.go:290-309 | for a well-typed list, converting never meets the wrong-source-type error, is unsupported exactly when the versions differ and no one-directional sequence joins them, yields the target's type on success, and otherwise fails only as a translator fails |
| Conversion.ConversionExactly | internal/common/ignition_converter.go:290-309 | for a well-typed list and a supported pair: no error if and only if no translator of the chain fails, and then the target's type with the body all of them make in turn; otherwise the reason of the first that fails, beside what it made |
| Conversion.WrongTypeRefused | internal/common/ignition_converter.go:93-103 | a supported conversion of any value that is not of the first converter's source type gives that converter's wrong-source-type error beside an empty target |
| Conversion.NothingToRun | internal/common/ignition_converter.go:290-300 | equal versions give back any value as it is; a pair no one-directional sequence joins gives nil and the unsupported error |
| Conversion.ChainKeepsTypes | internal/common/ignition_converter.go:93-119 | along a chain of well-typed converters every value has the type of the version reached |
| Conversion.PenultimateExactly | internal/common/ignition_converter.go:290-308 | a conversion runs what the conversion to the version before its target runs and then the last converter, if and only if that version is not the source |
| Conversion.ConvertToPenultimate | internal/common/ignition_converter.go:290-309 | under that condition the equation holds for every value |
| Conversion.NoSelfStepNoReturn | internal/common/ignition_converter.go:268-286 | the condition holds for every chain when no listed converter goes from a version to itself |
| Conversion.ReturnsExactly | internal/common/ignition_converter.go:268-286 | a chain of more than one converter returns to its source before its last one exactly when it is a converter from that version to itself and one more |
| FirstConverters.AddedThrough | internal/common/ignition_converter.go:268-286 | every pair a search adds is added through one converter of the current version: those in front of it have their pairs by then, and everything added so far has its successors |
| FirstConverters.FirstConverterExactly | internal/common/ignition_converter.go:257-288 | a registered chain starts with the first converter, among those listed from its source, from which a one-directional sequence leads to its target |
| FirstConverters.NextConverterExactly | internal/common/ignition_converter.go:257-288 | every later converter of a registered chain is the first, among those listed from the version reached, that leads to the target and not back to that version |
| FirstConverters.RegisteredChainExactly | internal/common/ignition_converter.go:217-288 | which chain a pair gets, read off the list without a search: a chain is the registered one if and only if it takes these first converters and stops at the target |
| FirstConverters.SecondConverterExactly | internal/common/ignition_converter.go:257-288 | behind a converter from the source to itself, a chain goes on with the first of the others listed from the source that leads to its target |
| FirstConverters.ReturnsByList | internal/common/ignition_converter.go:257-288 | a chain returns to its source before its last converter if and only if, of the converters listed from the source that lead to the target, ones from the source to itself come first and a direct one next |
| FirstConverters.PenultimateByList | internal/common/ignition_converter.go:257-309 | a conversion runs what the conversion to the version before its target runs and then the last converter, except exactly for such lists |
| Conversion.SelfStepChangesConversion | internal/common/ignition_converter.go:290-309 | a list with such a converter for which the two sides of the equation differ |
| IgnitionConverter.Append | internal/common/ignition_converter.go:182-187 | appending to a slice writes in place when there is room and moves to a fresh array when there is none; the contents grow by the element |
| IgnitionConverter.AppendTwice | internal/common/ignition_converter.go:182-184 | why the slice is copied: two appends to one slice with room both end up with the second element |
| IgnitionConverter.ConversionPath.FromExisting | internal/common/ignition_converter.go:177-189 | the extended path has the old chain plus the converter on a fresh backing array, and touches no existing one |
| IgnitionConverter.IgnitionVersionConverter.RecursiveConverterRegistration | internal/common/ignition_converter.go:257-288 | the search on the heap leaves exactly the chains of the search on values, keeps every registered path object, and never lets two paths share a backing array |
| IgnitionConverter.IgnitionVersionConverter.Visit | internal/common/ignition_converter.go:268-286 | one converter starts a path, continues one in its own direction, or is passed over |
| IgnitionConverter.IgnitionVersionConverter.RegisterConverterVersions | internal/common/ignition_converter.go:245-255 | both versions become known and the list of versions stays free of duplicates |
| IgnitionConverter.IgnitionVersionConverter.constructor | internal/common/ignition_converter.go:216-243 | for every list and every order of the source versions the map is the same function of the list, and the supported versions are strictly sorted and exactly the endpoints |
| IgnitionConverter.IgnitionVersionConverter.SearchAll | internal/common/ignition_converter.go:238-240 | searching from the source versions in any order gives the union of the separate searches |
| IgnitionConverter.SameListSameConverter | internal/common/ignition_converter.go:216-243 | two converters built from one list have the same chains and the same version list |
| IgnitionConverter.IgnitionVersionConverter.Convert | internal/common/ignition_converter.go:290-309 | the loop returns what running the registered chain gives, including early exit, equal versions and unsupported pairs; ConversionExactly, WrongTypeRefused and NothingToRun say what that is |
| IgnitionConverter.IgnitionVersionConverter.GetSupportedMinorVersion | internal/common/ignition_converter.go:311-319 | finds major.minor.0 exactly when it is among the supported versions |
| ShippedConverters.ShippedExactly | internal/common/ignition_converter.go:125-165 | the ten shipped converters support upwards conversions to 3.2 and later from everything but 3.1, downwards ones from 3.2 and later to everything but 3.0, and nothing else |
| ShippedConverters.ShippedConversionsAreTypeSafe | internal/common/ignition_converter.go:125-165 | a supported shipped conversion yields the target's type or fails as a translator fails |
| ShippedConverters.ShippedTranslators | internal/common/ignition_converter.go:68-165 | each shipped converter makes of a body what the translator of its own versions makes, and fails where that one does; those that go up from 3.0 or later have no error to return |
| ShippedConverters.UpwardsNeverFails | internal/common/ignition_converter.go:125-165 | a supported conversion upwards from 3.0 or later always succeeds |
| Sorting.SortIncreasing | internal/common/ignition_converter.go:241 | sorting distinct elements gives a strictly increasing arrangement of the same elements |
| Sorting.IncreasingUnique | internal/template/render.go:260 | there is only one such arrangement, so any sorting routine gives it |
| DuplicateFiles.RemoveDuplicateFiles | internal/common/helpers.go:200-210 | the backward scan with its visited map computes KeepLast |
| DuplicateFiles.KeepLastExactly | internal/common/helpers.go:200-210 | the output is exactly the last occurrence of each path, in reverse input order |
| DuplicateFiles.KeepLastPaths | internal/common/helpers.go:200-210 | paths are pairwise distinct and none is lost |
| DuplicateFiles.ReplayUnchanged | internal/common/helpers.go:185-191 | writing the output files leaves the same file at every path as writing the input files |
| DuplicateFiles.FilesAgain | internal/common/helpers.go:200-210 | a second removal gives the survivors in input order, a third gives the first's output |
| DuplicateUnits.AppendDropins | internal/common/helpers.go:224-235 | the inner loops append exactly the drop-ins whose name is not present yet |
| DuplicateUnits.MergeDropins | internal/common/helpers.go:219-238 | the loop over the output units changes only the one of the given name, by merging the drop-ins into it |
| DuplicateUnits.RemoveDuplicateUnits | internal/common/helpers.go:212-245 | the triple-nested merge loop computes KeepLast |
| DuplicateUnits.KeepLastExactly | internal/common/helpers.go:212-245 | one unit for each name, in reverse order of last occurrence; each is the last unit of its name with the new drop-ins of the earlier ones appended, later units first |
| DuplicateUnits.FirstNewInOrder | internal/common/helpers.go:224-235 | the appended drop-ins keep their order and are exactly those whose name is neither known nor an earlier one's |
| DuplicateUnits.MergedDropins | internal/common/helpers.go:221-235 | no drop-in name is lost or invented; names are distinct exactly when the last unit's own are |
| DuplicateUnits.OnDiskUnchangedExactly | internal/common/helpers.go:185-192 | the drop-ins written for a unit, empty ones being none, are unchanged if and only if for each name the latest unit that lists it has contents for it, first and last the same if a later unit has its name, or no unit has contents for it |
| DuplicateUnits.ContentsUnchangedExactly | internal/common/helpers.go:185-192 | the contents written for a unit are those of the last unit of its name, and are unchanged if and only if that one has contents or none of the name has |
| DuplicateUnits.ContentsLost | internal/common/helpers.go:212-245 | a unit with contents followed by one of its name with only a drop-in: the contents are lost |
| DuplicateUnits.OnDiskUnchangedWhenDistinct | internal/common/helpers.go:185-192 | when no unit repeats a drop-in name, they are unchanged if and only if the latest drop-in of each name has contents or none of the name has |
| DuplicateUnits.EmptyDropinHides | internal/common/helpers.go:224-235 | a drop-in with contents is lost behind a later unit's drop-in of its name without contents |
| DuplicateUnits.RepeatedDropinChanges | internal/common/helpers.go:224-235 | an earlier unit that repeats a drop-in name ends up with the first content instead of the second |
| DuplicateUnits.UnitsAgain | internal/common/helpers.go:212-245 | a second removal lists the merged units by last occurrence, earliest first; a third gives the first's output |
| Occurrences.FirstOnlyInOrder | internal/common/helpers.go:160-177 | kept keys stay in order, each taken from where it occurs first |
| Occurrences.FirstOnlyKeepsNames | internal/common/helpers.go:160-177 | kept keys are distinct and no key is lost |
| Deduplication.DedupePasswdUserSSHKeys | internal/common/helpers.go:158-183 | the loop with its map keeps the first of every key and all other fields |
| Deduplication.MergeUsers | internal/common/helpers.go:253-268 | the backward loop computes MergedUsers, early error return included |
| Deduplication.MergedUsersExactly | internal/common/helpers.go:247-268 | fails if and only if some user is not core; otherwise the last user with distinct keys that are the keys of all users, first occurrences from the last user's back to the first's |
| Deduplication.KeysOfConcat | internal/common/helpers.go:258-265 | keys of later users come before those of earlier ones, each user's in its own order |
| Deduplication.OtherUserExactly | internal/common/helpers.go:255-261 | the error names the last user that is not core |
| Deduplication.RemoveIgnDuplicateFilesUnitsUsers | internal/common/helpers.go:194-275 | the whole removal computes Deduplicated, which DeduplicatedExactly describes; a failure returns the configuration as it was |
| Deduplication.DeduplicatedExactly | internal/common/helpers.go:194-275 | fails exactly for a user that is not core, naming the last such, and then changes nothing; otherwise files are the last of each path in reverse order, with the same effective files; units are one for each name in reverse order of last occurrence, each the last of its name with the earlier ones' new drop-ins; users are one core user, the last with the first of every key from the last user's back to the first's; everything else is untouched |
| Deduplication.DeduplicatedThrice | internal/common/helpers.go:194-275 | on every accepted configuration three removals equal one, and two list surviving files and units in the opposite order, that is in input order |
| Deduplication.TwiceIsOnceExactly | internal/common/helpers.go:194-275 | on an accepted configuration a second removal changes nothing if and only if at most one file and one unit are left, that is if all files have one path and all units one name |
| Deduplication.SecondRemovalReverses | internal/common/helpers.go:200-210 | two files with different paths come out in the opposite order of every removal |
| Decimal.PrintOneMore | internal/renderconfig/config.go:134 | the numeral of ten times a number and a digit is the numeral of the number with that digit behind it |
| Decimal.PrintParse | internal/renderconfig/config.go:134 | a string of digits is a printed number exactly when it is not empty and has no leading zero beside 0 itself |
| Decimal.ParsePrint | internal/renderconfig/config.go:134 | a printed number consists of digits and reads back as itself |
| RenderConfigs.MkswapSizeArg | internal/renderconfig/config.go:107-140 | the loop over the units returns SizeArg |
| RenderConfigs.SizeArgExactly | internal/renderconfig/config.go:110-140 | printing succeeds if and only if the size is positive and a multiple of 1024; the text reads back as the exact size, in the largest unit that divides it; the error says which of the two fails, with the size |
| RenderConfigs.NoRawBytes | internal/renderconfig/config.go:107-140 | 1000 bytes are refused, not printed as they are |
| RenderConfigs.SizeArgInjective | internal/renderconfig/config.go:110-140 | different sizes have different texts |
| RenderConfigs.NameNames | internal/renderconfig/config.go:74-85 | the names are 99-filebased-swap-, 99-diskbased-swap- or 99-zrambased-swap- by kind, with the position in decimal behind |
| RenderConfigs.NameInjective | internal/renderconfig/config.go:74-85 | a name determines kind and position and never is the kubelet one |
| RenderConfigs.Render | internal/renderconfig/config.go:43-72 | the step-by-step filling of a configuration, with the replacement that drops index and flag, gives Rendered |
| RenderConfigs.RenderedExactly | internal/renderconfig/config.go:43-97 | rendering succeeds exactly for a known kind with a printable size, and then describes the swap by name, priority, path and size; a failure is an unknown kind, a missing file section, or what is wrong with the size |
| RenderConfigs.Create | internal/renderconfig/config.go:29-41 | the loop with early return gives Created |
| RenderConfigs.CreatedExactly | internal/renderconfig/config.go:29-85 | succeeds if and only if every swap is renderable; then one configuration for each swap in order, names pairwise distinct and none the kubelet one; a failure is what is wrong with the first bad swap |
| RenderConfigs.PanicsExactly | internal/renderconfig/config.go:29-54 | creation panics if and only if some file-based swap has no file section and every swap before it is renderable |
| Templates.TemplateSet.FilterTemplates | internal/template/render.go:121-160 | the walk updates the map as Overlaid says, keeping what was done before an error |
| Templates.OverlayExactly | internal/template/render.go:130-156 | a name holds its last non-blank rendering not followed by a template of size zero, or what was there before if untouched; a blank rendering changes nothing |
| Templates.OverlayFailsExactly | internal/template/render.go:122-145 | a walk fails exactly when an entry fails, with the first such error |
| Templates.OverlayConcat | internal/template/render.go:217-251 | directory after directory is all their entries in a row |
| Templates.HoldsStep | internal/template/render.go:217-251 | after each further directory the map holds exactly the texts that stand: the last put under a name by a template of any directory so far, with none later that removes or replaces it |
| Templates.GenerateMachineConfigForName | internal/template/render.go:184-279 | fails exactly when a platform directory, or a directory or template in one, does: with the error of the first broken platform directory, or else of the first platform's files, units or extensions in that order; otherwise files, units and extensions are each the texts or names that stand in the files, units and extensions directories, platform after platform, in strictly increasing name order |
| Templates.BeforeExactly | internal/template/render.go:253-268 | the order is that of the first place where two strings differ, a proper prefix coming first |
| Templates.KeySortVals | internal/template/render.go:253-268 | the values in increasing order of their keys, from any iteration order |
| Templates.OrderIsDetermined | internal/template/render.go:253-268 | that order is unique, so the iteration order of the map leaves no trace |
| Selectors.ParsePrinted | internal/controller/nodeswap_controller.go:285-305 | parsing undoes printing for trimmed keys and values with a non-empty colon-free key |
| Selectors.ParseExactly | internal/controller/nodeswap_controller.go:285-305 | parsing succeeds if and only if the part before the first colon is not blank; key and value are then the trimmed parts before and behind it; otherwise the error says whether the selector is empty, has no colon or has no key |
| Selectors.ParseAgain | internal/controller/nodeswap_controller.go:285-305 | printing and parsing a parsed selector gives the same pair |
| Selectors.TrimSpaceMeaning | internal/controller/nodeswap_controller.go:297-298 | trimming removes white space at both ends and nothing else |
| Conditions.SetChangesOnly | internal/controller/nodeswap_controller.go:107-153 | setting a condition changes only its own type, and its transition time only with its status |
| Conditions.SetInPlace | internal/controller/nodeswap_controller.go:107-153 | a condition of the type is replaced in its place, a new one comes last, and everything else stays as and where it is |
| Conditions.SetAgain | internal/controller/nodeswap_controller.go:107-153 | setting what is there changes nothing |
| Conditions.StatusStaysShaped | internal/controller/nodeswap_controller.go:107-153 | a status that is empty, in progress, failed or succeeded, with unique types, stays so; an error gives the failed shape, a success the in-progress one first and the succeeded one after |
| Conditions.ShapedIsExclusive | internal/controller/nodeswap_controller.go:107-153 | in such a status no two of available, degraded and progressing are true together |
| Conditions.SuccessIsStable | internal/controller/nodeswap_controller.go:134-153 | from any non-empty conditions a success sets all three, and a further one changes nothing |
| Reconciler.IsMachineConfigPoolUpdated | internal/controller/nodeswap_controller.go:307-328 | the last Updated condition is true and the last Updating and Degraded ones are not |
| Reconciler.PoolsReady | internal/controller/nodeswap_controller.go:250-280 | true exactly when every matching pool is updated |
| Reconciler.NodeSwapReconciler.ReconcileKubeletCgroups | internal/controller/nodeswap_controller.go:173-226 | reads the kubelet machine config and creates it when absent, as KubeletReconciled says; Runs.KubeletCreated and Runs.SpecOutcomeExactly say what it creates and how it ends |
| Reconciler.NodeSwapReconciler.ReconcileSpec | internal/controller/nodeswap_controller.go:228-283 | reconciles the spec as SpecReconciled says; keeps the new configurations exactly when all swaps render, and whether every matching pool is updated as soon as it has looked at the pools, even if the kubelet config then fails |
| Reconciler.NodeSwapReconciler.ReconcileStatus | internal/controller/nodeswap_controller.go:107-161 | sets the conditions one after the other and writes them once |
| Reconciler.NodeSwapReconciler.Reconcile | internal/controller/nodeswap_controller.go:77-105 | one reconcile as Reconciled says; Runs.OutcomeExactly says how it ends |
| Runs.ReconcileAllowed | internal/controller/nodeswap_controller.go:77-283 | under any interleaving and faults the operator's own steps are only creating the kubelet config where absent, for valid swaps and selector, and writing onto the very NodeSwap read the conditions that follow from those it had and from how reconciling its spec ended; a reconcile that reads no NodeSwap or panics writes nothing |
| Runs.SpecOutcomeExactly | internal/controller/nodeswap_controller.go:173-283 | unless a file section is missing, reconciling a spec is done if and only if no stage goes wrong, and otherwise fails with the error of the first that does: rendering, listing the pools, the selector, reading the kubelet config, and if it is absent its template and its creation |
| Runs.OutcomeExactly | internal/controller/nodeswap_controller.go:77-105 | under any interleaving and faults: a failed get returns its error; a NodeSwap that is not there completes; one that is read completes if and only if its spec is done and the status update is carried out and answered; a failed update is returned with the error of the spec, if it had one; else the error of the spec is |
| Runs.OutcomeTruthful | internal/controller/nodeswap_controller.go:77-161 | under any interleaving and faults, a reconcile that completes or returns the error of the spec has left the matching status on the very spec it read; no lost update is reported as success |
| Runs.RunGood | internal/controller/nodeswap_controller.go:77-283 | over any run no operator step changes or removes a machine config, creates any but the kubelet one, or touches a spec; a step that creates it gives it a rendered template as body and exactly the role label and the label of the selector of a NodeSwap that was there; and available is reported only for a valid spec, with the kubelet config there at some time while the NodeSwap was the one reported on |
| Runs.RunShaped | internal/controller/nodeswap_controller.go:107-161 | over any run of successes, failures, crashes, lost updates and edits by others the status keeps one of the four shapes |
| Runs.Converges | internal/controller/nodeswap_controller.go:77-283 | from any status and cluster, two undisturbed reconciles of a valid spec reach available, not degraded, not progressing; the machine configs are the ones before, with the kubelet one for this selector and template added if there was none; and every further reconcile leaves the server as it is |
| Runs.KubeletCreated | internal/controller/nodeswap_controller.go:173-217 | an undisturbed reconcile of a valid spec without a kubelet config adds one, and nothing else, whose body is the rendered template and whose labels are the role, worker unless the selector names it, and the key and value of the selector |
| Runs.KubeletCurrentExactly | internal/controller/nodeswap_controller.go:173-226 | after any number of undisturbed reconciles the kubelet config is the one the spec and the template call for if and only if it was before or there was none |
| Runs.OutdatedLabelStays | internal/controller/nodeswap_controller.go:173-226 | a kubelet config with another value of the selector's label keeps it for ever |
| Conditions.FailureShown | internal/controller/nodeswap_controller.go:107-133 | from any conditions an error gives degraded with the error as message, not available and not progressing, with their reasons and texts; each time changes only with its status, other types stay |
| Conditions.SuccessShown | internal/controller/nodeswap_controller.go:127-153 | a success on no conditions gives exactly the in-progress one; on others it gives available, not degraded and not progressing with their reasons and texts; each time changes only with its status, other types stay |
| Runs.CrashesExactly | internal/controller/nodeswap_controller.go:77-105 | under any interleaving and faults, a reconcile crashes if and only if the NodeSwap it reads has a file-based swap without a file section behind renderable swaps only; then no step of the operator has been taken |
| Runs.MissingFileCrashes | internal/renderconfig/config.go:51-54 | a NodeSwap with one file-based swap and no file section: the reconcile crashes and leaves everything as it is |
| Runs.InvalidSpecReported | internal/controller/nodeswap_controller.go:228-248 | undisturbed, an invalid spec creates nothing; it crashes the reconcile and leaves everything as it is exactly for a missing file section met first, and otherwise is reported as degraded |
| Runs.LostRaceIsSuccess | internal/controller/nodeswap_controller.go:211-217 | whatever others do and whichever calls fail, the spec is done only if it is valid, and then the kubelet config is there: a lost race counts as success; without faults every valid spec is done |

## Left out

* Pre-release and build metadata of versions: a version is its major, minor and patch numbers.
* The translators between single Ignition versions, `ign3.Merge`, transpiling and the YAML, JSON and
  Ignition parsers are library code: a converter holds an arbitrary translator on the content of a
  typed value, and a machine configuration is represented by the ordered texts it is made of.
* `GetSupportedMinorVersions`, `indent`, `strval` and the list of template functions.
* Only the path identifies a file and only the name a unit, as in the code; file systems and the append
  flag of files are part of their uninterpreted rest, and so are enablement and masking of units.
* Writing units to disk is done by Ignition, which is not part of this model: units and drop-ins are
  taken to be written in order, and one without contents to leave earlier contents in place, as the
  translators treat empty contents as none.
* Slices outside the converter's chains are values: that `append` in the duplicate removal may write
  into spare capacity of an input slice is not captured. The difference between nil and empty slices
  is not modelled.
* Reading directories and files and running templates: an entry is its name, its size and the outcome
  of rendering it; the nested `templates/<role>/<name>` walk above one name is not modelled.
* A quantity is its number of bytes as a signed 64-bit integer.
* The Kubernetes client, watches, caches, logging and metrics: each API call is atomic, and what other
  actors do, how calls fail, the listed pools and the time are inputs. Only the operator writes the
  status.
* The server's validation of what is created: a selector key that is no legal label is accepted here,
  so `Converges` and `LostRaceIsSuccess` assume a selector whose label the server takes.
* Error texts: errors are values that name their cause.
