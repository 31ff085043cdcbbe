# Dependency gate of the mod template, in Dafny

This project models the dependency loader of the ModTemplate mod
(`Core/DependencyModLoader.cs`). A mod built on it declares a list of
dependency mods by name. At setup the loader sorts those names into three
groups:

- not installed (no installed copy has that name);
- disabled (no copy's enable query answers true);
- fine.

It then takes one of these paths:

- raises a fatal notice and halts, when the host's `ShouldActivateMod` method cannot be found, or when some name is not installed;
- raises a warning, when some names are disabled, and carries on;
- drops the names that are already active;
- then creates the payload (`CreateImplementation`) at once, or subscribes to the host's `OnModActivated` event and creates it when the last outstanding name is announced.

Notices from several mods stack on screen. Each loader's slot is the position of its
name among the sorted names of the mods that carry a stacking token. A mod
keeps its token after its notice is hidden on activation (line 167), so it
still counts.

Modules:

- `Wrappers` (`wrappers.dfy`): `Option`, for the values the C# code allows to be null.
- `Probe` (`probe.dfy`): the host as seen at setup. It holds the installed copies, each with the outcome of its enable query (`Ok(bool)` or `Throws`), whether the enable query exists at all, and the active-mod list. Beside it sit the classification of declared names and the pruning step of `CheckAlreadyLoaded`.
- `Notice` (`notice.dfy`): `string.Join`, the "prefix, newline, names" message, and `GetLocalizedText` over a per-language table.
- `Stacking` (`stacking.dfy`): code-point string order, the sort, `IndexOf`, `CalculateStackIndex` and the clamp `OnGUI` applies.
- `Gate` (`gate.dfy`): two pure pieces and the `DependencyModLoader` class. The pure specification `SetupOutcome` says what setup decides, and `SetupNotice` says which notice it leaves. The class has the source's fields and one method per source method, except that `OnAfterSetup` is split: `CheckAndDecide`, `RaiseSetupNotices` and `PruneAndDecide` are consecutive pieces of its body, and `ClassifyDependencies` and `AnyCopyEnabled` are its outer and inner check loops. The module also models the host delivering events (`DeliverEvents`) and a loader's whole life (`RunLoader`).

Setup checks the active-mod list once: `CheckAlreadyLoaded` runs a single
time, at Core/DependencyModLoader.cs:129. There is no timer and no re-check
on later ticks; after setup only the `OnModActivated` event can remove an
outstanding name. The disabled warning is raised at once during setup
(lines 117-126), and a missing `ShouldActivateMod` method is fatal
(lines 56-64).

## Model

| member | source | states |
|---|---|---|
| Probe.Matching | Core/DependencyModLoader.cs:73 | the copies returned are exactly the installed copies carrying the requested name |
| Probe.NotInstalledNames | Core/DependencyModLoader.cs:70-79 | a name is listed iff it is declared and has zero installed copies |
| Probe.DisabledNames | Core/DependencyModLoader.cs:81-100 | a name is listed iff it is declared, has a copy, and no copy's enable query answers true (a throwing query counts as not enabled) |
| Probe.Prune | Core/DependencyModLoader.cs:147-154 | pruning only removes names; afterwards no outstanding name is in the active list; every outstanding name absent from it stays; a null list leaves the set unchanged |
| Notice.ListMessage | Core/DependencyModLoader.cs:110 | the message is the prefix, then a newline, then the names joined by ", " |
| Notice.JoinPlacesItem | Core/DependencyModLoader.cs:110 | in a ", "-joined list, every item stands verbatim at the offset after the earlier items and separators |
| Notice.ListMessageNamesEach | Core/DependencyModLoader.cs:110 | each listed name appears verbatim in the message after the prefix line |
| Notice.GetLocalizedText | Core/DependencyModLoader.cs:374-486 | a known key is looked up in the current language's table; an unknown key comes back unchanged |
| Stacking.SortNamesSortsAndPermutes | Core/DependencyModLoader.cs:266 | sorting gives an ascending permutation of the token names |
| Stacking.IndexOf | Core/DependencyModLoader.cs:270 | the result is -1 iff the name is absent; otherwise it is the first position holding the name |
| Stacking.TokenNames | Core/DependencyModLoader.cs:250-262 | a name is collected iff some child of the manager has that name and carries a token |
| Stacking.SortedIndexIsRank | Core/DependencyModLoader.cs:264-270 | in an ascending list, the first position of a name equals the number of names that sort strictly before it |
| Stacking.CountBelowSort | Core/DependencyModLoader.cs:266 | sorting does not change how many names sort before a given name |
| Stacking.RankInSorted | Core/DependencyModLoader.cs:264-270 | the index in the sorted list is -1 for an absent name, else its rank among the unsorted names |
| Stacking.CalculateStackIndex | Core/DependencyModLoader.cs:242-271 | 0 without a manager; -1 when this mod has no token; otherwise the number of token-carrying siblings whose names sort before this mod's name |
| Stacking.StackIndexIgnoresChildOrder | Core/DependencyModLoader.cs:250-270 | two child lists with the same children in any order give every name the same slot |
| Stacking.TokenNamesPermutation | Core/DependencyModLoader.cs:250-262 | reordering the children only reorders the collected token names |
| Stacking.CountBelowPermutation | Core/DependencyModLoader.cs:264-270 | the number of names sorting before a given name depends only on which names there are, not on their order |
| Stacking.DistinctSlots | Core/DependencyModLoader.cs:242-271 | two token-carrying siblings with different names get different slots, and the one that sorts first gets the lower slot |
| Stacking.TwoNoticesStack | Core/DependencyModLoader.cs:242-271 | mods "ModA" and "ModB" that both show a notice take slots 0 and 1 |
| Stacking.DrawSlot | Core/DependencyModLoader.cs:292-293 | OnGUI draws at the computed slot, and at slot 0 when the index is negative |
| Gate.SetupOutcomeMeaning | Core/DependencyModLoader.cs:44-145 | nothing declared activates at once; a missing enable query is fatal exactly when something is declared; not-installed is fatal exactly when some declared name has no copy and lists exactly those names; waiting keeps a non-empty subset of the declared names with none of them active; activating after pruning means every declared name was active; the disabled list is exactly the installed names enabled in no copy |
| Gate.DisabledNotice | Core/DependencyModLoader.cs:117-126 | a warning is raised iff some names are disabled, and it is never fatal |
| Gate.SetupNotice | Core/DependencyModLoader.cs:56-126 | the notice is fatal iff setup halted; there is no notice iff setup did not halt and nothing is disabled |
| Gate.MissingNotice | Core/DependencyModLoader.cs:106-114 | the not-installed notice is always fatal |
| Gate.NotInstalledNoticeListsEach | Core/DependencyModLoader.cs:106-114 | with the enable query available, setup halts on the not-installed list, and that notice's message contains every not-installed name verbatim, in declaration order after the prefix line |
| Gate.MissingLib1Scenario | Core/DependencyModLoader.cs:106-114 | one declared name "Lib1" with no installed copy gives the fatal notice "Missing Dependency" with message "Please subscribe to the following MODs:" + newline + "Lib1" under the default table |
| Gate.ClassifyDependencies | Core/DependencyModLoader.cs:66-101 | the check loop's two lists equal the not-installed and disabled names, in declaration order |
| Gate.AnyCopyEnabled | Core/DependencyModLoader.cs:82-95 | the inner loop answers true iff some copy's query answers true; a throwing query does not stop the loop |
| Gate.DependencyModLoader.constructor | Core/DependencyModLoader.cs:19-31 | a fresh loader is not loaded, shows nothing, is not subscribed, has no token and has an empty title and message |
| Gate.DependencyModLoader.OnAfterSetup | Core/DependencyModLoader.cs:38-145 | the new state is the one for SetupOutcome: loaded iff the outcome activates; subscribed iff it waits; a fatal outcome keeps every declared name outstanding; the notice fields match SetupNotice behind the "[displayName] " title prefix |
| Gate.DependencyModLoader.CheckAndDecide | Core/DependencyModLoader.cs:66-145 | with the enable query available, classification, notices, pruning and the activate-or-subscribe choice leave the state SetupOutcome prescribes |
| Gate.DependencyModLoader.RaiseSetupNotices | Core/DependencyModLoader.cs:66-126 | setup halts iff some declared name is not installed, showing the fatal list of those names; otherwise it shows the disabled warning when some name is disabled and nothing otherwise |
| Gate.DependencyModLoader.PruneAndDecide | Core/DependencyModLoader.cs:128-144 | after pruning by the active list the loader is activated once when nothing is left, else subscribed with exactly the pruned set outstanding; the notice and the declared set are untouched |
| Gate.DependencyModLoader.CheckAlreadyLoaded | Core/DependencyModLoader.cs:147-154 | the outstanding set becomes its pruning by the active list |
| Gate.DependencyModLoader.OnModActivatedHandler | Core/DependencyModLoader.cs:156-173 | no effect once loaded or for a name not outstanding (so a repeated event changes nothing); otherwise removes exactly that name; when that empties the set it hides the notice, unsubscribes and activates once |
| Gate.DependencyModLoader.TryInitImplementation | Core/DependencyModLoader.cs:175-183 | afterwards the loader is loaded, and the payload was created only if it had not been created before |
| Gate.DependencyModLoader.ShowNotification | Core/DependencyModLoader.cs:205-226 | the notice is shown and fully replaced: title "[" + displayName + "] " + title, the message, the severity; the token exists |
| Gate.DependencyModLoader.CloseNotification | Core/DependencyModLoader.cs:228-239 | hides the notice and removes the token; loaded state and outstanding set are untouched |
| Gate.DependencyModLoader.Draws | Core/DependencyModLoader.cs:276 | a drawn notice is shown, its payload is not created, and its token exists for stacking |
| Gate.DependencyModLoader.OnBeforeDeactivate | Core/DependencyModLoader.cs:489-497 | whatever the state, the notice is closed, the token removed and the handler unsubscribed, so a second call finds the same gate state; the payload is told to deactivate only when it was created |
| Gate.DeliverEvents | Core/DependencyModLoader.cs:156-173 | over any event sequence: the outstanding set only shrinks; the payload is created at most once; a loader not subscribed and not loaded never activates (fatal setup halts for good); a subscribed loader ends activated exactly when every outstanding name is announced before the first teardown (teardown unsubscribes the handler); activation implies every outstanding name was announced |
| Gate.RunLoader | Core/DependencyModLoader.cs:38-183 | over a whole life: at most one activation; none after a fatal setup; one when setup activates; with waiting, one exactly when every pending name is announced before any teardown |

## Left out

- The drawing in `OnGUI` (Core/DependencyModLoader.cs:278-371): sizes, rectangles, styles and colour values are float rendering. Only the early-return guard (`Draws`) and the clamp of a negative slot (`DrawSlot`) are modelled. The colour is the boolean `isFatal`. The initial `Color.red` is modelled as `isFatal` being true.
- The `this == null` test in the guard of `OnGUI`: it is Unity's test for a destroyed object, and object destruction is not modelled.
- The translation tables of `GetLocalizedText`: they are literal data. The current language's table is a parameter. Only the default table (the `_` arm of each key) is written out, as `DefaultTable`.
- `CurrentDomain_AssemblyResolve` and its subscription and unsubscription (lines 42, 185-202, 494): it is a runtime hook over loaded assemblies.
- Reflection: finding `ShouldActivateMod` is the flag `Host.canQuery`. Invoking it on a copy is that copy's `EnableQuery` outcome (`Ok(bool)` or `Throws`).
- Unity objects: the token object is the flag `tokenPresent`, so its identity is not modelled. `SendMessage("ManualDeactivate")` is the counter `deactivateMessages`. `CreateImplementation` is the counter `activationCount`, and its returned component is not modelled.
- `CreateImplementation` throwing: the model assumes it returns. In the code, an exception would leave `_isLoaded` false.
- `Debug.Log` calls: they are logging only.
- Event delivery by the host is an arbitrary sequence of events (`DeliverEvents`), not concurrency. C# multicast delegates allow a double subscription; the model has one flag, since setup subscribes at most once.
- `OnAfterSetup` requires a fresh loader: the host calls it once, right after creating the mod object.
- `_missingDependencies` is null until setup declares names; the model starts it as the empty set.
- Sorting: `List<string>.Sort` compares strings with the current culture's rules. The model sorts by code-point order (`Stacking.Below`), since a Dafny `char` is a Unicode scalar value. This differs from .NET's ordinal UTF-16 order only when a character outside the Basic Multilingual Plane is compared with one in U+E000–U+FFFF. Rank, uniqueness and independence from the child order are proved for the code-point order.
- `ModBehaviour.cs:9` declares `GetDependencies` with a `ModDependency[]` return type, while the loader's abstract method returns `string[]`. The model uses the string names the loader works with.
- Core/ModBehaviourImpl.cs, Patches/HarmonyHelper.cs, Core/VersionInfo.cs and ModBehaviour.cs are registration glue, patch wrappers, constants and a concrete subclass; they are not part of this model.
