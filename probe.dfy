/**
 * The host as the loader sees it during setup: the installed-mod registry
 * (ModManager.modInfos), the reflective enable query ShouldActivateMod and the
 * active-mod list. Each installed copy carries the outcome its enable query
 * would have, so the host's reflection is a plain value here.
 */
module Probe {
  import opened Wrappers

  /** The result of invoking ShouldActivateMod on one installed copy. */
  datatype EnableQuery = Ok(enabled: bool) | Throws

  /** One installed copy of a mod (local and workshop copies may share a name). */
  datatype ModInfo = ModInfo(name: string, query: EnableQuery)

  /**
   * installed: ModManager.modInfos;
   * canQuery: the reflective lookup of ShouldActivateMod found the method;
   * active: ModManager.GetCurrentActiveModList(), None when it returns null.
   */
  datatype Host = Host(installed: seq<ModInfo>, canQuery: bool, active: Option<seq<string>>)

  /** The installed copies whose name is n, in registry order. */
  function Matching(installed: seq<ModInfo>, n: string): (r: seq<ModInfo>)
    ensures |r| <= |installed|
    ensures forall m :: m in r <==> m in installed && m.name == n
  {
    if installed == [] then []
    else if installed[0].name == n then [installed[0]] + Matching(installed[1..], n)
    else Matching(installed[1..], n)
  }

  /** Some copy's enable query answered true; a query that throws counts as "not enabled". */
  predicate AnyEnabled(copies: seq<ModInfo>)
  {
    exists k :: 0 <= k < |copies| && copies[k].query == Ok(true)
  }

  predicate IsNotInstalled(installed: seq<ModInfo>, n: string)
  {
    Matching(installed, n) == []
  }

  predicate IsDisabled(installed: seq<ModInfo>, n: string)
  {
    Matching(installed, n) != [] && !AnyEnabled(Matching(installed, n))
  }

  /** The declared names with no installed copy, in declaration order (duplicates kept). */
  function NotInstalledNames(required: seq<string>, installed: seq<ModInfo>): (r: seq<string>)
    ensures |r| <= |required|
    ensures forall n :: n in r <==> n in required && IsNotInstalled(installed, n)
  {
    if required == [] then []
    else
      var last := required[|required| - 1];
      NotInstalledNames(required[..|required| - 1], installed)
        + (if IsNotInstalled(installed, last) then [last] else [])
  }

  /** The declared names installed but enabled in no copy, in declaration order. */
  function DisabledNames(required: seq<string>, installed: seq<ModInfo>): (r: seq<string>)
    ensures |r| <= |required|
    ensures forall n :: n in r <==> n in required && IsDisabled(installed, n)
  {
    if required == [] then []
    else
      var last := required[|required| - 1];
      DisabledNames(required[..|required| - 1], installed)
        + (if IsDisabled(installed, last) then [last] else [])
  }

  /** CheckAlreadyLoaded: drop every name the active-mod list contains; a null list drops nothing. */
  function Prune(missing: set<string>, active: Option<seq<string>>): (r: set<string>)
    ensures r <= missing
    ensures active.Some? ==> forall n :: n in r ==> n !in active.value
    ensures active.Some? ==> forall n :: n in missing && n !in active.value ==> n in r
    ensures active.None? ==> r == missing
  {
    match active
    case None => missing
    case Some(list) => set n | n in missing && n !in list
  }
}
