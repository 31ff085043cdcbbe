/**
 * The dependency gate of one mod: setup classifies the declared dependencies,
 * prunes those already active, and either activates the payload at once,
 * halts with a fatal notice, or subscribes to the host's "mod activated"
 * event and activates when the last outstanding dependency arrives.
 */
module Gate {
  import opened Wrappers
  import opened Probe
  import opened Notice
  import opened Stacking

  /** What setup decides for a declared list and a host. */
  datatype Outcome =
    | ActivateNow(disabled: seq<string>)          // nothing outstanding after pruning (or nothing declared)
    | ApiUnavailable                              // ShouldActivateMod could not be found: fatal
    | NotInstalled(names: seq<string>)            // some declared names have no installed copy: fatal
    | Waiting(pending: set<string>, disabled: seq<string>)  // subscribed until `pending` is active

  /** A notice as setup raises it: the title before the display-name prefix, the message and the severity. */
  datatype Note = Note(title: string, message: string, fatal: bool)

  function DeclaredSet(required: Option<seq<string>>): set<string>
  {
    if required.None? then {} else set n | n in required.value
  }

  predicate NothingDeclared(required: Option<seq<string>>)
  {
    required.None? || |required.value| == 0
  }

  /** The decision OnAfterSetup takes, as a function of its inputs. */
  function SetupOutcome(required: Option<seq<string>>, host: Host): Outcome
  {
    if NothingDeclared(required) then ActivateNow([])
    else if !host.canQuery then ApiUnavailable
    else
      var req := required.value;
      var absent := NotInstalledNames(req, host.installed);
      var off := DisabledNames(req, host.installed);
      if |absent| > 0 then NotInstalled(absent)
      else
        var pending := Prune(DeclaredSet(required), host.active);
        if pending == {} then ActivateNow(off) else Waiting(pending, off)
  }

  /**
   * What the decision means: nothing declared activates at once; a missing
   * enable query is fatal; not-installed is fatal exactly when some declared
   * name has no copy and lists exactly those; waiting keeps a non-empty
   * subset of the declared names, none of them active; activating after
   * pruning means every declared name was active; the warning lists exactly
   * the installed names enabled in no copy.
   */
  lemma SetupOutcomeMeaning(required: Option<seq<string>>, host: Host)
    ensures var o := SetupOutcome(required, host);
      && (NothingDeclared(required) ==> o == ActivateNow([]))
      && (o.ApiUnavailable? <==> !NothingDeclared(required) && !host.canQuery)
      && (o.NotInstalled? <==>
            !NothingDeclared(required) && host.canQuery &&
            exists n :: n in required.value && IsNotInstalled(host.installed, n))
      && (o.NotInstalled? ==> forall n :: n in o.names <==> n in required.value && IsNotInstalled(host.installed, n))
      && (o.Waiting? ==> o.pending != {} && o.pending <= DeclaredSet(required))
      && (o.Waiting? && host.active.Some? ==> forall n :: n in o.pending ==> n !in host.active.value)
      && (o.ActivateNow? && !NothingDeclared(required) ==>
            host.active.Some? && forall n :: n in required.value ==> n in host.active.value)
      && ((o.ActivateNow? || o.Waiting?) && !NothingDeclared(required) ==>
            forall n :: n in o.disabled <==> n in required.value && IsDisabled(host.installed, n))
  {
    if !NothingDeclared(required) && host.canQuery {
      var req := required.value;
      var absent := NotInstalledNames(req, host.installed);
      assert |absent| > 0 ==> absent[0] in absent;
      assert req[0] in DeclaredSet(required);
    }
  }

  /** The warning for installed-but-disabled names, if there are any. */
  function DisabledNotice(disabled: seq<string>, table: string -> string): (r: Option<Note>)
    ensures r.None? <==> disabled == []
    ensures r.Some? ==> !r.value.fatal
  {
    if |disabled| > 0 then
      Some(Note(GetLocalizedText(table, "DISABLED_TITLE"), ListMessage(GetLocalizedText(table, "DISABLED_MSG"), disabled), false))
    else None
  }

  /** The fatal notice listing the names with no installed copy. */
  function MissingNotice(names: seq<string>, table: string -> string): (r: Note)
    ensures r.fatal
  {
    Note(GetLocalizedText(table, "MISSING_TITLE"), ListMessage(GetLocalizedText(table, "MISSING_MSG"), names), true)
  }

  /** The notice setup leaves showing; `table` is the current language's table. */
  function SetupNotice(o: Outcome, table: string -> string): (r: Option<Note>)
    ensures r.Some? && r.value.fatal <==> o.ApiUnavailable? || o.NotInstalled?
    ensures r.None? <==> (o.ActivateNow? || o.Waiting?) && o.disabled == []
  {
    match o
    case ApiUnavailable =>
      Some(Note(GetLocalizedText(table, "API_ERR_TITLE"), GetLocalizedText(table, "API_ERR_MSG"), true))
    case NotInstalled(names) => Some(MissingNotice(names, table))
    case ActivateNow(disabled) => DisabledNotice(disabled, table)
    case Waiting(_, disabled) => DisabledNotice(disabled, table)
  }

  /** Helper for the proofs below: the not-installed branch of SetupOutcome. */
  lemma HaltsOnNotInstalled(required: seq<string>, host: Host)
    requires host.canQuery && |NotInstalledNames(required, host.installed)| > 0
    ensures SetupOutcome(Some(required), host) == NotInstalled(NotInstalledNames(required, host.installed))
  {
  }

  /** Helper for the proofs below: the prune-then-decide branch of SetupOutcome. */
  lemma DecidesOnPruned(required: seq<string>, host: Host)
    requires |required| > 0 && host.canQuery && NotInstalledNames(required, host.installed) == []
    ensures var pending := Prune(DeclaredSet(Some(required)), host.active);
      var off := DisabledNames(required, host.installed);
      SetupOutcome(Some(required), host) == if pending == {} then ActivateNow(off) else Waiting(pending, off)
  {
  }

  /**
   * The fatal not-installed notice names every missing dependency, in
   * declaration order: the i-th not-installed name stands verbatim in the
   * message after the prefix line, at its place in the ", "-joined list.
   */
  lemma NotInstalledNoticeListsEach(required: seq<string>, host: Host, table: string -> string, i: nat)
    requires host.canQuery
    requires i < |NotInstalledNames(required, host.installed)|
    ensures var names := NotInstalledNames(required, host.installed);
      SetupOutcome(Some(required), host) == NotInstalled(names) &&
      var msg := SetupNotice(NotInstalled(names), table).value.message;
      var at := |GetLocalizedText(table, "MISSING_MSG")| + 1 + JoinOffset(names, ", ", i);
      at + |names[i]| <= |msg| && msg[at..at + |names[i]|] == names[i]
  {
    var names := NotInstalledNames(required, host.installed);
    HaltsOnNotInstalled(required, host);
    var prefix := GetLocalizedText(table, "MISSING_MSG");
    assert SetupNotice(NotInstalled(names), table).value.message == ListMessage(prefix, names);
    ListMessageNamesEach(prefix, names, i);
  }

  /** A single missing dependency "Lib1" under the default table gives the fatal notice naming it. */
  lemma MissingLib1Scenario()
    ensures var host := Host([], true, Some([]));
      SetupOutcome(Some(["Lib1"]), host) == NotInstalled(["Lib1"]) &&
      SetupNotice(NotInstalled(["Lib1"]), DefaultTable) ==
        Some(Note("Missing Dependency", "Please subscribe to the following MODs:\nLib1", true))
  {
    var req := ["Lib1"];
    assert req[..0] == [];
    assert NotInstalledNames(req, []) == ["Lib1"];
    assert Join(["Lib1"], ", ") == "Lib1";
    assert DefaultTable("MISSING_TITLE") == "Missing Dependency";
    assert DefaultTable("MISSING_MSG") == "Please subscribe to the following MODs:";
    assert "MISSING_TITLE" in Keys && "MISSING_MSG" in Keys;
    assert GetLocalizedText(DefaultTable, "MISSING_TITLE") == "Missing Dependency";
    assert GetLocalizedText(DefaultTable, "MISSING_MSG") == "Please subscribe to the following MODs:";
    assert ListMessage("Please subscribe to the following MODs:", ["Lib1"]) == "Please subscribe to the following MODs:\nLib1";
  }

  /**
   * The check loop of setup: walks the declared names in order and collects
   * those with no installed copy and those installed but enabled in no copy.
   */
  method ClassifyDependencies(req: seq<string>, installed: seq<ModInfo>)
    returns (notInstalledList: seq<string>, disabledList: seq<string>)
    ensures notInstalledList == NotInstalledNames(req, installed)
    ensures disabledList == DisabledNames(req, installed)
  {
    notInstalledList, disabledList := [], [];
    var i := 0;
    while i < |req|
      invariant 0 <= i <= |req|
      invariant notInstalledList == NotInstalledNames(req[..i], installed)
      invariant disabledList == DisabledNames(req[..i], installed)
    {
      var reqName := req[i];
      assert req[..i + 1][..i] == req[..i];
      var matchingMods := Matching(installed, reqName);
      if |matchingMods| == 0 {
        notInstalledList := notInstalledList + [reqName];
      } else {
        var isAnyEnabled := AnyCopyEnabled(matchingMods);
        if !isAnyEnabled {
          disabledList := disabledList + [reqName];
        }
      }
      i := i + 1;
    }
    assert req[..i] == req;
  }

  /**
   * The inner loop: asks each copy in turn and stops at the first that
   * answers true; a query that throws is swallowed and the loop goes on.
   */
  method AnyCopyEnabled(matchingMods: seq<ModInfo>) returns (isAnyEnabled: bool)
    ensures isAnyEnabled <==> AnyEnabled(matchingMods)
  {
    isAnyEnabled := false;
    var j := 0;
    while j < |matchingMods|
      invariant 0 <= j <= |matchingMods|
      invariant !isAnyEnabled
      invariant forall k :: 0 <= k < j ==> matchingMods[k].query != Ok(true)
    {
      match matchingMods[j].query {
        case Ok(enabled) =>
          if enabled {
            isAnyEnabled := true;
            break;
          }
        case Throws =>
          // the exception is swallowed: this copy counts as not enabled
      }
      j := j + 1;
    }
  }

  /** One event delivered by the host to a loader. */
  datatype HostEvent =
    | ModActivated(name: string)   // ModManager.OnModActivated for the mod with this name
    | NoticeClicked                // the player clicks the notice box drawn by OnGUI
    | Deactivate                   // the host calls OnBeforeDeactivate

  /** The position of the first teardown in an event sequence, or its length when there is none. */
  function FirstDeactivate(events: seq<HostEvent>): (k: nat)
    ensures k <= |events|
    ensures Deactivate !in events[..k]
    ensures k < |events| ==> events[k] == Deactivate
  {
    if events == [] || events[0] == Deactivate then 0
    else
      var k := 1 + FirstDeactivate(events[1..]);
      assert events[..k] == [events[0]] + events[1..][..k - 1];
      k
  }

  /** The declared names among `names` that no ModActivated event in `events` announces. */
  ghost function Unannounced(names: set<string>, events: seq<HostEvent>): set<string>
  {
    set n | n in names && ModActivated(n) !in events
  }

  class DependencyModLoader {
    /** The mod's object name, the key of the stacking order. */
    const name: string
    const displayName: string

    var missing: set<string>
    var isLoaded: bool
    var showUI: bool
    var title: string
    var message: string
    /** The notice colour: red for a fatal notice, orange for a warning. */
    var isFatal: bool
    /** The stacking token object exists under this mod's object. */
    var tokenPresent: bool
    /** OnModActivatedHandler is subscribed to ModManager.OnModActivated. */
    var subscribed: bool
    /** How many times CreateImplementation ran. */
    var activationCount: nat
    /** How many times "ManualDeactivate" was sent to the payload. */
    var deactivateMessages: nat
    /** The declared names, as setup stored them in the missing set. */
    ghost var declared: set<string>

    ghost predicate Valid()
      reads this
    {
      && activationCount <= 1
      && (isLoaded <==> activationCount == 1)
      && missing <= declared
      && (subscribed ==> !isLoaded && missing != {})
      && (showUI ==> tokenPresent)
      && (deactivateMessages > 0 ==> isLoaded)
    }

    ghost predicate Initial()
      reads this
    {
      && !isLoaded && !showUI && !subscribed && !tokenPresent
      && activationCount == 0 && deactivateMessages == 0
      && missing == {} && declared == {}
      && title == "" && message == "" && isFatal
    }

    constructor (name: string, displayName: string)
      ensures this.name == name && this.displayName == displayName
      ensures Initial() && Valid()
    {
      this.name := name;
      this.displayName := displayName;
      missing := {};
      isLoaded := false;
      showUI := false;
      title := "";
      message := "";
      isFatal := true;
      tokenPresent := false;
      subscribed := false;
      activationCount := 0;
      deactivateMessages := 0;
      declared := {};
    }

    /**
     * The state setup leaves for outcome `o`, showing `note`: activated
     * exactly for ActivateNow, subscribed exactly for Waiting, and a fatal
     * outcome keeps every declared name outstanding.
     */
    ghost predicate SetUpAs(o: Outcome, note: Option<Note>, names: set<string>)
      reads this
    {
      && declared == names
      && isLoaded == o.ActivateNow?
      && activationCount == (if o.ActivateNow? then 1 else 0)
      && subscribed == o.Waiting?
      && missing == (match o case ActivateNow(_) => {} case Waiting(p, _) => p case _ => names)
      && deactivateMessages == 0
      && NoticeShows(note)
    }

    /** The notice fields show `note` (behind the display-name prefix), or the initial empty notice when there is none. */
    ghost predicate NoticeShows(note: Option<Note>)
      reads this
    {
      && showUI == note.Some? && tokenPresent == note.Some?
      && (note.Some? ==> title == "[" + displayName + "] " + note.value.title
                         && message == note.value.message && isFatal == note.value.fatal)
      && (note.None? ==> title == "" && message == "" && isFatal)
    }

    /**
     * OnAfterSetup, called once by the host on a fresh loader. `required` is
     * GetDependencies() (None for null), `table` the current language's table.
     */
    method OnAfterSetup(required: Option<seq<string>>, host: Host, table: string -> string)
      requires Initial()
      modifies this
      ensures Valid()
      ensures SetUpAs(SetupOutcome(required, host), SetupNotice(SetupOutcome(required, host), table), DeclaredSet(required))
    {
      if required.None? || |required.value| == 0 {
        TryInitImplementation();
        assert SetupOutcome(required, host) == ActivateNow([]);
        return;
      }
      var req := required.value;
      missing := set n | n in req;
      declared := missing;

      if !host.canQuery {
        ShowNotification(GetLocalizedText(table, "API_ERR_TITLE"), GetLocalizedText(table, "API_ERR_MSG"), true);
        assert SetupOutcome(required, host) == ApiUnavailable;
        return;
      }

      CheckAndDecide(req, host, table);
    }

    /**
     * The rest of OnAfterSetup once the enable query is available: classify
     * the declared names and raise the notices, then, unless setup halts,
     * prune the names already active and activate or subscribe.
     */
    method CheckAndDecide(req: seq<string>, host: Host, table: string -> string)
      requires |req| > 0 && host.canQuery
      requires Valid() && !isLoaded && !showUI && !subscribed && !tokenPresent
      requires activationCount == 0 && deactivateMessages == 0
      requires missing == declared == DeclaredSet(Some(req))
      requires title == "" && message == "" && isFatal
      modifies this
      ensures Valid()
      ensures SetUpAs(SetupOutcome(Some(req), host), SetupNotice(SetupOutcome(Some(req), host), table), DeclaredSet(Some(req)))
    {
      var halt := RaiseSetupNotices(req, host.installed, table);
      if halt {
        HaltsOnNotInstalled(req, host);
        return;
      }
      DecidesOnPruned(req, host);
      ghost var off := DisabledNames(req, host.installed);
      PruneAndDecide(host.active, off, DisabledNotice(off, table));
    }

    /**
     * The check loop and the notices it leads to: the fatal not-installed
     * notice (and a halt), else the disabled warning when there is one.
     */
    method RaiseSetupNotices(req: seq<string>, installed: seq<ModInfo>, table: string -> string) returns (halt: bool)
      requires Valid() && !showUI && !tokenPresent && title == "" && message == "" && isFatal
      modifies this`showUI, this`title, this`message, this`isFatal, this`tokenPresent
      ensures Valid()
      ensures halt <==> NotInstalledNames(req, installed) != []
      ensures halt ==> NoticeShows(Some(MissingNotice(NotInstalledNames(req, installed), table)))
      ensures !halt ==> NoticeShows(DisabledNotice(DisabledNames(req, installed), table))
    {
      var notInstalledList, disabledList := ClassifyDependencies(req, installed);

      if |notInstalledList| > 0 {
        ShowNotification(GetLocalizedText(table, "MISSING_TITLE"),
                         ListMessage(GetLocalizedText(table, "MISSING_MSG"), notInstalledList), true);
        return true;
      }

      if |disabledList| > 0 {
        ShowNotification(GetLocalizedText(table, "DISABLED_TITLE"),
                         ListMessage(GetLocalizedText(table, "DISABLED_MSG"), disabledList), false);
      }
      return false;
    }

    /**
     * The end of setup: prune the names already active, then activate if
     * none is left, else subscribe; `off` is the disabled list and `note`
     * the notice already showing, both of which it leaves as they are.
     */
    method PruneAndDecide(active: Option<seq<string>>, ghost off: seq<string>, ghost note: Option<Note>)
      requires Valid() && !isLoaded && !subscribed
      requires activationCount == 0 && deactivateMessages == 0
      requires missing == declared
      requires NoticeShows(note)
      modifies this`missing, this`isLoaded, this`activationCount, this`subscribed
      ensures Valid()
      ensures var pending := Prune(old(missing), active);
        SetUpAs(if pending == {} then ActivateNow(off) else Waiting(pending, off), note, old(missing))
    {
      CheckAlreadyLoaded(active);
      if missing == {} {
        TryInitImplementation();
      } else {
        subscribed := true;
      }
    }

    /** CheckAlreadyLoaded: removes every outstanding name the active-mod list contains; a null list removes nothing. */
    method CheckAlreadyLoaded(active: Option<seq<string>>)
      requires Valid() && !subscribed
      modifies this`missing
      ensures Valid()
      ensures missing == Prune(old(missing), active)
    {
      if active.Some? {
        missing := set n | n in missing && n !in active.value;
      }
    }

    /**
     * OnModActivatedHandler: removes the activated mod's name from the
     * outstanding set; when that empties the set, hides the notice,
     * unsubscribes and activates.
     */
    method OnModActivatedHandler(activated: string)
      requires Valid()
      modifies this`missing, this`showUI, this`subscribed, this`isLoaded, this`activationCount
      ensures Valid()
      ensures old(isLoaded) || activated !in old(missing) ==> unchanged(this)
      ensures !old(isLoaded) && activated in old(missing) ==> missing == old(missing) - {activated}
      ensures !old(isLoaded) && activated in old(missing) && missing == {} ==>
        !showUI && !subscribed && isLoaded && activationCount == old(activationCount) + 1
      ensures !old(isLoaded) && activated in old(missing) && missing != {} ==>
        showUI == old(showUI) && subscribed == old(subscribed) && !isLoaded && activationCount == old(activationCount)
    {
      if isLoaded {
        return;
      }
      if activated in missing {
        missing := missing - {activated};
        if missing == {} {
          showUI := false;
          subscribed := false;
          TryInitImplementation();
        }
      }
    }

    /** TryInitImplementation: runs CreateImplementation unless it already ran. */
    method TryInitImplementation()
      requires Valid() && !subscribed
      modifies this`isLoaded, this`activationCount
      ensures Valid()
      ensures isLoaded
      ensures activationCount == if old(isLoaded) then old(activationCount) else old(activationCount) + 1
    {
      if isLoaded {
        return;
      }
      activationCount := activationCount + 1;
      isLoaded := true;
    }

    /** ShowNotification: replaces the notice and makes sure the stacking token exists. */
    method ShowNotification(t: string, msg: string, fatal: bool)
      requires Valid()
      modifies this`showUI, this`title, this`message, this`isFatal, this`tokenPresent
      ensures Valid()
      ensures showUI && tokenPresent
      ensures title == "[" + displayName + "] " + t && message == msg && isFatal == fatal
    {
      showUI := true;
      title := "[" + displayName + "] " + t;
      message := msg;
      isFatal := fatal;
      if !tokenPresent {
        tokenPresent := true;
      }
    }

    /** CloseNotification: hides the notice and destroys the token; gating is not affected. */
    method CloseNotification()
      requires Valid()
      modifies this`showUI, this`tokenPresent
      ensures Valid()
      ensures !showUI && !tokenPresent
    {
      showUI := false;
      if tokenPresent {
        tokenPresent := false;
      }
    }

    /** The early return of OnGUI: a notice is drawn only while shown and before activation. */
    predicate Draws()
      reads this
      requires Valid()
      ensures Draws() ==> tokenPresent && activationCount == 0
    {
      showUI && !isLoaded
    }

    /**
     * OnBeforeDeactivate: closes the notice and unsubscribes whatever the
     * state; the payload is told to deactivate only when it was created.
     * A second call finds the notice closed and the handler unsubscribed.
     */
    method OnBeforeDeactivate()
      requires Valid()
      modifies this`showUI, this`tokenPresent, this`subscribed, this`deactivateMessages
      ensures Valid()
      ensures !showUI && !tokenPresent && !subscribed
      ensures deactivateMessages == old(deactivateMessages) + (if isLoaded then 1 else 0)
    {
      CloseNotification();
      subscribed := false;
      if isLoaded {
        deactivateMessages := deactivateMessages + 1;
      }
    }
  }

  /**
   * The host after setup: each event reaches the loader the way the host
   * delivers it. OnModActivated reaches the handler only while it is
   * subscribed, and a click reaches CloseNotification only while OnGUI draws
   * the notice.
   */
  method DeliverEvents(loader: DependencyModLoader, events: seq<HostEvent>)
    requires loader.Valid()
    modifies loader
    ensures loader.Valid()
    ensures loader.declared == old(loader.declared)
    ensures loader.missing <= old(loader.missing)
    ensures old(loader.activationCount) <= loader.activationCount <= 1
    ensures !old(loader.subscribed) && !old(loader.isLoaded) ==> !loader.isLoaded
    ensures loader.isLoaded && !old(loader.isLoaded) ==>
      forall n :: n in old(loader.missing) ==> ModActivated(n) in events
    ensures (old(loader.subscribed) && Deactivate !in events &&
             forall n :: n in old(loader.missing) ==> ModActivated(n) in events) ==> loader.isLoaded
    ensures old(loader.subscribed) ==>
      (loader.isLoaded <==>
         forall n :: n in old(loader.missing) ==> ModActivated(n) in events[..FirstDeactivate(events)])
  {
    ghost var k := FirstDeactivate(events);
    var i := 0;
    while i < |events|
      invariant 0 <= i <= |events|
      invariant loader.Valid()
      invariant loader.declared == old(loader.declared)
      invariant loader.missing <= old(loader.missing)
      invariant old(loader.activationCount) <= loader.activationCount
      invariant !old(loader.subscribed) && !old(loader.isLoaded) ==> !loader.subscribed && !loader.isLoaded
      invariant loader.isLoaded && !old(loader.isLoaded) ==> loader.missing == {}
      invariant forall n :: n in old(loader.missing) && n !in loader.missing ==> ModActivated(n) in events[..i]
      invariant old(loader.subscribed) && Deactivate !in events[..i] ==> loader.isLoaded || loader.subscribed
      invariant old(loader.subscribed) && Deactivate !in events[..i] && !loader.isLoaded ==>
        forall n :: ModActivated(n) in events[..i] ==> n !in loader.missing
      invariant i > k ==> !loader.subscribed
      invariant old(loader.subscribed) && i <= k && !loader.isLoaded ==> loader.subscribed
      invariant old(loader.subscribed) && !loader.isLoaded ==>
        loader.missing == Unannounced(old(loader.missing), events[..Min(i, k)]) != {}
      invariant old(loader.subscribed) && loader.isLoaded ==>
        Unannounced(old(loader.missing), events[..Min(i, k)]) == {}
    {
      assert events[..i + 1] == events[..i] + [events[i]];
      assert i < k ==> events[..Min(i + 1, k)] == events[..Min(i, k)] + [events[i]];
      match events[i] {
        case ModActivated(n) =>
          if loader.subscribed {
            loader.OnModActivatedHandler(n);
          }
        case NoticeClicked =>
          if loader.Draws() {
            loader.CloseNotification();
          }
        case Deactivate =>
          loader.OnBeforeDeactivate();
      }
      i := i + 1;
    }
    assert events[..i] == events;
    if old(loader.subscribed) {
      ghost var u := Unannounced(old(loader.missing), events[..k]);
      assert Min(i, k) == k;
      if forall n :: n in old(loader.missing) ==> ModActivated(n) in events[..k] {
        assert u == {};
      } else {
        var n :| n in old(loader.missing) && ModActivated(n) !in events[..k];
        assert n in u;
      }
    }
  }

  function Min(a: int, b: int): (m: int)
    ensures m <= a && m <= b && (m == a || m == b)
  {
    if a < b then a else b
  }

  /**
   * A loader's whole life: constructed, set up once by the host, then
   * driven by an arbitrary sequence of host events. The payload is created
   * at most once, never after a fatal setup, at setup when nothing is
   * outstanding, and otherwise exactly when every pending name has been
   * announced before any teardown.
   */
  method RunLoader(name: string, displayName: string, required: Option<seq<string>>, host: Host,
                   table: string -> string, events: seq<HostEvent>)
    returns (loader: DependencyModLoader)
    ensures loader.Valid() && loader.activationCount <= 1
    ensures var o := SetupOutcome(required, host);
      (o.ApiUnavailable? || o.NotInstalled?) ==> loader.activationCount == 0
    ensures SetupOutcome(required, host).ActivateNow? ==> loader.activationCount == 1
    ensures var o := SetupOutcome(required, host);
      o.Waiting? ==>
        (loader.activationCount == 1 <==>
           forall n :: n in o.pending ==> ModActivated(n) in events[..FirstDeactivate(events)])
  {
    loader := new DependencyModLoader(name, displayName);
    loader.OnAfterSetup(required, host, table);
    DeliverEvents(loader, events);
  }
}
