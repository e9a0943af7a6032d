/**
 * Callers' sequences of database calls, each on a fresh store, with what the
 * store's contracts let a caller conclude about the answers.
 */
module Scenarios {
  import opened Common
  import opened Settings
  import opened Plugins
  import opened Applets
  import opened Database

  /**
   * The install flag: unknown before `connect`, new right after the seeding
   * `connect`, still new after a second `connect` (which seeds nothing), and
   * established once `new_install(update=True)` has run.
   */
  method InstallLifecycle(meta: seq<Setting>)
    returns (before: Option<bool>, seeded: Option<bool>, reconnected: Option<bool>, established: Option<bool>)
    requires HasKey(meta, VersionKey)
    ensures before == None
    ensures seeded == Some(true) && reconnected == Some(true)
    ensures established == Some(false)
  {
    var db := new Store();
    before := db.NewInstall();
    var meta' := db.Connect(meta);
    SeededIsNewInstall(meta, GlobalSettings);
    seeded := db.NewInstall();
    ghost var rows := db.settings;
    var meta'' := db.Connect(meta');
    assert db.settings == rows;
    reconnected := db.NewInstall();
    EstablishedIsNotNew(db.settings.value);
    db.MarkNotNew();
    established := db.NewInstall();
  }

  /**
   * Saving a new `api_url` on a seeded store: both the settings page and the
   * raw dictionary show it, and the display items keep their text.
   */
  method SaveThenLoad(meta: seq<Setting>, url: string) returns (view: seq<Descriptor>, raw: map<string, string>)
    requires HasKey(meta, VersionKey)
    ensures |view| == 5 && view[..4] == GlobalSettings[..4]
    ensures view[4].name == Some("api_url") && view[4].value == url
    ensures "api_url" in raw && raw["api_url"] == url
  {
    var db := new Store();
    var meta' := db.Connect(meta);
    GlobalSettingsDefaults();
    ghost var seeded := db.settings.value;
    assert seeded[|meta'|] == Setting("api_url", "https://ultrasonics-api.herokuapp.com/api/");
    db.GlobalSettingsSave([SaveEntry(url, "api_url")]);
    SavedThenLoaded(seeded, url, "api_url");
    GlobalSettingsMerged(db.settings.value);
    var loaded := db.GlobalSettingsLoad();
    view := loaded.value;
    var loadedRaw := db.GlobalSettingsLoadRaw();
    raw := loadedRaw.value;
    assert Lookup(raw, "api_url") == Some(url);
  }

  /** Two versions of one plugin coexist: both are listed in creation order, and an unknown name yields the sentinel. */
  method PluginVersioning() returns (found: seq<VersionOrFalse>, missing: seq<VersionOrFalse>)
    ensures found == [Version("1.0"), Version("2.0")]
    ensures missing == [False]
  {
    var db := new Store();
    db.PluginCreateEntry("spotify", "1.0");
    db.PluginCreateEntry("spotify", "2.0");
    CreatedVersions([], "spotify", "1.0", "missing");
    CreatedVersions([PluginRow("spotify", "1.0", None)], "spotify", "2.0", "missing");
    found := db.PluginEntryExists("spotify");
    missing := db.PluginEntryExists("missing");
  }

  /** Configuring one version of a plugin leaves the other version unconfigured. */
  method PluginConfigure(s: Blob) returns (second: Option<Blob>, first: Option<Blob>)
    ensures second == Some(s) && first == None
  {
    var db := new Store();
    db.PluginCreateEntry("spotify", "1.0");
    db.PluginCreateEntry("spotify", "2.0");
    ghost var rows := db.plugins;
    assert Matches(rows[1], "spotify", "2.0") && Matches(rows[0], "spotify", "1.0");
    db.PluginUpdateEntry("spotify", "2.0", s);
    UpdateThenLoad(rows, "spotify", "2.0", s);
    UpdateKeepsOthers(rows, "spotify", "2.0", s, "spotify", "1.0");
    second := db.PluginLoadEntry("spotify", "2.0");
    first := db.PluginLoadEntry("spotify", "1.0");
  }

  /**
   * Re-creating an applet after it has run: the new plan is loaded and the
   * listing shows no `applet_lastrun`, because REPLACE dropped the old row.
   * Deleting it twice leaves nothing to load.
   */
  method AppletReplace(planA: Blob, planB: Blob, outcome: Blob)
    returns (ran: seq<AppletListing>, plan: Option<Blob>, listed: seq<AppletListing>, afterDelete: Option<Blob>)
    ensures ran == [ListingWithLastrun("a1", planA, outcome)]
    ensures plan == Some(planB)
    ensures listed == [Listing("a1", planB)]
    ensures afterDelete == None
  {
    var db := new Store();
    db.AppletCreateEntry("a1", planA);
    db.AppletUpdateLastrun("a1", outcome);
    ran := db.AppletGather();
    SingleListing(ran, db.applets, "a1");
    db.AppletCreateEntry("a1", planB);
    plan := db.AppletLoadEntry("a1");
    listed := db.AppletGather();
    SingleListing(listed, db.applets, "a1");
    db.AppletDeleteEntry("a1");
    db.AppletDeleteEntry("a1");
    afterDelete := db.AppletLoadEntry("a1");
  }

  /** Two created applets are listed once each, and updating one's last run touches only that one. */
  method AppletListingBoth(planA: Blob, planB: Blob, outcome: Blob)
    returns (listed: seq<AppletListing>, planOfA: Option<Blob>)
    ensures |listed| == 2 && Ids(listed) == {"a1", "a2"}
    ensures forall i | 0 <= i < 2 ::
      (listed[i] == if listed[i].appletId == "a1" then Listing("a1", planA) else ListingWithLastrun("a2", planB, outcome))
    ensures planOfA == Some(planA)
  {
    var db := new Store();
    db.AppletCreateEntry("a1", planA);
    db.AppletCreateEntry("a2", planB);
    db.AppletUpdateLastrun("a2", outcome);
    listed := db.AppletGather();
    assert db.applets.Keys == {"a1", "a2"};
    planOfA := db.AppletLoadEntry("a1");
  }

  /** A complete listing of a single-row table is that row's dictionary. */
  lemma SingleListing(r: seq<AppletListing>, applets: map<string, Applet>, id: string)
    requires applets.Keys == {id} && ListsExactly(r, applets)
    ensures r == [ListingOf(id, applets[id])]
  {
    ListsExactlyCount(r, applets);
  }
}
