/**
 * The ultrasonics database as one store that owns its three tables. Every
 * function of the database module opens its own connection, runs its SQL and
 * commits; here each is a method of `Store` that reads or reassigns the table
 * it touches.
 */
module Database {
  import opened Common
  import opened Settings
  import opened Plugins
  import opened Applets

  class Store {
    /** The `ultrasonics` table, or `None` while the table does not exist. */
    var settings: Option<seq<Setting>>
    /** The `plugins` table, rows in insertion (rowid) order. */
    var plugins: seq<PluginRow>
    /** The `applets` table, keyed by its primary key `id`. */
    var applets: map<string, Applet>

    /** A database file before `connect` has seeded anything. */
    constructor ()
      ensures settings == None && plugins == [] && applets == map[]
    {
      settings := None;
      plugins := [];
      applets := map[];
    }

    // --- GENERAL ---

    /**
     * `new_install()`: `None` when the settings table does not exist, else
     * whether the first `new_install` row holds "1".
     */
    method NewInstall() returns (r: Option<bool>)
      requires settings.Some? ==> HasKey(settings.value, NewInstallKey)
      ensures r.None? <==> settings.None?
      ensures settings.Some? ==> exists i | 0 <= i < |settings.value| ::
        && settings.value[i].key == NewInstallKey
        && (forall j | 0 <= j < i :: settings.value[j].key != NewInstallKey)
        && r == Some(settings.value[i].value == NewInstallFlag)
      ensures settings.Some? ==> r == Some(FirstValue(settings.value, NewInstallKey) == NewInstallFlag)
    {
      if settings.None? {
        return None;
      }
      var flag := FirstValue(settings.value, NewInstallKey);
      r := Some(flag == NewInstallFlag);
    }

    /** `new_install(update=True)`: every `new_install` row is set to "0"; nothing happens without the table. */
    method MarkNotNew()
      modifies this
      ensures settings == match old(settings)
        case Some(rows) => Some(SetAll(rows, NewInstallKey, EstablishedFlag))
        case None => None
      ensures plugins == old(plugins) && applets == old(applets)
    {
      if settings.Some? {
        settings := Some(SetAll(settings.value, NewInstallKey, EstablishedFlag));
      }
    }

    /**
     * The seeding part of `connect(meta)`: when `new_install()` is `None`,
     * `meta["new_install"] = True`, then the table is created and filled with
     * the metadata rows followed by one default row per configurable
     * descriptor. Returns the caller's metadata dictionary as it is afterwards.
     */
    method Connect(meta: seq<Setting>) returns (meta': seq<Setting>)
      requires settings.Some? ==> HasKey(settings.value, NewInstallKey) && HasKey(settings.value, VersionKey)
      requires settings.None? ==> HasKey(meta, VersionKey)
      modifies this
      ensures old(settings).None? ==>
        && meta' == WithKey(meta, NewInstallKey, NewInstallFlag)
        && settings == Some(Seeded(meta', GlobalSettings))
      ensures old(settings).Some? ==> meta' == meta && settings == old(settings)
      ensures settings.Some? && HasKey(settings.value, NewInstallKey) && HasKey(settings.value, VersionKey)
      ensures plugins == old(plugins) && applets == old(applets)
    {
      var state := NewInstall();
      meta' := meta;
      if state == None {
        meta' := WithKey(meta, NewInstallKey, NewInstallFlag);
        GlobalSettingsWellFormed();
        settings := Some(Seeded(meta', GlobalSettings));
        SeededIsNewInstall(meta, GlobalSettings);
      }
    }

    /** `global_settings_load(raw=True)`: the stored rows as a dictionary, a later row winning for a repeated key. */
    method GlobalSettingsLoadRaw() returns (r: Option<map<string, string>>)
      ensures r.None? <==> settings.None?
      ensures r.Some? ==> forall k :: Lookup(r.value, k) == LastValue(settings.value, k)
    {
      if settings.None? {
        return None;
      }
      var rows := settings.value;
      var data: map<string, string> := map[];
      var j := 0;
      while j < |rows|
        invariant 0 <= j <= |rows|
        invariant forall k :: Lookup(data, k) == LastValue(rows[..j], k)
      {
        assert rows[..j + 1] == rows[..j] + [rows[j]];
        forall k ensures LastValue(rows[..j + 1], k) ==
          if rows[j].key == k then Some(rows[j].value) else LastValue(rows[..j], k)
        {
          LastValueSnoc(rows[..j], rows[j], k);
        }
        data := data[rows[j].key := rows[j].value];
        j := j + 1;
      }
      assert rows[..j] == rows;
      r := Some(data);
    }

    /**
     * `global_settings_load()`: a copy of `GlobalSettings` where, for each
     * stored row whose key is a configurable name, every item with that name
     * takes the row's value.
     */
    method GlobalSettingsLoad() returns (r: Option<seq<Descriptor>>)
      ensures r.None? <==> settings.None?
      ensures r.Some? ==> WellFormed(GlobalSettings) && r.value == Merged(GlobalSettings, settings.value)
    {
      if settings.None? {
        return None;
      }
      GlobalSettingsWellFormed();
      var rows := settings.value;
      var data := GlobalSettings;
      var compatible := ConfigurableNames(data);
      var j := 0;
      assert rows[..0] == [];
      MergedEmpty(GlobalSettings);
      while j < |rows|
        invariant 0 <= j <= |rows|
        invariant data == Merged(GlobalSettings, rows[..j])
      {
        var key, value := rows[j].key, rows[j].value;
        assert rows[..j + 1] == rows[..j] + [rows[j]];
        if key in compatible {
          ghost var before := data;
          var i := 0;
          while i < |data|
            invariant 0 <= i <= |data| == |before|
            invariant forall p | 0 <= p < i :: data[p] == UpdateNamed(before, key, value)[p]
            invariant forall p | i <= p < |data| :: data[p] == before[p]
          {
            if data[i].name == Some(key) {
              data := data[i := data[i].(value := value)];
            }
            i := i + 1;
          }
          assert data == UpdateNamed(before, key, value);
          MergedSnoc(GlobalSettings, rows[..j], rows[j]);
        } else {
          MergedIgnoresForeignRow(GlobalSettings, rows[..j], rows[j]);
        }
        j := j + 1;
      }
      assert rows[..j] == rows;
      r := Some(data);
    }

    /**
     * `global_settings_save(entries)`: `executemany` runs the UPDATE once per
     * tuple, in order; a key with no row matches nothing, so no row is ever
     * inserted.
     */
    method GlobalSettingsSave(entries: seq<SaveEntry>)
      modifies this
      ensures settings == match old(settings)
        case Some(rows) => Some(Saved(rows, entries))
        case None => None
      ensures plugins == old(plugins) && applets == old(applets)
    {
      if settings.None? {
        return;
      }
      ghost var rows := settings.value;
      var j := 0;
      assert Saved(rows, entries[..0]) == rows;
      while j < |entries|
        invariant 0 <= j <= |entries|
        invariant settings == Some(Saved(rows, entries[..j]))
        invariant plugins == old(plugins) && applets == old(applets)
      {
        assert entries[..j + 1] == entries[..j] + [entries[j]];
        SavedSnoc(rows, entries[..j], entries[j]);
        settings := Some(SetAll(settings.value, entries[j].key, entries[j].value));
        j := j + 1;
      }
      assert entries[..j] == entries;
    }

    // --- PLUGINS ---

    /** `plugin_create_entry`: appends a row with NULL settings, duplicates included. */
    method PluginCreateEntry(name: string, version: string)
      modifies this
      ensures plugins == old(plugins) + [PluginRow(name, version, None)]
      ensures settings == old(settings) && applets == old(applets)
    {
      plugins := plugins + [PluginRow(name, version, None)];
    }

    /** `plugin_update_entry`: every row matching both name and version takes the settings; no match is no error. */
    method PluginUpdateEntry(name: string, version: string, s: Blob)
      modifies this
      ensures |plugins| == |old(plugins)|
      ensures forall i | 0 <= i < |plugins| ::
        plugins[i] == if Matches(old(plugins)[i], name, version)
                      then old(plugins)[i].(settings := Some(s)) else old(plugins)[i]
      ensures plugins == Updated(old(plugins), name, version, s)
      ensures settings == old(settings) && applets == old(applets)
    {
      plugins := Updated(plugins, name, version, s);
    }

    /** `plugin_entry_exists`: the versions of the rows named `name` in row order, or `[False]` for none. */
    method PluginEntryExists(name: string) returns (r: seq<VersionOrFalse>)
      ensures r == Found(VersionsOf(plugins, name))
      ensures r == [False] <==> forall i | 0 <= i < |plugins| :: plugins[i].name != name
    {
      var versions: seq<string> := [];
      var i := 0;
      while i < |plugins|
        invariant 0 <= i <= |plugins|
        invariant versions == VersionsOf(plugins[..i], name)
      {
        assert plugins[..i + 1][..i] == plugins[..i];
        if plugins[i].name == name {
          versions := versions + [plugins[i].version];
        }
        i := i + 1;
      }
      assert plugins[..i] == plugins;
      VersionsOfEmpty(plugins, name);
      if |versions| > 0 {
        r := Found(versions);
        assert r[0] != False;
      } else {
        r := [False];
      }
    }

    /** `plugin_load_entry`: the settings of the first row matching name and version; NULL stays `None`. */
    method PluginLoadEntry(name: string, version: string) returns (r: Option<Blob>)
      requires HasEntry(plugins, name, version)
      ensures r == FirstSettings(plugins, name, version)
    {
      r := FirstSettings(plugins, name, version);
    }

    // --- APPLETS ---

    /** `applet_gather`: one dictionary per row, carrying `applet_lastrun` exactly when it is not NULL. */
    method AppletGather() returns (r: seq<AppletListing>)
      ensures ListsExactly(r, applets)
      ensures |r| == |applets|
      ensures forall i | 0 <= i < |r| ::
        r[i].ListingWithLastrun? <==> applets[r[i].appletId].lastrun.Some?
    {
      r := [];
      var remaining := applets.Keys;
      while remaining != {}
        invariant remaining <= applets.Keys
        invariant forall i | 0 <= i < |r| ::
          r[i].appletId in applets && r[i].appletId !in remaining &&
          r[i] == ListingOf(r[i].appletId, applets[r[i].appletId])
        invariant forall i, j | 0 <= i < j < |r| :: r[i].appletId != r[j].appletId
        invariant forall id | id in applets && id !in remaining :: exists i | 0 <= i < |r| :: r[i].appletId == id
        decreases remaining
      {
        var id :| id in remaining;
        ghost var prev := r;
        r := r + [ListingOf(id, applets[id])];
        assert forall i | 0 <= i < |prev| :: r[i] == prev[i];
        assert r[|prev|].appletId == id;
        remaining := remaining - {id};
      }
      ListsExactlyCount(r, applets);
    }

    /**
     * `applet_create_entry`: `REPLACE INTO applets(id, data)` deletes any row
     * with this id and inserts a new one, so `lastrun` is NULL afterwards even
     * when the old row had one.
     */
    method AppletCreateEntry(id: string, data: Blob)
      modifies this
      ensures applets == old(applets)[id := Applet(data, None)]
      ensures settings == old(settings) && plugins == old(plugins)
    {
      applets := (applets - {id})[id := Applet(data, None)];
    }

    /** `applet_load_entry`: the plan of the row with this id, or `None` when there is none. */
    method AppletLoadEntry(id: string) returns (r: Option<Blob>)
      ensures r.None? <==> id !in applets
      ensures id in applets ==> r == Some(applets[id].data)
    {
      if id !in applets {
        return None;
      }
      r := Some(applets[id].data);
    }

    /** `applet_delete_entry`: removes the row with this id, if any. */
    method AppletDeleteEntry(id: string)
      modifies this
      ensures applets == old(applets) - {id}
      ensures settings == old(settings) && plugins == old(plugins)
    {
      applets := applets - {id};
    }

    /** `applet_update_lastrun`: sets only the `lastrun` of the row with this id; no row, no change. */
    method AppletUpdateLastrun(id: string, outcome: Blob)
      modifies this
      ensures id in old(applets) ==>
        applets == old(applets)[id := Applet(old(applets)[id].data, Some(outcome))]
      ensures id !in old(applets) ==> applets == old(applets)
      ensures settings == old(settings) && plugins == old(plugins)
    {
      if id in applets {
        applets := applets[id := applets[id].(lastrun := Some(outcome))];
      }
    }
  }
}
