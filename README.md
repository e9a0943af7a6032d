# ultrasonics database, modelled in Dafny

ultrasonics chains plugins into scheduled "applets". Its database module
(`ultrasonics/database.py`) is a thin SQLite layer over three tables:

- `ultrasonics`: the global settings, stored as `(key, value)` rows. It holds the process
  metadata (`version`), the install flag (`new_install`) and one row for each
  configurable item of the settings page.
- `plugins`: `(plugin, version, settings)` rows with no uniqueness constraint.
- `applets`: `(id, lastrun, data)` rows keyed by `id`.

This project models that layer as one class, `Database.Store`. Its fields are the
three tables:

- `settings: Option<seq<Setting>>`, which is `None` while the table does not exist;
- `plugins: seq<PluginRow>`;
- `applets: map<string, Applet>`.

Each database function becomes a method of the class. A method either reads the
fields or reassigns the table its SQL statement touches. Its contract states the
whole new state, or what it returns, in terms of specification functions:

- `Settings.LastValue`, `Settings.FirstValue`, `Settings.Merged`, `Settings.Saved`
  and `Settings.Defaults` describe the settings table;
- `Plugins.VersionsOf`, `Plugins.Updated` and `Plugins.FirstSettings` describe the plugins table;
- `Applets.ListingOf` and `Applets.ListsExactly` describe the listing of the applets table.

Lemmas prove what those functions promise. The `Scenarios` module drives fresh
stores through the call sequences the database supports. It shows what a caller
can conclude from the contracts alone.

Files:

- `common.dfy` (module `Common`): `Option` and `Blob`. A `Blob` is an opaque serialised value.
- `settings.dfy` (module `Settings`): the settings rows and the schema descriptors,
  the shipped `GlobalSettings` schema, seeding, the non-raw merge and saving.
- `plugins.dfy` (module `Plugins`): plugin rows, the version lookup with its `[False]`
  sentinel, the update, and the first-match load.
- `applets.dfy` (module `Applets`): applet rows and the dictionaries `applet_gather` builds.
- `database.dfy` (module `Database`): the class `Store`, one method per database function.
- `scenarios.dfy` (module `Scenarios`): call sequences on fresh stores.

Modelling choices:

- Keys, values, plugin names, versions and applet ids are strings. That is how
  the stored `True` reads back as `"1"` and the `0` written by the update reads
  back as `"0"`.
- Plugin settings, applet plans and applet outcomes are `Blob`s. They are stored
  and returned unchanged, so the model assumes `ast.literal_eval(str(v)) == v`.
- The settings and plugins rows are read back in insertion (rowid) order,
  the order a plain table scan yields for these tables; the model assumes it
  for their `SELECT`s without `ORDER BY`. The applets table is a map, which
  states no order.
- `global_settings_save` binds each tuple positionally to
  `SET value = ? WHERE key = ?`, so a tuple is `(value, key)`. The model's
  `SaveEntry(value, key)` keeps that order.
- `global_settings_load` updates every item whose `name` equals a stored key,
  once that key is a configurable name. That includes a display item carrying
  the same name. `Settings.Merged` states exactly that. For the shipped schema,
  whose display items have no name, `Settings.GlobalSettingsMerged` shows that
  the display items keep their text.

Behaviours of the code that the model states as they are:

- `applet_create_entry` runs `REPLACE INTO applets(id, data)`. SQLite deletes the
  old row and inserts a fresh one, so an existing `lastrun` becomes NULL; a
  column-scoped UPDATE would have kept it.
  `Database.Store.AppletCreateEntry` and `Scenarios.AppletReplace` state the
  reset.
- No (name, version) uniqueness is enforced: `plugin_create_entry` inserts a
  duplicate like any other row. `Plugins.CreateThenLoad` shows that after a
  duplicate the earlier row still answers `plugin_load_entry`.
- Storage errors are logged and swallowed, and the function returns `None`, so
  callers cannot tell absence from failure. The model keeps this where it is
  observable here: a missing settings table makes the loads return `None` and
  makes the updates do nothing.

## Model

| member | source | states |
|---|---|---|
| `Settings.GlobalSettingsWellFormed` | ultrasonics/database.py:23-46 | the shipped schema has five items; the four display items have no name; the fifth is the configurable `text` item named `api_url` |
| `Settings.GlobalSettingsDefaults` | ultrasonics/database.py:64-66 | the shipped schema's configurable names are exactly `["api_url"]`, and seeding inserts exactly the row (`api_url`, its default URL) |
| `Settings.FirstValue` | ultrasonics/database.py:130-134 | the value returned belongs to a row with the key, and no earlier row has that key (the `rows[0][0]` of the SELECT) |
| `Settings.LastValue` | ultrasonics/database.py:156-160 | `None` exactly when no row has the key; otherwise the value of a row with the key after which no row has that key (the later row wins in the dictionary) |
| `Settings.WithKey` | ultrasonics/database.py:62 | after `meta["new_install"] = True` the key is present and holds the new value; an existing key is overwritten in place, a new one is appended last; every other entry keeps its key, value and position |
| `Settings.ConfigurableNames` | ultrasonics/database.py:165-166 | a name is listed exactly when some item of type text/radio/select carries it |
| `Settings.Defaults` | ultrasonics/database.py:65-66 | one row per configurable item, in schema order, keyed by the item's name; every row is some configurable item's (name, default value), and every configurable item's (name, default value) is a row |
| `Settings.SeededIsNewInstall` | ultrasonics/database.py:61-76 | a freshly seeded table has a `new_install` row, its first such row holds "1", and its first `version` row holds the metadata's version |
| `Settings.EstablishedIsNotNew` | ultrasonics/database.py:108-110 | after `UPDATE ... SET value = 0 WHERE key = 'new_install'` the flag row still exists and its first value is no longer "1" |
| `Settings.Merged` | ultrasonics/database.py:163-175 | the non-raw view has the schema's length and order, and each item differs from its schema item at most in `value` |
| `Settings.MergedEmpty` | ultrasonics/database.py:163 | with no stored rows the view is the deep copy of the schema |
| `Settings.MergedTakesStored` | ultrasonics/database.py:168-175 | a configurable item with a stored row shows the value of the last such row, and that value comes from a stored row with its name |
| `Settings.MergedKeepsDefault` | ultrasonics/database.py:168-175 | an item with no name, with a name that is not configurable, or with no stored row keeps its default |
| `Settings.MergedValueOrigin` | ultrasonics/database.py:165-175 | a changed item carries a configurable name and a value taken from a stored row with that key, so keys outside the schema never appear |
| `Settings.MergedIgnoresForeignRow` | ultrasonics/database.py:169-170 | a stored row whose key is not a configurable name leaves the view unchanged |
| `Settings.MergedSnoc` | ultrasonics/database.py:170-175 | a stored row with a configurable key updates every item with that name, and nothing else |
| `Settings.GlobalSettingsMerged` | ultrasonics/database.py:163-175 | for the shipped schema the four display items are unchanged, and `api_url` shows the last stored value or the default URL |
| `Settings.SavedKeepsKeys` | ultrasonics/database.py:190-191 | saving never inserts, removes or moves a row; the key sequence and the set of keys stay the same |
| `Settings.SavedAbsentKeyNoOp` | ultrasonics/database.py:190-191 | an entry whose key has no row changes nothing |
| `Settings.SavedSnoc` | ultrasonics/database.py:190-191 | one more entry is one more UPDATE of every row with its key |
| `Settings.SavedThenLoaded` | ultrasonics/database.py:190-191 | after saving a value for a present key, the raw view maps that key to the value |
| `Plugins.VersionsOf` | ultrasonics/database.py:240-247 | the versions of the rows with the name, in row order; its own contract bounds only the length, and `Plugins.VersionsOfComplete` and `Plugins.VersionsOfEmpty` state the content |
| `Plugins.VersionsOfComplete` | ultrasonics/database.py:240-247 | a version is listed for a name exactly when some row has that name and version |
| `Plugins.VersionsOfEmpty` | ultrasonics/database.py:240-250 | the list is empty exactly when no row has the name |
| `Plugins.CreatedVersions` | ultrasonics/database.py:208-209 | a created row adds its version at the end of its name's list and leaves other names' lists unchanged |
| `Plugins.UpdatedKeepsVersions` | ultrasonics/database.py:224-225 | updating settings never changes any name's version list |
| `Plugins.FirstSettings` | ultrasonics/database.py:263-273 | the settings of a matching row with no earlier matching row; NULL stays `None` |
| `Plugins.UpdateThenLoad` | ultrasonics/database.py:224-225 | after an update, the load for the same name and version returns the new settings |
| `Plugins.UpdateKeepsOthers` | ultrasonics/database.py:224-225 | an update leaves the load of every other (name, version) unchanged |
| `Plugins.CreateThenLoad` | ultrasonics/database.py:208-209 | a new row loads as `None` when it is the only one for its pair; after a duplicate, the earlier row still answers |
| `Applets.ListsExactlyCount` | ultrasonics/database.py:296-312 | a listing naming every id once, each with its own row's dictionary, has one entry per row |
| `Database.Store.NewInstall` | ultrasonics/database.py:119-136 | `None` exactly when the table is absent; otherwise whether the first `new_install` row holds "1" |
| `Database.Store.MarkNotNew` | ultrasonics/database.py:108-116 | every `new_install` row becomes "0"; a missing table and the other tables stay unchanged |
| `Database.Store.Connect` | ultrasonics/database.py:61-76 | seeds only when the table is absent: the metadata with `new_install` set, then the defaults; otherwise nothing changes; afterwards both `new_install` and `version` rows exist |
| `Database.Store.GlobalSettingsLoadRaw` | ultrasonics/database.py:152-160 | for every key, the dictionary holds exactly the last stored value (absent when no row has the key); `None` without the table |
| `Database.Store.GlobalSettingsLoad` | ultrasonics/database.py:162-177 | the nested loop over the deep copy yields `Merged(GlobalSettings, rows)`; `None` without the table |
| `Database.Store.GlobalSettingsSave` | ultrasonics/database.py:183-191 | the table becomes `Saved(rows, entries)`, one UPDATE per tuple in order; the other tables are unchanged |
| `Database.Store.PluginCreateEntry` | ultrasonics/database.py:201-209 | appends (name, version, NULL) without a duplicate check; nothing else changes |
| `Database.Store.PluginUpdateEntry` | ultrasonics/database.py:217-225 | each row matching both name and version gets the settings; every other row is unchanged |
| `Database.Store.PluginEntryExists` | ultrasonics/database.py:240-250 | the versions of the name's rows in row order, or `[False]` exactly when no row has the name |
| `Database.Store.PluginLoadEntry` | ultrasonics/database.py:263-273 | returns `FirstSettings` of the table: the settings of a row matching name and version with no earlier match |
| `Database.Store.AppletGather` | ultrasonics/database.py:287-312 | one dictionary per row, ids distinct and covering the table, each built from its row; `applet_lastrun` present exactly when `lastrun` is non-NULL |
| `Database.Store.AppletCreateEntry` | ultrasonics/database.py:325-327 | the row for the id becomes (data, NULL) even if it existed with a `lastrun`; every other row is unchanged |
| `Database.Store.AppletLoadEntry` | ultrasonics/database.py:359-368 | `None` exactly when no row has the id; otherwise that row's plan |
| `Database.Store.AppletDeleteEntry` | ultrasonics/database.py:381-382 | removes exactly that id; an absent id is a no-op |
| `Database.Store.AppletUpdateLastrun` | ultrasonics/database.py:397-399 | only the matching row's `lastrun` changes, its plan and every other row stay; an absent id changes nothing |
| `Scenarios.InstallLifecycle` | ultrasonics/database.py:102-136 | before `connect` the state is `None`; after seeding it is `True`; a second `connect` keeps it `True`; after the update it is `False` |
| `Scenarios.SaveThenLoad` | ultrasonics/database.py:142-191 | after saving `(url, "api_url")` on a seeded store, the page view shows `url` for `api_url` with the display items untouched, and the raw view maps `api_url` to `url` |
| `Scenarios.PluginVersioning` | ultrasonics/database.py:233-250 | after creating spotify 1.0 and 2.0, both versions are listed in order, and an unknown name gives `[False]` |
| `Scenarios.PluginConfigure` | ultrasonics/database.py:256-273 | configuring spotify 2.0 makes it load the settings while 1.0 still loads `None` |
| `Scenarios.AppletReplace` | ultrasonics/database.py:318-333 | after a run the listing shows `applet_lastrun`; re-creating the applet loads the new plan and lists it without `applet_lastrun`; after deleting twice nothing loads |
| `Scenarios.AppletListingBoth` | ultrasonics/database.py:279-312 | two created applets are listed once each, and only the one whose last run was recorded carries `applet_lastrun` |

## Left out

- Connections, cursors, `commit`, the unused module-level `conn` and `cursor`,
  and the `CREATE TABLE IF NOT EXISTS` statements are left out. The `plugins`
  and `applets` tables are always present in the model. Only the settings
  table's existence is tracked.
- The `except sqlite3.Error` paths are left out: the failure is logged and the
  function returns `None`. Foreign failures such as a locked or unreadable file
  are not modelled. The model does show the one failure visible here, a missing
  settings table.
- Logging is left out, and so is the version-mismatch warning in `connect`,
  because it only logs.
- Serialisation through `str(...)` and `ast.literal_eval` is left out. Python's
  literal parser is outside this model, so blobs stay opaque and round-trip unchanged.
- SQLite column affinity is left out. That covers the FLOAT `version` column
  (which reads "1" back as "1.0") and the `str(name)` and `str(version)`
  coercions. Versions are compared and returned as the strings stored.
- The process metadata dictionary from `app` is left out. It is a parameter of
  `Connect`, and `Connect` returns the dictionary as it is afterwards.
- The `IndexError` cases are preconditions, since they raise past the
  `sqlite3.Error` handler: a missing `version` row in `connect` (line 92), a
  missing `new_install` row in `new_install` (line 134), and no matching plugin
  row in `plugin_load_entry` (line 267).
- The surrogate `id` of the plugins table is never read back, so it is not modelled.
- The `uuid` import and the commented-out `applet_update_entry` are left out.
- `Database.Store.AppletGather`: the order of the returned list is not stated,
  because the applet map states no order. The settings and plugins tables are
  sequences read back in rowid order; the applets table is keyed by id, so
  the model keeps no rowid for it.
- `Database.Store.AppletLoadEntry`, `Database.Store.PluginLoadEntry` and
  `Plugins.CreateThenLoad`: a stored Python `None` is not modelled. In the code,
  `applet_create_entry(id, None)` stores the text "None", and `applet_load_entry`
  then returns `None` for a row that exists; likewise, after
  `plugin_update_entry(n, v, None)`, `plugin_load_entry` returns `None`, just as
  for NULL settings. The model's `Option<Blob>` keeps the two apart, so "`None`
  exactly when no row has the id" holds only for plans other than `None`.
