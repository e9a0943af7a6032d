/**
 * The `plugins` table: rows of (plugin name, version, settings) with no
 * uniqueness constraint, so several rows may carry the same name and version.
 * The surrogate `id` column is never read back and is not modelled.
 */
module Plugins {
  import opened Common

  /** One row of the `plugins` table; `settings` is NULL until the plugin is configured. */
  datatype PluginRow = PluginRow(name: string, version: string, settings: Option<Blob>)

  /**
   * One element of the list `plugin_entry_exists` returns: a version string,
   * or the `False` of the not-found sentinel `[False]`.
   */
  datatype VersionOrFalse = Version(text: string) | False

  predicate Matches(row: PluginRow, name: string, version: string) {
    row.name == name && row.version == version
  }

  /** Some row carries both `name` and `version`. */
  predicate HasEntry(rows: seq<PluginRow>, name: string, version: string) {
    exists i | 0 <= i < |rows| :: Matches(rows[i], name, version)
  }

  /** The versions of the rows named `name`, in row order (`SELECT version FROM plugins WHERE plugin = ?`). */
  function VersionsOf(rows: seq<PluginRow>, name: string): (r: seq<string>)
    ensures |r| <= |rows|
    decreases |rows|
  {
    if rows == [] then []
    else
      VersionsOf(rows[..|rows| - 1], name)
        + (if rows[|rows| - 1].name == name then [rows[|rows| - 1].version] else [])
  }

  /** A version is listed for `name` exactly when some row carries that name and version. */
  lemma {:induction false} VersionsOfComplete(rows: seq<PluginRow>, name: string, v: string)
    ensures v in VersionsOf(rows, name) <==>
            exists i | 0 <= i < |rows| :: rows[i].name == name && rows[i].version == v
    decreases |rows|
  {
    if rows != [] {
      var init := rows[..|rows| - 1];
      VersionsOfComplete(init, name, v);
      if exists i | 0 <= i < |init| :: init[i].name == name && init[i].version == v {
        var i :| 0 <= i < |init| && init[i].name == name && init[i].version == v;
        assert rows[i] == init[i];
      }
      if exists i | 0 <= i < |rows| :: rows[i].name == name && rows[i].version == v {
        var i :| 0 <= i < |rows| && rows[i].name == name && rows[i].version == v;
        if i < |init| { assert init[i] == rows[i]; }
      }
    }
  }

  /** No version is listed for `name` exactly when no row carries that name. */
  lemma {:induction false} VersionsOfEmpty(rows: seq<PluginRow>, name: string)
    ensures VersionsOf(rows, name) == [] <==> forall i | 0 <= i < |rows| :: rows[i].name != name
  {
    if VersionsOf(rows, name) != [] {
      VersionsOfComplete(rows, name, VersionsOf(rows, name)[0]);
    } else {
      forall i | 0 <= i < |rows| ensures rows[i].name != name {
        VersionsOfComplete(rows, name, rows[i].version);
      }
    }
  }

  /** What `plugin_entry_exists` returns for the listed versions: them, or `[False]` when there are none. */
  function Found(versions: seq<string>): (r: seq<VersionOrFalse>) {
    if versions == [] then [False]
    else seq(|versions|, i requires 0 <= i < |versions| => Version(versions[i]))
  }

  /** Creating a row lists its version last for its name and leaves every other name's list alone. */
  lemma CreatedVersions(rows: seq<PluginRow>, name: string, version: string, other: string)
    ensures VersionsOf(rows + [PluginRow(name, version, None)], name) == VersionsOf(rows, name) + [version]
    ensures other != name ==>
            VersionsOf(rows + [PluginRow(name, version, None)], other) == VersionsOf(rows, other)
  {
    assert (rows + [PluginRow(name, version, None)])[..|rows|] == rows;
  }

  /** `UPDATE plugins SET settings = ? WHERE plugin = ? AND version = ?`, on every matching row. */
  function Updated(rows: seq<PluginRow>, name: string, version: string, s: Blob): (r: seq<PluginRow>) {
    seq(|rows|, i requires 0 <= i < |rows| =>
      if Matches(rows[i], name, version) then rows[i].(settings := Some(s)) else rows[i])
  }

  /** Updating settings never changes which versions a name lists. */
  lemma {:induction false} UpdatedKeepsVersions(rows: seq<PluginRow>, name: string, version: string, s: Blob, other: string)
    ensures VersionsOf(Updated(rows, name, version, s), other) == VersionsOf(rows, other)
    decreases |rows|
  {
    if rows != [] {
      var u := Updated(rows, name, version, s);
      assert u[..|rows| - 1] == Updated(rows[..|rows| - 1], name, version, s);
      UpdatedKeepsVersions(rows[..|rows| - 1], name, version, s, other);
    }
  }

  /** The settings of the first row matching name and version (`rows[0][0]` of the SELECT). */
  function FirstSettings(rows: seq<PluginRow>, name: string, version: string): (r: Option<Blob>)
    requires HasEntry(rows, name, version)
    ensures exists i | 0 <= i < |rows| ::
      Matches(rows[i], name, version) && r == rows[i].settings &&
      forall j | 0 <= j < i :: !Matches(rows[j], name, version)
  {
    if Matches(rows[0], name, version) then rows[0].settings
    else
      assert HasEntry(rows[1..], name, version) by {
        var i :| 0 <= i < |rows| && Matches(rows[i], name, version);
        assert rows[1..][i - 1] == rows[i];
      }
      var r := FirstSettings(rows[1..], name, version);
      ghost var i :| 0 <= i < |rows[1..]| && Matches(rows[1..][i], name, version) && r == rows[1..][i].settings &&
        forall j | 0 <= j < i :: !Matches(rows[1..][j], name, version);
      assert forall j | 1 <= j < i + 1 :: rows[j] == rows[1..][j - 1];
      r
  }

  /** After an update the load for the same name and version returns the new settings. */
  lemma UpdateThenLoad(rows: seq<PluginRow>, name: string, version: string, s: Blob)
    requires HasEntry(rows, name, version)
    ensures HasEntry(Updated(rows, name, version, s), name, version)
    ensures FirstSettings(Updated(rows, name, version, s), name, version) == Some(s)
  {
    var u := Updated(rows, name, version, s);
    var i :| 0 <= i < |rows| && Matches(rows[i], name, version);
    assert Matches(u[i], name, version);
  }

  /** An update leaves the load of every other (name, version) pair unchanged. */
  lemma UpdateKeepsOthers(rows: seq<PluginRow>, name: string, version: string, s: Blob,
                          name': string, version': string)
    requires HasEntry(rows, name', version') && (name', version') != (name, version)
    ensures HasEntry(Updated(rows, name, version, s), name', version')
    ensures FirstSettings(Updated(rows, name, version, s), name', version') == FirstSettings(rows, name', version')
  {
    var u := Updated(rows, name, version, s);
    var i :| 0 <= i < |rows| && Matches(rows[i], name', version');
    assert u[i] == rows[i];
    var r := FirstSettings(u, name', version');
    var j :| 0 <= j < |u| && Matches(u[j], name', version') && r == u[j].settings &&
      forall m | 0 <= m < j :: !Matches(u[m], name', version');
    var r' := FirstSettings(rows, name', version');
    var k :| 0 <= k < |rows| && Matches(rows[k], name', version') && r' == rows[k].settings &&
      forall m | 0 <= m < k :: !Matches(rows[m], name', version');
    assert u[k] == rows[k] && u[j] == rows[j];
  }

  /**
   * A freshly created row loads as NULL settings when it is the only one for
   * its pair; under a duplicate the earlier row still answers the load.
   */
  lemma CreateThenLoad(rows: seq<PluginRow>, name: string, version: string)
    ensures HasEntry(rows + [PluginRow(name, version, None)], name, version)
    ensures !HasEntry(rows, name, version) ==>
            FirstSettings(rows + [PluginRow(name, version, None)], name, version).None?
    ensures HasEntry(rows, name, version) ==>
            FirstSettings(rows + [PluginRow(name, version, None)], name, version) == FirstSettings(rows, name, version)
  {
    var t := rows + [PluginRow(name, version, None)];
    assert Matches(t[|rows|], name, version);
    var r := FirstSettings(t, name, version);
    var j :| 0 <= j < |t| && Matches(t[j], name, version) && r == t[j].settings &&
      forall m | 0 <= m < j :: !Matches(t[m], name, version);
    if HasEntry(rows, name, version) {
      var r' := FirstSettings(rows, name, version);
      var k :| 0 <= k < |rows| && Matches(rows[k], name, version) && r' == rows[k].settings &&
        forall m | 0 <= m < k :: !Matches(rows[m], name, version);
      assert t[k] == rows[k];
      assert j < |rows| ==> t[j] == rows[j];
    }
  }
}
