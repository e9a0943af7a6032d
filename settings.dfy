/**
 * The `ultrasonics` settings table: an ordered list of (key, value) rows that
 * holds process metadata, the install flag and one row per configurable
 * descriptor of the settings page, and the pure specifications of what the
 * store does with it.
 */
module Settings {
  import opened Common

  /** One row of the `ultrasonics` table. Both columns are TEXT. */
  datatype Setting = Setting(key: string, value: string)

  /**
   * One tuple handed to `global_settings_save`. The UPDATE statement binds the
   * tuple positionally to `SET value = ? WHERE key = ?`, so its first element
   * is the new value and its second the key.
   */
  datatype SaveEntry = SaveEntry(value: string, key: string)

  /**
   * One dictionary of the settings-page schema: its `type`, and the optional
   * `label` and `name` entries, and its `value` (the compiled-in default).
   */
  datatype Descriptor = Descriptor(kind: string, labelText: Option<string>, name: Option<string>, value: string)

  const NewInstallKey := "new_install"
  const VersionKey := "version"

  /** The row value the install flag holds while the install is new (`True` under TEXT affinity). */
  const NewInstallFlag := "1"
  /** The row value the flag is set to once the install is established (`0` under TEXT affinity). */
  const EstablishedFlag := "0"

  /** Only these descriptor types are persisted; "string" and "link" are display-only. */
  predicate IsConfigurable(d: Descriptor) {
    d.kind in ["text", "radio", "select"]
  }

  /** Every configurable descriptor carries a `name` (the source reads `item["name"]` from each of them). */
  predicate WellFormed(schema: seq<Descriptor>) {
    forall i | 0 <= i < |schema| :: IsConfigurable(schema[i]) ==> schema[i].name.Some?
  }

  const ApiKeysNotice: string := "Many plugins utilise third party apis, which often require sensitive api keys \U{1F511} to access (Spotify, last.fm, Deezer, etc). The ultrasonics-api program acts as a proxy server for these apis, while keeping secret api keys... secret."
  const SelfHostNotice: string := "You can host this yourself alongside ultrasonics, and set up all the required api keys for the services you want to use. Alternatively, use the official hosted server for faster setup."
  const OptionalNotice: string := "If you don't need / want to use any of these services, just leave the url empty \U{1F60A}."

  /** The `global_settings` schema of the settings page, with its defaults. */
  const GlobalSettings: seq<Descriptor> := [
    Descriptor("string", None, None,
      ApiKeysNotice),
    Descriptor("string", None, None,
      SelfHostNotice),
    Descriptor("string", None, None,
      OptionalNotice),
    Descriptor("link", None, None, "https://github.com/XDGFX/ultrasonics-api"),
    Descriptor("text", Some("ultrasonics-api URL"), Some("api_url"), "https://ultrasonics-api.herokuapp.com/api/")
  ]

  lemma GlobalSettingsWellFormed()
    ensures WellFormed(GlobalSettings)
    ensures |GlobalSettings| == 5
    ensures forall i | 0 <= i < 4 :: !IsConfigurable(GlobalSettings[i]) && GlobalSettings[i].name.None?
    ensures IsConfigurable(GlobalSettings[4]) && GlobalSettings[4].name == Some("api_url")
  {
  }

  // ---------------------------------------------------------------------------
  // Row lookups

  /** Some row of `rows` has key `key`. */
  predicate HasKey(rows: seq<Setting>, key: string) {
    exists i | 0 <= i < |rows| :: rows[i].key == key
  }

  /** The value of the first row with `key`, what `rows[0][0]` of a `SELECT value ... WHERE key = ?` yields. */
  function FirstValue(rows: seq<Setting>, key: string): (v: string)
    requires HasKey(rows, key)
    ensures exists i | 0 <= i < |rows| ::
      rows[i] == Setting(key, v) && forall j | 0 <= j < i :: rows[j].key != key
  {
    if rows[0].key == key then rows[0].value
    else
      assert HasKey(rows[1..], key) by {
        var i :| 0 <= i < |rows| && rows[i].key == key;
        assert rows[1..][i - 1].key == key;
      }
      FirstValue(rows[1..], key)
  }

  /** The value of the last row with `key`: what a dictionary built row by row ends up holding for it. */
  function LastValue(rows: seq<Setting>, key: string): (r: Option<string>)
    ensures r.None? <==> !HasKey(rows, key)
    ensures r.Some? ==> exists i | 0 <= i < |rows| ::
      rows[i] == Setting(key, r.value) && forall j | i < j < |rows| :: rows[j].key != key
    decreases |rows|
  {
    if rows == [] then None
    else if rows[|rows| - 1].key == key then Some(rows[|rows| - 1].value)
    else
      var r := LastValue(rows[..|rows| - 1], key);
      assert r.Some? ==> rows[..|rows| - 1] <= rows;
      r
  }

  lemma LastValueSnoc(rows: seq<Setting>, row: Setting, key: string)
    ensures LastValue(rows + [row], key) ==
            if row.key == key then Some(row.value) else LastValue(rows, key)
  {
    assert (rows + [row])[..|rows|] == rows;
  }

  /** `UPDATE ultrasonics SET value = v WHERE key = k`: every row with key `k` gets value `v`, in place. */
  function SetAll(rows: seq<Setting>, k: string, v: string): (r: seq<Setting>) {
    seq(|rows|, i requires 0 <= i < |rows| => if rows[i].key == k then Setting(k, v) else rows[i])
  }

  /** After the UPDATE every row still has its key and the first row with `k` holds `v`. */
  lemma SetAllFirst(rows: seq<Setting>, k: string, v: string)
    requires HasKey(rows, k)
    ensures HasKey(SetAll(rows, k, v), k)
    ensures FirstValue(SetAll(rows, k, v), k) == v
  {
    var s := SetAll(rows, k, v);
    var i :| 0 <= i < |rows| && rows[i].key == k;
    assert s[i].key == k;
    var f := FirstValue(s, k);
    var j :| 0 <= j < |s| && s[j] == Setting(k, f);
    assert rows[j].key == k;
  }

  /** `_ultrasonics[k] = v` on a dictionary given as its items in insertion order. */
  function WithKey(meta: seq<Setting>, k: string, v: string): (r: seq<Setting>)
    ensures HasKey(r, k)
    ensures forall i | 0 <= i < |r| && r[i].key == k :: r[i].value == v
    ensures forall key :: key != k ==> (HasKey(r, key) <==> HasKey(meta, key))
    ensures HasKey(meta, k) ==> |r| == |meta|
    ensures !HasKey(meta, k) ==> r == meta + [Setting(k, v)]
    ensures |meta| <= |r| && forall i | 0 <= i < |meta| :: r[i].key == meta[i].key
    ensures forall i | 0 <= i < |meta| && meta[i].key != k :: r[i] == meta[i]
  {
    if HasKey(meta, k) then
      var r := SetAll(meta, k, v);
      assert forall i | 0 <= i < |meta| :: r[i].key == meta[i].key;
      r
    else
      var r := meta + [Setting(k, v)];
      assert r[|meta|].key == k;
      assert forall key :: HasKey(meta, key) ==> HasKey(r, key) by {
        forall key | HasKey(meta, key) ensures HasKey(r, key) {
          var i :| 0 <= i < |meta| && meta[i].key == key;
          assert r[i].key == key;
        }
      }
      r
  }

  lemma HasKeyConcat(a: seq<Setting>, b: seq<Setting>, key: string)
    requires HasKey(a, key)
    ensures HasKey(a + b, key) && FirstValue(a + b, key) == FirstValue(a, key)
  {
    var i :| 0 <= i < |a| && a[i].key == key;
    assert (a + b)[i].key == key;
    var v := FirstValue(a + b, key);
    var j :| 0 <= j < |a + b| && (a + b)[j] == Setting(key, v) && forall m | 0 <= m < j :: (a + b)[m].key != key;
    var w := FirstValue(a, key);
    var l :| 0 <= l < |a| && a[l] == Setting(key, w) && forall m | 0 <= m < l :: a[m].key != key;
    assert (a + b)[l] == a[l];
  }

  // ---------------------------------------------------------------------------
  // First-run seeding

  /** The names of the configurable descriptors, in schema order (`db_compatible_settings`). */
  function ConfigurableNames(schema: seq<Descriptor>): (r: seq<string>)
    requires WellFormed(schema)
    ensures forall n :: n in r <==> IsConfigurableName(schema, n)
  {
    if schema == [] then []
    else
      assert WellFormed(schema[1..]) by {
        forall i | 0 <= i < |schema[1..]| ensures IsConfigurable(schema[1..][i]) ==> schema[1..][i].name.Some? {
          assert schema[1..][i] == schema[i + 1];
        }
      }
      var rest := ConfigurableNames(schema[1..]);
      assert forall n :: IsConfigurableName(schema, n) <==>
        (IsConfigurable(schema[0]) && schema[0].name == Some(n)) || IsConfigurableName(schema[1..], n) by {
        forall n ensures IsConfigurableName(schema, n) <==>
          (IsConfigurable(schema[0]) && schema[0].name == Some(n)) || IsConfigurableName(schema[1..], n) {
          if IsConfigurableName(schema[1..], n) {
            var i :| 0 <= i < |schema[1..]| && IsConfigurable(schema[1..][i]) && schema[1..][i].name == Some(n);
            assert schema[i + 1] == schema[1..][i];
          }
          if IsConfigurableName(schema, n) && !(IsConfigurable(schema[0]) && schema[0].name == Some(n)) {
            var i :| 0 <= i < |schema| && IsConfigurable(schema[i]) && schema[i].name == Some(n);
            assert schema[1..][i - 1] == schema[i];
          }
        }
      }
      (if IsConfigurable(schema[0]) then [schema[0].name.value] else []) + rest
  }

  /** Some configurable descriptor of `schema` is named `n`. */
  predicate IsConfigurableName(schema: seq<Descriptor>, n: string) {
    exists i | 0 <= i < |schema| :: IsConfigurable(schema[i]) && schema[i].name == Some(n)
  }

  /** One `(name, value)` row per configurable descriptor, in schema order (`global_settings_database`). */
  function Defaults(schema: seq<Descriptor>): (r: seq<Setting>)
    requires WellFormed(schema)
    ensures |r| == |ConfigurableNames(schema)|
    ensures forall j | 0 <= j < |r| :: r[j].key == ConfigurableNames(schema)[j]
    ensures forall d | d in r :: exists i | 0 <= i < |schema| ::
      IsConfigurable(schema[i]) && d == Setting(schema[i].name.value, schema[i].value)
    ensures forall i | 0 <= i < |schema| && IsConfigurable(schema[i]) ::
      Setting(schema[i].name.value, schema[i].value) in r
  {
    if schema == [] then []
    else
      assert WellFormed(schema[1..]) by {
        forall i | 0 <= i < |schema[1..]| ensures IsConfigurable(schema[1..][i]) ==> schema[1..][i].name.Some? {
          assert schema[1..][i] == schema[i + 1];
        }
      }
      assert forall i | 1 <= i < |schema| :: schema[i] == schema[1..][i - 1];
      (if IsConfigurable(schema[0]) then [Setting(schema[0].name.value, schema[0].value)] else [])
        + Defaults(schema[1..])
  }

  /** The rows `connect` inserts into a freshly created table: the metadata, then the defaults. */
  function Seeded(meta: seq<Setting>, schema: seq<Descriptor>): (r: seq<Setting>)
    requires WellFormed(schema)
  {
    meta + Defaults(schema)
  }

  /** The seeded table reads as a new install, and it keeps the metadata's `version` and its value. */
  lemma SeededIsNewInstall(meta: seq<Setting>, schema: seq<Descriptor>)
    requires WellFormed(schema)
    ensures HasKey(Seeded(WithKey(meta, NewInstallKey, NewInstallFlag), schema), NewInstallKey)
    ensures FirstValue(Seeded(WithKey(meta, NewInstallKey, NewInstallFlag), schema), NewInstallKey) == NewInstallFlag
    ensures HasKey(meta, VersionKey) ==> HasKey(Seeded(WithKey(meta, NewInstallKey, NewInstallFlag), schema), VersionKey)
    ensures HasKey(meta, VersionKey) ==>
            FirstValue(Seeded(WithKey(meta, NewInstallKey, NewInstallFlag), schema), VersionKey) == FirstValue(meta, VersionKey)
  {
    var m := WithKey(meta, NewInstallKey, NewInstallFlag);
    HasKeyConcat(m, Defaults(schema), NewInstallKey);
    var v := FirstValue(m, NewInstallKey);
    var i :| 0 <= i < |m| && m[i] == Setting(NewInstallKey, v);
    if HasKey(meta, VersionKey) {
      HasKeyConcat(m, Defaults(schema), VersionKey);
      var w := FirstValue(meta, VersionKey);
      var l :| 0 <= l < |meta| && meta[l] == Setting(VersionKey, w) && forall j | 0 <= j < l :: meta[j].key != VersionKey;
      var u := FirstValue(m, VersionKey);
      var l' :| 0 <= l' < |m| && m[l'] == Setting(VersionKey, u) && forall j | 0 <= j < l' :: m[j].key != VersionKey;
      assert m[l] == meta[l];
      assert l' < |meta| ==> meta[l'].key == VersionKey;
    }
  }

  /** The default rows the shipped schema seeds: exactly the `api_url` row with its default URL. */
  lemma GlobalSettingsDefaults()
    ensures WellFormed(GlobalSettings)
    ensures ConfigurableNames(GlobalSettings) == ["api_url"]
    ensures Defaults(GlobalSettings) == [Setting("api_url", "https://ultrasonics-api.herokuapp.com/api/")]
  {
    GlobalSettingsWellFormed();
    var s := GlobalSettings;
    assert s[4..] == [s[4]] && s[4..][1..] == [];
    assert s[3..][1..] == s[4..] && s[2..][1..] == s[3..] && s[1..][1..] == s[2..] && s[1..] == s[1..];
    assert Defaults(s[4..]) == [Setting("api_url", "https://ultrasonics-api.herokuapp.com/api/")];
    assert ConfigurableNames(s[4..]) == ["api_url"];
    assert s[3..][0] == s[3] && s[2..][0] == s[2] && s[1..][0] == s[1];
    assert Defaults(s[3..]) == Defaults(s[4..]) && ConfigurableNames(s[3..]) == ConfigurableNames(s[4..]);
    assert Defaults(s[2..]) == Defaults(s[3..]) && ConfigurableNames(s[2..]) == ConfigurableNames(s[3..]);
    assert Defaults(s[1..]) == Defaults(s[2..]) && ConfigurableNames(s[1..]) == ConfigurableNames(s[2..]);
    assert Defaults(s) == Defaults(s[1..]) && ConfigurableNames(s) == ConfigurableNames(s[1..]);
  }

  /** Once the flag rows are set to "0" the table no longer reads as a new install. */
  lemma EstablishedIsNotNew(rows: seq<Setting>)
    requires HasKey(rows, NewInstallKey)
    ensures HasKey(SetAll(rows, NewInstallKey, EstablishedFlag), NewInstallKey)
    ensures FirstValue(SetAll(rows, NewInstallKey, EstablishedFlag), NewInstallKey) != NewInstallFlag
  {
    SetAllFirst(rows, NewInstallKey, EstablishedFlag);
  }

  // ---------------------------------------------------------------------------
  // Loading and saving

  /** `None` for an absent dictionary key, the value otherwise. */
  function Lookup(m: map<string, string>, k: string): (r: Option<string>) {
    if k in m then Some(m[k]) else None
  }

  /** One schema item after the merge: its value is replaced when its name is a configurable name with a stored row. */
  function MergedItem(item: Descriptor, names: seq<string>, rows: seq<Setting>): (r: Descriptor) {
    if item.name.Some? && item.name.value in names && LastValue(rows, item.name.value).Some?
    then item.(value := LastValue(rows, item.name.value).value)
    else item
  }

  /** The non-raw settings view: a copy of `schema` with stored values merged in. */
  function Merged(schema: seq<Descriptor>, rows: seq<Setting>): (r: seq<Descriptor>)
    requires WellFormed(schema)
    ensures |r| == |schema|
    ensures forall i | 0 <= i < |r| :: r[i] == schema[i].(value := r[i].value)
  {
    var names := ConfigurableNames(schema);
    seq(|schema|, i requires 0 <= i < |schema| => MergedItem(schema[i], names, rows))
  }

  /** With no stored rows the merged view is the schema itself. */
  lemma MergedEmpty(schema: seq<Descriptor>)
    requires WellFormed(schema)
    ensures Merged(schema, []) == schema
  {
  }

  /** A merged item takes the value of the LAST stored row with its name, when it is a configurable name. */
  lemma {:induction false} MergedTakesStored(schema: seq<Descriptor>, rows: seq<Setting>, i: nat)
    requires WellFormed(schema) && i < |schema|
    requires IsConfigurable(schema[i]) && HasKey(rows, schema[i].name.value)
    ensures Merged(schema, rows)[i].value == LastValue(rows, schema[i].name.value).value
    ensures exists j | 0 <= j < |rows| :: rows[j] == Setting(schema[i].name.value, Merged(schema, rows)[i].value)
  {
    assert IsConfigurableName(schema, schema[i].name.value);
  }

  /** An item without a name, with a name that is not configurable, or with no stored row keeps its default. */
  lemma MergedKeepsDefault(schema: seq<Descriptor>, rows: seq<Setting>, i: nat)
    requires WellFormed(schema) && i < |schema|
    requires schema[i].name.None? || !IsConfigurableName(schema, schema[i].name.value)
             || !HasKey(rows, schema[i].name.value)
    ensures Merged(schema, rows)[i] == schema[i]
  {
  }

  /**
   * Every value the merge puts into the view comes from a stored row whose key
   * is a configurable name: keys outside the schema (`version`, `new_install`)
   * never show up.
   */
  lemma MergedValueOrigin(schema: seq<Descriptor>, rows: seq<Setting>, i: nat)
    requires WellFormed(schema) && i < |schema|
    requires Merged(schema, rows)[i] != schema[i]
    ensures schema[i].name.Some? && IsConfigurableName(schema, schema[i].name.value)
    ensures exists j | 0 <= j < |rows| :: rows[j] == Setting(schema[i].name.value, Merged(schema, rows)[i].value)
  {
  }

  /** Rows whose key is no configurable name leave the merged view as it is. */
  lemma MergedIgnoresForeignRow(schema: seq<Descriptor>, rows: seq<Setting>, row: Setting)
    requires WellFormed(schema) && row.key !in ConfigurableNames(schema)
    ensures Merged(schema, rows + [row]) == Merged(schema, rows)
  {
    var names := ConfigurableNames(schema);
    forall i | 0 <= i < |schema|
      ensures MergedItem(schema[i], names, rows + [row]) == MergedItem(schema[i], names, rows)
    {
      if schema[i].name.Some? {
        LastValueSnoc(rows, row, schema[i].name.value);
      }
    }
  }

  /** The inner loop of the merge: every item named `key` takes `value`, the others stay. */
  function UpdateNamed(data: seq<Descriptor>, key: string, value: string): (r: seq<Descriptor>)
    ensures |r| == |data|
  {
    seq(|data|, i requires 0 <= i < |data| =>
      if data[i].name == Some(key) then data[i].(value := value) else data[i])
  }

  /** A stored row whose key is a configurable name updates, in the merged view, every item with that name. */
  lemma MergedSnoc(schema: seq<Descriptor>, rows: seq<Setting>, row: Setting)
    requires WellFormed(schema) && row.key in ConfigurableNames(schema)
    ensures Merged(schema, rows + [row]) == UpdateNamed(Merged(schema, rows), row.key, row.value)
  {
    var names := ConfigurableNames(schema);
    forall i | 0 <= i < |schema|
      ensures Merged(schema, rows + [row])[i] == UpdateNamed(Merged(schema, rows), row.key, row.value)[i]
    {
      if schema[i].name.Some? {
        LastValueSnoc(rows, row, schema[i].name.value);
      }
    }
  }

  /** For the shipped schema: the four display items keep their text and `api_url` shows the last stored URL. */
  lemma GlobalSettingsMerged(rows: seq<Setting>)
    ensures WellFormed(GlobalSettings)
    ensures |Merged(GlobalSettings, rows)| == 5
    ensures Merged(GlobalSettings, rows)[..4] == GlobalSettings[..4]
    ensures Merged(GlobalSettings, rows)[4].value ==
            match LastValue(rows, "api_url")
            case Some(v) => v
            case None => "https://ultrasonics-api.herokuapp.com/api/"
  {
    GlobalSettingsWellFormed();
    GlobalSettingsDefaults();
    var m := Merged(GlobalSettings, rows);
    forall i | 0 <= i < 4 ensures m[i] == GlobalSettings[i] {
      MergedKeepsDefault(GlobalSettings, rows, i);
    }
  }

  /** The entries as (key, value) rows, so the last entry for a key can be found like a row. */
  function EntryRows(entries: seq<SaveEntry>): (r: seq<Setting>)
    ensures |r| == |entries|
  {
    seq(|entries|, i requires 0 <= i < |entries| => Setting(entries[i].key, entries[i].value))
  }

  /**
   * The table after `global_settings_save(entries)`: each row whose key some
   * entry names takes the value of the last such entry; no row is added,
   * removed or moved.
   */
  function Saved(rows: seq<Setting>, entries: seq<SaveEntry>): (r: seq<Setting>) {
    seq(|rows|, i requires 0 <= i < |rows| =>
      match LastValue(EntryRows(entries), rows[i].key)
      case Some(v) => Setting(rows[i].key, v)
      case None => rows[i])
  }

  /** Saving never inserts a row: the table keeps its length and its key sequence. */
  lemma SavedKeepsKeys(rows: seq<Setting>, entries: seq<SaveEntry>)
    ensures |Saved(rows, entries)| == |rows|
    ensures forall i | 0 <= i < |rows| :: Saved(rows, entries)[i].key == rows[i].key
    ensures forall k :: HasKey(Saved(rows, entries), k) <==> HasKey(rows, k)
  {
    var s := Saved(rows, entries);
    forall k ensures HasKey(s, k) <==> HasKey(rows, k) {
      if HasKey(s, k) { var i :| 0 <= i < |s| && s[i].key == k; assert rows[i].key == k; }
      if HasKey(rows, k) { var i :| 0 <= i < |rows| && rows[i].key == k; assert s[i].key == k; }
    }
  }

  /** An entry whose key is not in the table changes nothing. */
  lemma SavedAbsentKeyNoOp(rows: seq<Setting>, entries: seq<SaveEntry>, e: SaveEntry)
    requires !HasKey(rows, e.key)
    ensures Saved(rows, entries + [e]) == Saved(rows, entries)
  {
    assert EntryRows(entries + [e]) == EntryRows(entries) + [Setting(e.key, e.value)];
    forall i | 0 <= i < |rows| ensures Saved(rows, entries + [e])[i] == Saved(rows, entries)[i] {
      LastValueSnoc(EntryRows(entries), Setting(e.key, e.value), rows[i].key);
    }
  }

  /** Applying one more entry is one more UPDATE on the table saved so far. */
  lemma SavedSnoc(rows: seq<Setting>, entries: seq<SaveEntry>, e: SaveEntry)
    ensures Saved(rows, entries + [e]) == SetAll(Saved(rows, entries), e.key, e.value)
  {
    assert EntryRows(entries + [e]) == EntryRows(entries) + [Setting(e.key, e.value)];
    forall i | 0 <= i < |rows|
      ensures Saved(rows, entries + [e])[i] == SetAll(Saved(rows, entries), e.key, e.value)[i]
    {
      LastValueSnoc(EntryRows(entries), Setting(e.key, e.value), rows[i].key);
    }
  }

  /** Saving a value for a key that is in the table makes the raw and the merged view show it. */
  lemma SavedThenLoaded(rows: seq<Setting>, value: string, key: string)
    requires HasKey(rows, key)
    ensures LastValue(Saved(rows, [SaveEntry(value, key)]), key) == Some(value)
  {
    var s := Saved(rows, [SaveEntry(value, key)]);
    assert EntryRows([SaveEntry(value, key)]) == [] + [Setting(key, value)];
    LastValueSnoc([], Setting(key, value), key);
    SavedKeepsKeys(rows, [SaveEntry(value, key)]);
    var v := LastValue(s, key).value;
    var j :| 0 <= j < |s| && s[j] == Setting(key, v);
    LastValueSnoc([], Setting(key, value), rows[j].key);
  }
}
