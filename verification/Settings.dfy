/**
 The settings overlay: a row of the settings table, when there is one, hides the configured
 default. The administrator's endpoints write rows; the settings endpoints, the lifecycle
 scheduler, the provisioning code and the SMTP code read them.
 */
module Settings {
  import opened Common

  datatype Setting<V> = Setting(key: string, value: V, hidden: bool, restartService: bool)

  datatype Reply<R> = Found(result: R) | NotFound | Forbidden

  /** The configured part: the keys the API accepts, and a default for every option. */
  datatype Config<V> = Config(baseKeys: set<string>, defaults: map<string, V>)

  const HIDDEN := {"smtp_password"}
  const SMTP_KEYS := {"smtp_host", "smtp_port", "smtp_user", "smtp_password", "smtp_use_tls", "smtp_from_address"}
  const LIFECYCLE_KEYS := {"instance_lifecycle_enabled", "instance_lifetime_days", "instance_reply_deadline_days"}

  ghost predicate UniqueKeys<V>(rows: seq<(string, V)>) {
    forall i, j :: 0 <= i < j < |rows| ==> rows[i].0 != rows[j].0
  }

  ghost predicate HasKey<V>(rows: seq<(string, V)>, key: string) {
    exists i :: 0 <= i < |rows| && rows[i].0 == key
  }

  lemma HasKeyAppend<V>(rows: seq<(string, V)>, row: (string, V))
    ensures forall k :: HasKey(rows, k) ==> HasKey(rows + [row], k)
    ensures HasKey(rows + [row], row.0)
  {
    forall k | HasKey(rows, k) ensures HasKey(rows + [row], k) {
      var i :| 0 <= i < |rows| && rows[i].0 == k;
      assert (rows + [row])[i].0 == k;
    }
    assert (rows + [row])[|rows|].0 == row.0;
  }

  function Without<V>(rows: seq<(string, V)>, key: string): seq<(string, V)> {
    if rows == [] then []
    else
      var n := |rows| - 1;
      Without(rows[..n], key) + (if rows[n].0 == key then [] else [rows[n]])
  }

  /** What a table with at most one row per key says about each key. */
  ghost predicate Represents<V>(rows: seq<(string, V)>, view: map<string, V>) {
    && UniqueKeys(rows)
    && (forall i :: 0 <= i < |rows| ==> rows[i].0 in view && view[rows[i].0] == rows[i].1)
    && (forall k :: k in view ==> HasKey(rows, k))
  }

  lemma {:induction false} WithoutRepresents<V>(rows: seq<(string, V)>, view: map<string, V>, key: string)
    requires Represents(rows, view)
    ensures Represents(Without(rows, key), view - {key})
  {
    if rows != [] {
      var n := |rows| - 1;
      var front, last := rows[..n], rows[n];
      assert Represents(front, view - {last.0}) by {
        forall k | k in view - {last.0} ensures HasKey(front, k) {
          assert HasKey(rows, k);
          var i :| 0 <= i < |rows| && rows[i].0 == k;
          assert front[i].0 == k;
        }
      }
      WithoutRepresents(front, view - {last.0}, key);
      if last.0 == key {
        assert Without(rows, key) == Without(front, key);
        assert view - {last.0} - {key} == view - {key};
      } else {
        HasKeyAppend(Without(front, key), last);
        assert view - {last.0} - {key} == view - {key} - {last.0};
      }
    }
  }

  function Effective<V>(config: Config<V>, view: map<string, V>, key: string): V
    requires key in config.defaults
  {
    if key in view then view[key] else config.defaults[key]
  }

  function Describe<V>(key: string, value: V): Setting<V> {
    Setting(key, value, key in HIDDEN, false)
  }

  /** One call of an endpoint that changes settings; only an administrator's has an effect. */
  datatype Change<V> = Put(key: string, value: V, byAdmin: bool) | Reset(key: string, byAdmin: bool)

  function AfterChange<V>(baseKeys: set<string>, view: map<string, V>, change: Change<V>): map<string, V> {
    if !change.byAdmin || change.key !in baseKeys then view
    else match change
      case Put(key, value, _) => view[key := value]
      case Reset(key, _) => view - {key}
  }

  function Replay<V>(baseKeys: set<string>, history: seq<Change<V>>): map<string, V> {
    if history == [] then map[]
    else AfterChange(baseKeys, Replay(baseKeys, history[..|history| - 1]), history[|history| - 1])
  }

  class SettingsTable<V> {
    const config: Config<V>
    var rows: seq<(string, V)>
    ghost var view: map<string, V>

    ghost predicate Valid()
      reads this
    {
      && config.baseKeys <= config.defaults.Keys
      && SMTP_KEYS + LIFECYCLE_KEYS <= config.defaults.Keys
      && Represents(rows, view)
    }

    constructor (config: Config<V>)
      requires config.baseKeys <= config.defaults.Keys
      requires SMTP_KEYS + LIFECYCLE_KEYS <= config.defaults.Keys
      ensures Valid() && view == map[] && this.config == config
    {
      this.config := config;
      rows := [];
      view := map[];
    }

    /** `get_setting`: the row with this key, if any. */
    method GetSetting(key: string) returns (value: Option<V>)
      requires Valid()
      ensures value == if key in view then Some(view[key]) else None
    {
      for i := 0 to |rows|
        invariant forall j :: 0 <= j < i ==> rows[j].0 != key
      {
        if rows[i].0 == key {
          return Some(rows[i].1);
        }
      }
      return None;
    }

    /** The `UPDATE ... WHERE key = ?` statement. */
    method UpdateWhere(key: string, value: V)
      requires Valid() && key in view
      modifies this
      ensures Valid() && view == old(view)[key := value]
    {
      for i := 0 to |rows|
        invariant |rows| == |old(rows)| && view == old(view)
        invariant forall j :: 0 <= j < |rows| ==> rows[j].0 == old(rows)[j].0
        invariant forall j :: i <= j < |rows| ==> rows[j] == old(rows)[j]
        invariant forall j :: 0 <= j < i ==> rows[j].1 == if rows[j].0 == key then value else old(rows)[j].1
      {
        if rows[i].0 == key {
          rows := rows[i := (key, value)];
        }
      }
      view := view[key := value];
      forall k | k in view ensures HasKey(rows, k) {
        assert HasKey(old(rows), k);
        var i :| 0 <= i < |old(rows)| && old(rows)[i].0 == k;
        assert rows[i].0 == k;
      }
    }

    /** `update_setting` of the database layer: look, then insert or update, then read back. */
    method Store(key: string, value: V) returns (stored: V)
      requires Valid()
      modifies this
      ensures Valid()
      ensures view == old(view)[key := value]
      ensures stored == value
    {
      var existing := GetSetting(key);
      if existing.None? {
        assert !HasKey(rows, key);
        rows := rows + [(key, value)];
        view := view[key := value];
        HasKeyAppend(old(rows), (key, value));
      } else {
        UpdateWhere(key, value);
      }
      var readBack := GetSetting(key);
      stored := readBack.GetOr(value);
    }

    /** `delete_setting`: the `DELETE ... WHERE key = ?` statement. */
    method Erase(key: string)
      requires Valid()
      modifies this
      ensures Valid() && view == old(view) - {key}
    {
      var kept: seq<(string, V)> := [];
      for i := 0 to |rows|
        invariant rows == old(rows) && view == old(view)
        invariant kept == Without(rows[..i], key)
      {
        assert rows[..i + 1][..i] == rows[..i];
        if rows[i].0 != key {
          kept := kept + [rows[i]];
        }
      }
      assert rows[..|rows|] == rows;
      WithoutRepresents(rows, view, key);
      rows := kept;
      view := view - {key};
    }

    /** `GET /setting/{key}`. */
    method ShowSetting(key: string) returns (reply: Reply<Setting<V>>)
      requires Valid()
      ensures key !in config.baseKeys ==> reply == NotFound
      ensures key in config.baseKeys ==> reply == Found(Describe(key, Effective(config, view, key)))
    {
      if key !in config.baseKeys {
        return NotFound;
      }
      var value := config.defaults[key];
      var row := GetSetting(key);
      if row.Some? {
        value := row.value;
      }
      return Found(Describe(key, value));
    }

    /** `PUT /setting`; `isAdmin` is the outcome of the administrator check, which comes first. */
    method UpdateSetting(key: string, value: V, isAdmin: bool) returns (reply: Reply<Setting<V>>)
      requires Valid()
      modifies this
      ensures Valid()
      ensures view == AfterChange(config.baseKeys, old(view), Put(key, value, isAdmin))
      ensures reply == if !isAdmin then Forbidden else if key in config.baseKeys then Found(Describe(key, value)) else NotFound
    {
      if !isAdmin {
        return Forbidden;
      }
      if key !in config.baseKeys {
        return NotFound;
      }
      var stored := Store(key, value);
      return Found(Describe(key, stored));
    }

    /** `DELETE /setting/{key}`. */
    method ResetSetting(key: string, isAdmin: bool) returns (reply: Reply<Setting<V>>)
      requires Valid()
      modifies this
      ensures Valid()
      ensures view == AfterChange(config.baseKeys, old(view), Reset(key, isAdmin))
      ensures reply == if !isAdmin then Forbidden
                       else if key in config.baseKeys then Found(Describe(key, config.defaults[key])) else NotFound
    {
      if !isAdmin {
        return Forbidden;
      }
      if key !in config.baseKeys {
        return NotFound;
      }
      Erase(key);
      return Found(Describe(key, config.defaults[key]));
    }

    /** `GET /settings`: defaults first, then every stored row with an accepted key on top. */
    method ListSettings() returns (settings: map<string, Setting<V>>)
      requires Valid()
      ensures settings.Keys == config.baseKeys
      ensures forall k :: k in settings ==> settings[k] == Describe(k, Effective(config, view, k))
    {
      settings := map k | k in config.baseKeys :: Describe(k, config.defaults[k]);
      for i := 0 to |rows|
        invariant settings.Keys == config.baseKeys
        invariant forall k :: k in settings ==>
          (exists j :: 0 <= j < i && rows[j].0 == k && settings[k] == Describe(k, rows[j].1))
          || (settings[k] == Describe(k, config.defaults[k]) && forall j :: 0 <= j < i ==> rows[j].0 != k)
      {
        if rows[i].0 in config.baseKeys {
          settings := settings[rows[i].0 := settings[rows[i].0].(value := rows[i].1)];
        }
      }
      forall k | k in settings ensures settings[k] == Describe(k, Effective(config, view, k)) {
        if k in view {
          assert HasKey(rows, k);
        }
      }
    }

    /** `row.value if row else getattr(CONF.setting, key)`, as the lifecycle code reads one key. */
    method ReadSetting(key: string) returns (value: V)
      requires Valid() && key in config.defaults
      ensures value == Effective(config, view, key)
    {
      var row := GetSetting(key);
      value := if row.Some? then row.value else config.defaults[key];
    }

    /** `_get_smtp_config`. */
    method SmtpConfig() returns (cfg: map<string, V>)
      requires Valid()
      ensures cfg.Keys == SMTP_KEYS
      ensures forall k :: k in SMTP_KEYS ==> cfg[k] == Effective(config, view, k)
    {
      cfg := map[];
      var todo := SMTP_KEYS;
      while todo != {}
        invariant todo <= SMTP_KEYS && cfg.Keys == SMTP_KEYS - todo
        invariant forall k :: k in cfg ==> cfg[k] == Effective(config, view, k)
        decreases todo
      {
        var key :| key in todo;
        var value := ReadSetting(key);
        cfg := cfg[key := value];
        todo := todo - {key};
      }
    }
  }

  /** Change `i` is the last word of the history about `key`, if the API accepts the key. */
  ghost predicate LastWord<V>(history: seq<Change<V>>, key: string, i: int) {
    && 0 <= i < |history|
    && history[i].key == key && history[i].byAdmin
    && forall j :: i < j < |history| ==> history[j].key != key || !history[j].byAdmin
  }

  /** The value is the last update that no reset follows, and the default when there is none. */
  ghost predicate IsLastWord<V>(config: Config<V>, history: seq<Change<V>>, key: string, value: V)
    requires key in config.defaults
  {
    && (key in config.baseKeys ==> forall i :: LastWord(history, key, i) ==>
          value == if history[i].Put? then history[i].value else config.defaults[key])
    && (key !in config.baseKeys || (forall i :: !LastWord(history, key, i)) ==> value == config.defaults[key])
  }

  /** After any history of endpoint calls, the overlay shows the last word. */
  lemma {:induction false} OverlayShowsTheLastWord<V>(config: Config<V>, history: seq<Change<V>>, key: string)
    requires key in config.defaults
    ensures IsLastWord(config, history, key, Effective(config, Replay(config.baseKeys, history), key))
  {
    if history != [] {
      var n := |history| - 1;
      OverlayShowsTheLastWord(config, history[..n], key);
      if history[n].key == key && history[n].byAdmin {
        assert LastWord(history, key, n);
      } else {
        forall i ensures LastWord(history, key, i) == LastWord(history[..n], key, i) {}
      }
    }
  }

  /** Any history of calls of the two endpoints on a table that starts empty. */
  method RunHistory<V>(table: SettingsTable<V>, history: seq<Change<V>>)
    requires table.Valid() && table.view == map[]
    modifies table
    ensures table.Valid() && UniqueKeys(table.rows)
    ensures table.view == Replay(table.config.baseKeys, history)
  {
    for i := 0 to |history|
      invariant table.Valid() && table.view == Replay(table.config.baseKeys, history[..i])
    {
      assert history[..i + 1][..i] == history[..i];
      match history[i]
      case Put(key, value, byAdmin) => var _ := table.UpdateSetting(key, value, byAdmin);
      case Reset(key, byAdmin) => var _ := table.ResetSetting(key, byAdmin);
    }
    assert history[..|history|] == history;
  }

  /**
   After any history of endpoint calls the table has one row per key at most, and all its readers agree:
   the endpoints that show and list settings, the lifecycle code and the SMTP code give the last word.
   */
  method ReadAfterHistory<V>(config: Config<V>, history: seq<Change<V>>, key: string)
    returns (rows: seq<(string, V)>, shown: Reply<Setting<V>>, listed: map<string, Setting<V>>, read: V, smtp: map<string, V>)
    requires config.baseKeys <= config.defaults.Keys && SMTP_KEYS + LIFECYCLE_KEYS <= config.defaults.Keys
    requires key in config.defaults
    ensures UniqueKeys(rows)
    ensures IsLastWord(config, history, key, read)
    // only the password is hidden, and nothing asks for a restart
    ensures shown == if key in config.baseKeys then Found(Setting(key, read, key == "smtp_password", false)) else NotFound
    ensures listed.Keys == config.baseKeys && (key in listed ==> listed[key] == Setting(key, read, key == "smtp_password", false))
    ensures smtp.Keys == {"smtp_host", "smtp_port", "smtp_user", "smtp_password", "smtp_use_tls", "smtp_from_address"}
    ensures key in smtp ==> smtp[key] == read
  {
    var table := new SettingsTable(config);
    RunHistory(table, history);
    OverlayShowsTheLastWord(config, history, key);
    shown := table.ShowSetting(key);
    listed := table.ListSettings();
    read := table.ReadSetting(key);
    smtp := table.SmtpConfig();
    rows := table.rows;
  }
}
