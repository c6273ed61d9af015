// agent/updates/policy.go over agent/storage: the settings table and the update history.
module Policy {
  import opened Prelude

  /** One constructor per key prefix of the settings table. */
  datatype Key =
    | Channel(component: string)
    | Pin(component: string)
    | LastManifest(channel: string)
    | Lock
    | Window
    | Pending(component: string)
    | BootAttempts(component: string)

  function KeyText(k: Key): string {
    match k
    case Channel(c) => "update_channel." + c
    case Pin(c) => "pin." + c
    case LastManifest(c) => "last_manifest_released_at." + c
    case Lock => "update_lock"
    case Window => "scheduled_update_window"
    case Pending(c) => "pending_self_update." + c
    case BootAttempts(c) => "boot_attempts." + c
  }

  /** No component or channel name can make one setting's key collide with another's. */
  lemma KeysDoNotCollide(j: Key, k: Key)
    ensures KeyText(j) == KeyText(k) <==> j == k
  {
    var s, t := KeyText(j), KeyText(k);
    if s == t {
      assert s[0] == t[0];
      match j {
        case Channel(c) =>
          assert s[7] == t[7];
          assert s[15..] == c;
          assert k.Channel? ==> t[15..] == k.component;
        case Pin(c) =>
          assert s[1] == t[1];
          assert s[4..] == c;
          assert k.Pin? ==> t[4..] == k.component;
        case LastManifest(c) =>
          assert s[26..] == c;
          assert k.LastManifest? ==> t[26..] == k.channel;
        case Lock =>
          assert s[7] == t[7];
        case Window =>
        case Pending(c) =>
          assert s[1] == t[1];
          assert s[20..] == c;
          assert k.Pending? ==> t[20..] == k.component;
        case BootAttempts(c) =>
          assert s[14..] == c;
          assert k.BootAttempts? ==> t[14..] == k.component;
      }
    }
  }

  datatype PendingSelfUpdate = PendingSelfUpdate(
    component: string, fromVersion: string, toVersion: string, channel: string, historyId: nat)

  /** A stored value: plain text, or a marker kept as JSON. */
  datatype Setting = Text(text: string) | Marker(pending: PendingSelfUpdate)

  type Settings = map<Key, Setting>

  function TextAt(s: Settings, k: Key): Option<string> {
    if k in s && s[k].Text? then Some(s[k].text) else None
  }

  const DEFAULT_CHANNEL := "stable"

  function ChannelOrDefault(s: Settings, component: string, fallback: string): string {
    match TextAt(s, Channel(component)) case Some(c) => c case None => fallback
  }

  function LastSeen(s: Settings, channel: string): string {
    match TextAt(s, LastManifest(channel)) case Some(t) => t case None => ""
  }

  predicate Locked(s: Settings) {
    TextAt(s, Lock) == Some("true")
  }

  function PendingAt(s: Settings, component: string): Option<PendingSelfUpdate> {
    if Pending(component) in s && s[Pending(component)].Marker? then Some(s[Pending(component)].pending) else None
  }

  class SettingsStore {
    var values: Settings
    ghost var faults: nat

    constructor ()
      ensures values == map[]
    {
      values := map[];
      faults := 0;
    }

    method Set(k: Key, v: Setting) returns (ok: bool)
      modifies this
      ensures values == (if ok then old(values)[k := v] else old(values))
      ensures faults == old(faults) + if ok then 0 else 1
    {
      ok := *;
      if ok {
        values := values[k := v];
      } else {
        faults := faults + 1;
      }
    }

    method Delete(k: Key) returns (ok: bool)
      modifies this
      ensures values == (if ok then old(values) - {k} else old(values))
      ensures faults == old(faults) + if ok then 0 else 1
    {
      ok := *;
      if ok {
        values := values - {k};
      } else {
        faults := faults + 1;
      }
    }
  }

  datatype UpdateStatus = Started | Succeeded | Failed | RolledBack

  datatype Record = Record(
    component: string, fromVersion: string, toVersion: string, channel: string,
    status: UpdateStatus, rollbackUsed: bool, checksum: string, manifestVersion: int)

  class HistoryStore {
    var rows: seq<Record>
    ghost var faults: nat

    constructor ()
      ensures rows == []
    {
      rows := [];
      faults := 0;
    }

    /** Returns the row id, or None when the insert failed. */
    method Insert(r: Record) returns (id: Option<nat>)
      modifies this
      ensures rows == (if id.Some? then old(rows) + [r] else old(rows))
      ensures id.Some? ==> id.value == |rows|
      ensures faults == old(faults) + if id.Some? then 0 else 1
    {
      var ok: bool := *;
      if ok {
        rows := rows + [r];
        return Some(|rows|);
      } else {
        faults := faults + 1;
        return None;
      }
    }
  }
}
