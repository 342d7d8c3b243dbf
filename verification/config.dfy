/**
 * The "kanalytics" configuration file as a map from (group, key) to a typed
 * value. Durability is not modelled: a sync is only an event in the
 * service's log.
 */
module Config {
  import opened Wrappers

  datatype Key = Key(group: string, name: string)

  /** KConfig keeps strings; the model keeps the type an entry was written with. */
  datatype Value = BoolValue(b: bool) | TimeValue(secs: int) | TextValue(text: string)

  type Store = map<Key, Value>

  const Uuid := Key("General", "uuid")
  const Timestamp := Key("Export", "Timestamp")
  const UserApproval := Key("Export", "UserApproval")
  const LastSeenPlasmaVersion := Key("Export", "LastSeenPlasmaVersion")

  /** readEntry<bool>(key, default): a stored boolean, otherwise the default. */
  function ReadBool(cfg: Store, k: Key, default: bool): (b: bool)
    ensures k !in cfg ==> b == default
    ensures k in cfg && cfg[k].BoolValue? ==> b == cfg[k].b
  {
    if k in cfg && cfg[k].BoolValue? then cfg[k].b else default
  }

  /** readEntry<QDateTime>(key, QDateTime()): None is the invalid date-time. */
  function ReadTime(cfg: Store, k: Key): (t: Option<int>)
    ensures t.Some? <==> k in cfg && cfg[k].TimeValue?
    ensures t.Some? ==> cfg[k] == TimeValue(t.value)
  {
    if k in cfg && cfg[k].TimeValue? then Some(cfg[k].secs) else None
  }

  /** readEntry(key): a stored string, otherwise the empty string. */
  function ReadText(cfg: Store, k: Key): (s: string)
    ensures k in cfg && cfg[k].TextValue? ==> s == cfg[k].text
    ensures !(k in cfg && cfg[k].TextValue?) ==> s == ""
  {
    if k in cfg && cfg[k].TextValue? then cfg[k].text else ""
  }
}
