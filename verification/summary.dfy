/**
 * The per-installation identifier and the snapshot document
 * (src/summary.cpp).
 */
module Summary {
  import opened Text
  import opened Json
  import Config

  /** A Summary holds only the identifier it fixed at construction. */
  datatype Summary = Summary(uuid: string)

  datatype Loaded = Loaded(summary: Summary, config: Config.Store)

  /**
   * Summary::Summary: adopt General/uuid when the key exists; otherwise take
   * the text of a freshly generated QUuid (`generated`, random and not
   * interpreted here), strip its braces and write it under General/uuid.
   */
  function Load(cfg: Config.Store, generated: string): (r: Loaded)
    ensures Config.Uuid in cfg ==> r.config == cfg && r.summary.uuid == Config.ReadText(cfg, Config.Uuid)
    ensures Config.Uuid !in cfg ==> r.config == cfg[Config.Uuid := Config.TextValue(r.summary.uuid)]
    ensures Config.Uuid !in cfg ==> '{' !in r.summary.uuid && '}' !in r.summary.uuid
    ensures Config.Uuid !in cfg ==> r.summary.uuid == Remove(Remove(generated, '{'), '}')
    ensures Config.Uuid in r.config && Config.ReadText(r.config, Config.Uuid) == r.summary.uuid
  {
    if Config.Uuid in cfg then
      Loaded(Summary(Config.ReadText(cfg, Config.Uuid)), cfg)
    else
      var id := Remove(Remove(generated, '{'), '}');
      Loaded(Summary(id), cfg[Config.Uuid := Config.TextValue(id)])
  }

  /**
   * Loading twice with no write in between gives the same identifier, and
   * the second load writes nothing, whatever the second QUuid would have been.
   */
  lemma LoadIdempotent(cfg: Config.Store, first: string, second: string)
    ensures Load(Load(cfg, first).config, second).summary == Load(cfg, first).summary
    ensures Load(Load(cfg, first).config, second).config == Load(cfg, first).config
  {
  }

  /** The stripped QUuid text keeps everything but the braces. */
  lemma {:induction false} GeneratedUuidKeepsDigits(cfg: Config.Store, generated: string, c: char)
    requires Config.Uuid !in cfg
    requires c != '{' && c != '}'
    ensures c in Load(cfg, generated).summary.uuid <==> c in generated
    ensures |Load(cfg, generated).summary.uuid| == |generated| - Count(generated, '{') - Count(generated, '}')
  {
    var once := Remove(generated, '{');
    assert c in once <==> c in generated;
    assert Count(once, '}') == Count(generated, '}') by {
      CountRemoved(generated, '{', '}');
    }
  }

  /**
   * QUuid::toString() gives the identifier between one pair of braces; the
   * stored identifier is exactly the text inside them.
   */
  lemma BracedUuidUnwrapped(cfg: Config.Store, inner: string)
    requires Config.Uuid !in cfg
    requires '{' !in inner && '}' !in inner
    ensures Load(cfg, "{" + inner + "}").summary.uuid == inner
    ensures Config.ReadText(Load(cfg, "{" + inner + "}").config, Config.Uuid) == inner
  {
    var left := Remove("{" + inner, '{') + Remove("}", '{');
    RemoveAppend("{" + inner, "}", '{');
    RemoveAppend("{", inner, '{');
    RemoveAbsent(inner, '{');
    RemoveAbsent("}", '{');
    assert left == inner + "}";
    RemoveAppend(inner, "}", '}');
    RemoveAbsent(inner, '}');
  }

  /** userUuid(): the identifier fixed at construction. */
  function UserUuid(s: Summary): string {
    s.uuid
  }

  const JsonKeys: set<string> := {"uuid", "hardware", "system", "KDE"}

  /**
   * Summary::toJson: an object with exactly the keys uuid, hardware, system
   * and KDE. The provider objects are built afresh by the caller for every
   * call and passed in.
   */
  function ToJson(s: Summary, hardware: Json, system: Json, kde: Json): (j: Json)
    ensures j.JObject? && j.Keys() == JsonKeys
    ensures j.fields["uuid"] == JString(UserUuid(s))
    ensures j.fields["hardware"] == hardware && j.fields["system"] == system && j.fields["KDE"] == kde
  {
    JObject(map["uuid" := JString(s.uuid), "hardware" := hardware, "system" := system, "KDE" := kde])
  }
}
