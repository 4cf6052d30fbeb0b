/** The extension manifest as a JSON document, and the rewrite that turns the
    standard manifest into the Firefox one. */
module Manifest {
  import opened Outcomes

  /** A parsed JSON value; numbers are kept as integers, and an object is a
      map from key to value. */
  datatype Json =
    | JNull
    | JBool(b: bool)
    | JNumber(n: int)
    | JString(s: string)
    | JArray(items: seq<Json>)
    | JObject(members: map<string, Json>)

  const BackgroundKey := "background"
  const SettingsKey := "browser_specific_settings"

  /** {scripts: ["background.js"], type: "module"} */
  const FirefoxBackground: Json :=
    JObject(map["scripts" := JArray([JString("background.js")]), "type" := JString("module")])

  /** {gecko: {id: "budoux-extension@example.com", strict_min_version: "109.0"}} */
  const FirefoxSettings: Json :=
    JObject(map["gecko" := JObject(map[
      "id" := JString("budoux-extension@example.com"),
      "strict_min_version" := JString("109.0")])])

  /** An object carries the two Firefox fields with their fixed values. */
  predicate IsFirefoxShaped(j: Json)
  {
    j.JObject? &&
    BackgroundKey in j.members && j.members[BackgroundKey] == FirefoxBackground &&
    SettingsKey in j.members && j.members[SettingsKey] == FirefoxSettings
  }

  /** Setting `background` and `browser_specific_settings` on the parsed
      manifest. On an object both keys are overwritten or added; on an array
      the assignments create properties that serialisation drops, so the
      document is unchanged; on any other value strict-mode assignment throws. */
  function ForFirefox(manifest: Json): (r: Result<Json>)
    ensures manifest.JObject? ==>
      r.Ok? && IsFirefoxShaped(r.value) &&
      r.value.members.Keys == manifest.members.Keys + {BackgroundKey, SettingsKey} &&
      forall k :: k in manifest.members && k != BackgroundKey && k != SettingsKey ==>
        r.value.members[k] == manifest.members[k]
    ensures manifest.JArray? ==> r == Ok(manifest)
    ensures !manifest.JObject? && !manifest.JArray? ==> r == Err(TypeError)
  {
    match manifest
    case JObject(m) => Ok(JObject(m[BackgroundKey := FirefoxBackground][SettingsKey := FirefoxSettings]))
    case JArray(_) => Ok(manifest)
    case _ => Err(TypeError)
  }

  /** Rewriting a manifest that is already the Firefox one changes nothing. */
  lemma ForFirefoxIdempotent(manifest: Json)
    requires ForFirefox(manifest).Ok?
    ensures ForFirefox(ForFirefox(manifest).value) == ForFirefox(manifest)
  {
    if manifest.JObject? {
      var m := manifest.members;
      var once := m[BackgroundKey := FirefoxBackground][SettingsKey := FirefoxSettings];
      assert once[BackgroundKey := FirefoxBackground][SettingsKey := FirefoxSettings] == once;
    }
  }

  /** A manifest is left as it is exactly when it already carries both
      Firefox fields (or is an array). */
  lemma ForFirefoxFixpoint(manifest: Json)
    requires manifest.JObject?
    ensures ForFirefox(manifest) == Ok(manifest) <==> IsFirefoxShaped(manifest)
  {
    var m := manifest.members;
    if IsFirefoxShaped(manifest) {
      assert m[BackgroundKey := FirefoxBackground][SettingsKey := FirefoxSettings] == m;
    }
  }
}
