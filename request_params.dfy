/** The parameter arrays handed to the installer: the LOAD request that
    downloads an edition and the UNPACK request that unpacks an archive. */
module RequestParams {
  import opened PhpValues
  import opened CliArgs

  /** A request parameter array (`$_GET`, `$_POST`, `$_REQUEST`). */
  type Params = map<string, Value>

  /** The `edition` index the LOAD request always sends. What the installer
      expects here is not known; the value is kept as the script has it. */
  const EditionPlaceholder: Value := Int(0)

  /** Every key a LOAD request can carry. */
  const LoadKeys: set<string> :=
    {"action", "edition", "url", "lang", "licence_type", "LICENSE_KEY", "action_next"}

  /** The LOAD request for the edition at `url`. The licence key is sent only
      for a "src" licence with a key PHP does not consider empty, and the
      request asks the installer to go on with UNPACK only with `--auto`. */
  function LoadParams(opts: Options, url: string): (p: Params)
    ensures "action" in p && p["action"] == Str("LOAD")
    ensures "edition" in p && p["edition"] == EditionPlaceholder
    ensures "url" in p && p["url"] == Str(url)
    ensures "lang" in p && p["lang"] == opts.lang
    ensures "licence_type" in p && p["licence_type"] == Str(opts.licenseType.Name())
    ensures "LICENSE_KEY" in p <==> opts.licenseType == Src && !Empty(opts.licenseKey)
    ensures "LICENSE_KEY" in p ==> p["LICENSE_KEY"] == opts.licenseKey
    ensures "action_next" in p <==> opts.auto
    ensures "action_next" in p ==> p["action_next"] == Str("UNPACK")
    ensures forall k :: k in p ==> k in LoadKeys
  {
    var base := map[
      "action" := Str("LOAD"),
      "edition" := EditionPlaceholder,
      "url" := Str(url),
      "lang" := opts.lang,
      "licence_type" := Str(opts.licenseType.Name())];
    var withKey :=
      if opts.licenseType == Src && !Empty(opts.licenseKey) then base["LICENSE_KEY" := opts.licenseKey]
      else base;
    if opts.auto then withKey["action_next" := Str("UNPACK")] else withKey
  }

  /** The UNPACK request for the archive `filename`, unpacked step by step. */
  function UnpackParams(filename: string, lang: Value): (p: Params)
    ensures p.Keys == {"action", "filename", "lang", "by_step"}
    ensures p["action"] == Str("UNPACK") && p["filename"] == Str(filename)
    ensures p["lang"] == lang && p["by_step"] == Str("Y")
  {
    map["action" := Str("UNPACK"), "filename" := Str(filename), "lang" := lang, "by_step" := Str("Y")]
  }

  /** `--commercial --license-key=0`: the key "0" is empty to PHP, so the
      LOAD request carries no licence key although the licence is "src". */
  lemma ZeroKeyIsNotSent(opts: Options, url: string)
    requires opts.licenseType == Src && opts.licenseKey == Str("0")
    ensures "LICENSE_KEY" !in LoadParams(opts, url)
    ensures LoadParams(opts, url)["licence_type"] == Str("src")
  {
  }
}
