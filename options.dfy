/** `getOptions` (server/markdownload.js:15-51): the defaults, then three
    environment overrides, then the caller's overrides, merged key by key. */
module Options {
  import opened JsValues

  /** An options record: property name to value. */
  type Options = map<string, JsValue>

  /** The process environment: variable name to value; an unset variable is absent. */
  type Environment = map<string, string>

  const DefaultFrontmatter: string :=
    "---\ncreated: {date:YYYY-MM-DDTHH:mm:ss} (UTC {date:Z})\ntags: [{keywords}]\nsource: {baseURI}\n"
    + "author: {byline}\n---\n\n# {pageTitle}\n\n> ## Excerpt\n> {excerpt}\n\n---"

  /** `defaultOptions` (lines 15-43). */
  const Defaults: Options := map[
    "headingStyle" := Str("atx"),
    "hr" := Str("___"),
    "bulletListMarker" := Str("-"),
    "codeBlockStyle" := Str("fenced"),
    "fence" := Str("```"),
    "emDelimiter" := Str("_"),
    "strongDelimiter" := Str("**"),
    "linkStyle" := Str("inlined"),
    "linkReferenceStyle" := Str("full"),
    "imageStyle" := Str("markdown"),
    "imageRefStyle" := Str("inlined"),
    "frontmatter" := Str(DefaultFrontmatter),
    "backmatter" := Str(""),
    "title" := Str("{pageTitle}"),
    "includeTemplate" := Bool(true),
    "saveAs" := Bool(false),
    "downloadImages" := Bool(false),
    "imagePrefix" := Str("{pageTitle}/"),
    "mdClipsFolder" := Null,
    "disallowedChars" := Str("[]#^"),
    "downloadMode" := Str("downloadsApi"),
    "turndownEscape" := Bool(true),
    "contextMenus" := Bool(true),
    "obsidianIntegration" := Bool(false),
    "obsidianVault" := Str(""),
    "obsidianFolder" := Str(""),
    "puppeteer" := Bool(false)
  ]

  /** `o[key]`: `undefined` for a missing property. */
  function Lookup(o: Options, key: string): (v: JsValue)
    ensures key !in o ==> v == Undefined
    ensures key in o ==> v == o[key]
  {
    if key in o then o[key] else Undefined
  }

  /** `process.env[name]` is truthy: set and not empty. */
  predicate IsSet(env: Environment, name: string) {
    name in env && env[name] != ""
  }

  /** The overrides read from the environment (lines 47-49). */
  function EnvOptions(env: Environment): (r: Options)
    ensures "downloadImages" in r <==> IsSet(env, "DOWNLOAD_IMAGES")
    ensures "imageStyle" in r <==> IsSet(env, "IMAGE_STYLE")
    ensures "puppeteer" in r <==> IsSet(env, "USE_PUPPETEER")
    ensures "downloadImages" in r ==> r["downloadImages"] == Bool(env["DOWNLOAD_IMAGES"] == "true")
    ensures "imageStyle" in r ==> r["imageStyle"] == Str(env["IMAGE_STYLE"])
    ensures "puppeteer" in r ==> r["puppeteer"] == Bool(env["USE_PUPPETEER"] == "true")
    ensures r.Keys <= {"downloadImages", "imageStyle", "puppeteer"}
  {
    var images: Options :=
      if IsSet(env, "DOWNLOAD_IMAGES") then map["downloadImages" := Bool(env["DOWNLOAD_IMAGES"] == "true")]
      else map[];
    var style: Options :=
      if IsSet(env, "IMAGE_STYLE") then map["imageStyle" := Str(env["IMAGE_STYLE"])] else map[];
    var puppeteer: Options :=
      if IsSet(env, "USE_PUPPETEER") then map["puppeteer" := Bool(env["USE_PUPPETEER"] == "true")]
      else map[];
    images + style + puppeteer
  }

  /** `getOptions(overrides)`: a fresh record in which the caller's overrides win,
      then the environment, then the defaults. */
  function GetOptions(env: Environment, overrides: Options): Options {
    Defaults + EnvOptions(env) + overrides
  }

  /** Every property of the record comes from the first of the caller's
      overrides, the environment and the defaults that has it. */
  lemma Precedence(env: Environment, overrides: Options, k: string)
    ensures k in GetOptions(env, overrides) <==> k in overrides || k in EnvOptions(env) || k in Defaults
    ensures Lookup(GetOptions(env, overrides), k)
         == if k in overrides then overrides[k]
            else if k in EnvOptions(env) then EnvOptions(env)[k]
            else Lookup(Defaults, k)
  {
  }

  /** With nothing in the environment and no overrides, the defaults come back. */
  lemma NoOverridesGivesDefaults(env: Environment)
    requires !IsSet(env, "DOWNLOAD_IMAGES") && !IsSet(env, "IMAGE_STYLE") && !IsSet(env, "USE_PUPPETEER")
    ensures GetOptions(env, map[]) == Defaults
  {
    assert EnvOptions(env) == map[];
  }

  /** Only three properties can come from the environment; every other property
      the caller does not override keeps its default. */
  lemma EnvTouchesThreeKeys(env: Environment, overrides: Options, k: string)
    requires k in Defaults && k !in overrides
    requires k !in {"downloadImages", "imageStyle", "puppeteer"}
    ensures Lookup(GetOptions(env, overrides), k) == Defaults[k]
  {
    Precedence(env, overrides, k);
  }

  /** The image switch: the caller's value, else `DOWNLOAD_IMAGES === 'true'` when
      the variable is set and not empty, else the default `false`. */
  lemma DownloadImagesPrecedence(env: Environment, overrides: Options)
    ensures Lookup(GetOptions(env, overrides), "downloadImages")
         == if "downloadImages" in overrides then overrides["downloadImages"]
            else if IsSet(env, "DOWNLOAD_IMAGES") then Bool(env["DOWNLOAD_IMAGES"] == "true")
            else Bool(false)
  {
    Precedence(env, overrides, "downloadImages");
  }
}
