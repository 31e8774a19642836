/** `convertArticleToMarkdown` (server/markdownload.js:255-283): expand the front
    and back matter templates, sanitise the image path prefix, hand the article's
    HTML to Turndown, and wrap its output. */
module Conversion {
  import opened JsStrings
  import opened JsValues
  import opened Articles
  import opened FileNames
  import opened Templates
  import opened Options
  import opened Images

  /** What the conversion calls out to: the template externals (clock, `moment`,
      the JSON round trip), a Turndown service built from the options it is given
      (with the GFM plugin and the kept tags of lines 271-273), the image services,
      and the identifier `uuidv4()` would return. */
  datatype Services = Services(
    templating: Externals,
    turndown: (Options, JsValue) -> string,
    images: ImageIo,
    newId: string)

  /** `{ markdown, imageList }`. */
  datatype Converted = Converted(markdown: string, imageList: map<string, string>)

  /** The front and back matter as they are glued around the body. */
  datatype Framing = Framing(front: string, back: string)

  /** A template option as `textReplace` receives it: any value other than a
      string throws a `TypeError` at its first `replace` or `match`. */
  function TemplateOption(options: Options, key: string): (r: Result<string>)
    ensures r.Ok? <==> Lookup(options, key).Str?
    ensures r.Ok? ==> r.value == Lookup(options, key).s
    ensures r.Err? ==> r.error == TypeError
  {
    match Lookup(options, key)
    case Str(s) => Ok(s)
    case _ => Err(TypeError)
  }

  /** `options.disallowedChars` as a set of characters: a falsy value is the empty
      set and a string its characters; any other value is outside the model. */
  function DisallowedOption(options: Options): (r: Result<string>)
    ensures !Truthy(Lookup(options, "disallowedChars")) ==> r == Ok("")
    ensures Lookup(options, "disallowedChars").Str? ==> r == Ok(Lookup(options, "disallowedChars").s)
  {
    var v := Lookup(options, "disallowedChars");
    if !Truthy(v) then Ok("")
    else if v.Str? then Ok(v.s)
    else Err(OutsideModel)
  }

  /** `s.split('/').map(p => generateValidFileName(p, disallowed)).join('/')`. */
  function SanitisePath(s: string, disallowed: string): string {
    var pieces := Split(s, "/");
    Join(seq(|pieces|, k requires 0 <= k < |pieces| => ValidFileName(pieces[k], disallowed)), "/")
  }

  /** Lines 259-264: the expanded templates, the front one followed by a line
      break and the back one preceded by one; both empty without templates. */
  function Frame(options: Options, article: Article, ext: Externals): Result<Framing>
    requires SafeKeys(article)
  {
    if !Truthy(Lookup(options, "includeTemplate")) then Ok(Framing("", ""))
    else
      match TemplateOption(options, "frontmatter")
      case Err(e) => Err(e)
      case Ok(front) =>
        match ExpandTemplate(front, article, "", ext)
        case Err(e) => Err(e)
        case Ok(f) =>
          match TemplateOption(options, "backmatter")
          case Err(e) => Err(e)
          case Ok(back) =>
            match ExpandTemplate(back, article, "", ext)
            case Err(e) => Err(e)
            case Ok(b) => Ok(Framing(f + "\n", "\n" + b))
  }

  /** Lines 266-269: the expanded image prefix, each `/`-separated piece sanitised. */
  function ImagePrefix(options: Options, article: Article, ext: Externals): Result<string>
    requires SafeKeys(article)
  {
    match TemplateOption(options, "imagePrefix")
    case Err(e) => Err(e)
    case Ok(template) =>
      match DisallowedOption(options)
      case Err(e) => Err(e)
      case Ok(disallowed) =>
        match ExpandTemplate(template, article, disallowed, ext)
        case Err(e) => Err(e)
        case Ok(p) => Ok(SanitisePath(p, disallowed))
  }

  /** The options Turndown is built from, after the three assignments of lines 260-269. */
  function EmitterOptions(options: Options, frame: Framing, prefix: string): Options {
    options["frontmatter" := Str(frame.front)]["backmatter" := Str(frame.back)]["imagePrefix" := Str(prefix)]
  }

  /** The record handed to Turndown differs from the one `getOptions` built in the
      three assigned properties only, which hold the framing and the prefix. */
  lemma EmitterOptionsChangesThree(options: Options, frame: Framing, prefix: string, k: string)
    ensures Lookup(EmitterOptions(options, frame, prefix), "frontmatter") == Str(frame.front)
    ensures Lookup(EmitterOptions(options, frame, prefix), "backmatter") == Str(frame.back)
    ensures Lookup(EmitterOptions(options, frame, prefix), "imagePrefix") == Str(prefix)
    ensures k !in {"frontmatter", "backmatter", "imagePrefix"} ==>
      Lookup(EmitterOptions(options, frame, prefix), k) == Lookup(options, k)
  {
  }

  /** `overrides.id || uuidv4()`. */
  function ImageId(overrides: Options, sv: Services): string {
    var id := Lookup(overrides, "id");
    if Truthy(id) then ToJsString(id) else sv.newId
  }

  /** `convertArticleToMarkdown(article, overrides)` under environment `env`. */
  function Convert(article: Article, env: Environment, overrides: Options, sv: Services): (r: Result<Converted>)
    requires SafeKeys(article)
    ensures r.Ok? ==> r.value.imageList == map[]
  {
    ConvertWith(GetOptions(env, overrides), article, overrides, sv)
  }

  /** The conversion once the options record is built. */
  function ConvertWith(options: Options, article: Article, overrides: Options, sv: Services): (r: Result<Converted>)
    requires SafeKeys(article)
    ensures r.Ok? ==> r.value.imageList == map[]
  {
    match Frame(options, article, sv.templating)
    case Err(e) => Err(e)
    case Ok(frame) =>
      match ImagePrefix(options, article, sv.templating)
      case Err(e) => Err(e)
      case Ok(prefix) =>
        var body := sv.turndown(EmitterOptions(options, frame, prefix), Get(article, "content"));
        var markdown := frame.front + body + frame.back;
        if Truthy(Lookup(options, "downloadImages")) && Lookup(options, "imageStyle") != Str("base64") then
          var d := DownloadAll(Downloaded(map[], markdown), [], Lookup(options, "imageStyle") == Str("base64"),
                               ImageId(overrides, sv), sv.images);
          Ok(Converted(d.markdown, d.imageList))
        else Ok(Converted(markdown, map[]))
  }

  /** `convertArticleToMarkdown(article, overrides)` under environment `env`,
      assigning the fields of its fresh options record one after another. */
  method ConvertArticleToMarkdown(article: Article, env: Environment, overrides: Options, sv: Services)
    returns (r: Result<Converted>)
    requires SafeKeys(article)
    ensures r == Convert(article, env, overrides, sv)
  {
    var options := GetOptions(env, overrides);
    r := ConvertWithOptions(options, article, overrides, sv);
  }

  /** Lines 258-282, on the record `getOptions` built. */
  method ConvertWithOptions(built: Options, article: Article, overrides: Options, sv: Services)
    returns (r: Result<Converted>)
    requires SafeKeys(article)
    ensures r == ConvertWith(built, article, overrides, sv)
  {
    var options := built;
    var front := "";
    var back := "";
    if Truthy(Lookup(options, "includeTemplate")) {
      var frontTemplate := TemplateOption(options, "frontmatter");
      if frontTemplate.Err? {
        return Err(frontTemplate.error);
      }
      var f := TextReplace(frontTemplate.value, article, "", sv.templating);
      if f.Err? {
        return Err(f.error);
      }
      front := f.value + "\n";
      options := options["frontmatter" := Str(front)];
      var backTemplate := TemplateOption(options, "backmatter");
      if backTemplate.Err? {
        return Err(backTemplate.error);
      }
      var b := TextReplace(backTemplate.value, article, "", sv.templating);
      if b.Err? {
        return Err(b.error);
      }
      back := "\n" + b.value;
      options := options["backmatter" := Str(back)];
    } else {
      options := options["frontmatter" := Str("")]["backmatter" := Str("")];
    }
    assert Frame(built, article, sv.templating) == Ok(Framing(front, back));
    assert options == built["frontmatter" := Str(front)]["backmatter" := Str(back)];
    var prefixTemplate := TemplateOption(options, "imagePrefix");
    if prefixTemplate.Err? {
      return Err(prefixTemplate.error);
    }
    var disallowed := DisallowedOption(options);
    if disallowed.Err? {
      return Err(disallowed.error);
    }
    var expanded := TextReplace(prefixTemplate.value, article, disallowed.value, sv.templating);
    if expanded.Err? {
      return Err(expanded.error);
    }
    options := options["imagePrefix" := Str(SanitisePath(expanded.value, disallowed.value))];
    assert ImagePrefix(built, article, sv.templating) == Ok(SanitisePath(expanded.value, disallowed.value));
    assert options == EmitterOptions(built, Framing(front, back), SanitisePath(expanded.value, disallowed.value));
    var body := sv.turndown(options, Get(article, "content"));
    var markdown := front + body + back;
    var imageList: map<string, string> := map[];
    if Truthy(Lookup(options, "downloadImages")) && Lookup(options, "imageStyle") != Str("base64") {
      var pre := PreDownloadImages([], markdown, options, ImageId(overrides, sv), sv.images);
      markdown := pre.markdown;
      imageList := pre.imageList;
    }
    r := Ok(Converted(markdown, imageList));
  }

  /** Sanitising the prefix keeps its `/` separators: as many as before, and the
      pieces between them are the sanitised pieces of the expanded prefix. */
  lemma SanitisePathKeepsSlashes(s: string, disallowed: string)
    ensures CountChar(SanitisePath(s, disallowed), '/') == CountChar(s, '/')
    ensures Split(SanitisePath(s, disallowed), "/")
         == seq(|Split(s, "/")|, k requires 0 <= k < |Split(s, "/")| => ValidFileName(Split(s, "/")[k], disallowed))
  {
    var pieces := Split(s, "/");
    var names := seq(|pieces|, k requires 0 <= k < |pieces| => ValidFileName(pieces[k], disallowed));
    SplitCharPieces(s, '/');
    forall k | 0 <= k < |names|
      ensures '/' !in names[k]
    {
      ValidFileNameDeletesDisallowed(pieces[k], disallowed);
      assert IsIllegal('/');
    }
    JoinCharCount(names, '/');
    JoinSplitRoundTrip(names, '/');
  }

  /** The converted markdown is the front matter, Turndown's output for the
      article's HTML under the updated options, and the back matter, in that order:
      the image step leaves it as it was. */
  lemma {:induction false} MarkdownIsFramedBody(options: Options, article: Article, overrides: Options, sv: Services)
    requires SafeKeys(article)
    requires ConvertWith(options, article, overrides, sv).Ok?
    ensures Frame(options, article, sv.templating).Ok? && ImagePrefix(options, article, sv.templating).Ok?
    ensures var frame := Frame(options, article, sv.templating).value;
      var prefix := ImagePrefix(options, article, sv.templating).value;
      ConvertWith(options, article, overrides, sv).value.markdown
      == frame.front + sv.turndown(EmitterOptions(options, frame, prefix), Get(article, "content")) + frame.back
  {
  }

  /** Without templates both framings are empty. */
  lemma WithoutTemplateNoFraming(options: Options, article: Article, ext: Externals)
    requires SafeKeys(article)
    requires !Truthy(Lookup(options, "includeTemplate"))
    ensures Frame(options, article, ext) == Ok(Framing("", ""))
  {
  }

  /** With templates the front matter is the expanded front template followed by
      a line break and the back matter a line break followed by the expanded back
      template, both expanded without a disallowed set. */
  lemma WithTemplateFraming(options: Options, article: Article, ext: Externals)
    requires SafeKeys(article)
    requires Truthy(Lookup(options, "includeTemplate"))
    requires Frame(options, article, ext).Ok?
    ensures Lookup(options, "frontmatter").Str? && Lookup(options, "backmatter").Str?
    ensures ExpandTemplate(Lookup(options, "frontmatter").s, article, "", ext).Ok?
    ensures ExpandTemplate(Lookup(options, "backmatter").s, article, "", ext).Ok?
    ensures Frame(options, article, ext).value
         == Framing(ExpandTemplate(Lookup(options, "frontmatter").s, article, "", ext).value + "\n",
                    "\n" + ExpandTemplate(Lookup(options, "backmatter").s, article, "", ext).value)
  {
  }

  /** Without templates the markdown is exactly what Turndown produced. */
  lemma WithoutTemplateMarkdownIsBody(article: Article, env: Environment, overrides: Options, sv: Services)
    requires SafeKeys(article)
    requires !Truthy(Lookup(GetOptions(env, overrides), "includeTemplate"))
    requires Convert(article, env, overrides, sv).Ok?
    ensures var options := GetOptions(env, overrides);
      var prefix := ImagePrefix(options, article, sv.templating);
      prefix.Ok?
      && Convert(article, env, overrides, sv).value.markdown
         == sv.turndown(EmitterOptions(options, Framing("", ""), prefix.value), Get(article, "content"))
  {
    var options := GetOptions(env, overrides);
    MarkdownIsFramedBody(options, article, overrides, sv);
    WithoutTemplateNoFraming(options, article, sv.templating);
  }

  /** With templates the markdown is the expanded front matter, a line break,
      Turndown's output, a line break and the expanded back matter. */
  lemma WithTemplateMarkdownIsWrapped(article: Article, env: Environment, overrides: Options, sv: Services)
    requires SafeKeys(article)
    requires Truthy(Lookup(GetOptions(env, overrides), "includeTemplate"))
    requires Convert(article, env, overrides, sv).Ok?
    ensures var options := GetOptions(env, overrides);
      Lookup(options, "frontmatter").Str? && Lookup(options, "backmatter").Str?
      && ExpandTemplate(Lookup(options, "frontmatter").s, article, "", sv.templating).Ok?
      && ExpandTemplate(Lookup(options, "backmatter").s, article, "", sv.templating).Ok?
      && ImagePrefix(options, article, sv.templating).Ok?
      && var f := ExpandTemplate(Lookup(options, "frontmatter").s, article, "", sv.templating).value;
         var b := ExpandTemplate(Lookup(options, "backmatter").s, article, "", sv.templating).value;
         var body := sv.turndown(EmitterOptions(options, Framing(f + "\n", "\n" + b),
                                                ImagePrefix(options, article, sv.templating).value),
                                 Get(article, "content"));
         Convert(article, env, overrides, sv).value.markdown == f + "\n" + body + "\n" + b
  {
    var options := GetOptions(env, overrides);
    MarkdownIsFramedBody(options, article, overrides, sv);
    WithTemplateFraming(options, article, sv.templating);
  }

  /** A front matter option that is not a string makes the conversion throw. */
  lemma NonStringFrontmatterThrows(article: Article, env: Environment, overrides: Options, sv: Services)
    requires SafeKeys(article)
    requires Truthy(Lookup(GetOptions(env, overrides), "includeTemplate"))
    requires !Lookup(GetOptions(env, overrides), "frontmatter").Str?
    ensures Convert(article, env, overrides, sv) == Err(TypeError)
  {
  }
}
