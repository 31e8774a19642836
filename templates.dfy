/** `textReplace` (server/markdownload.js:70-114): expand the placeholders of a
    template against an article, in four passes — per field, dates, keywords,
    and the removal of whatever `{…}` is left. */
module Templates {
  import opened JsStrings
  import opened JsValues
  import opened Articles
  import opened FileNames

  /** What the template engine takes from outside: the instant `new Date()`
      returns (line 88), `moment(now).format(fmt)` (line 94), and the JSON
      round trip of line 104, which the model consults only for separators
      holding a backslash (without one the round trip returns its input). */
  datatype Externals = Externals(now: int, format: (int, string) -> string, unescape: string -> string)

  /** The ten forms of a field placeholder, in the order lines 76-85 rewrite them. */
  datatype Case = Plain | Lower | Upper | Kebab | MixedKebab | Snake | MixedSnake | ObsidianCal | Camel | Pascal

  const Cases: seq<Case> := [Plain, Lower, Upper, Kebab, MixedKebab, Snake, MixedSnake, ObsidianCal, Camel, Pascal]

  function Suffix(c: Case): string {
    match c
    case Plain => ""
    case Lower => ":lower"
    case Upper => ":upper"
    case Kebab => ":kebab"
    case MixedKebab => ":mixed-kebab"
    case Snake => ":snake"
    case MixedSnake => ":mixed_snake"
    case ObsidianCal => ":obsidian-cal"
    case Camel => ":camel"
    case Pascal => ":pascal"
  }

  /** `{key}` or `{key:form}`. */
  function Placeholder(key: string, c: Case): string {
    "{" + key + Suffix(c) + "}"
  }

  /** The characters a key may not hold for `new RegExp('{' + key + '}')` to match
      the placeholder literally. */
  const RegexSpecial: string := "\\^$.|?*+()[]{}"

  /** A key the model covers: no regular-expression metacharacter, and not a
      number list like `2` or `1,3` (which would make `{key}` a quantifier). */
  predicate SafeKey(key: string) {
    (forall c :: c in key ==> c !in RegexSpecial)
    && exists c :: c in key && c !in "0123456789,"
  }

  predicate SafeKeys(article: Article) {
    forall f :: f in article && f.key != "content" ==> SafeKey(f.key)
  }

  predicate IsHyphen(c: char) { c == '-' }

  /** `s.replace(/ ./g, str => str.trim().toUpperCase())`: a space and the
      character after it (not a line terminator) become that character upper-cased,
      or nothing when that character is white space too. */
  function CapitalizeWords(s: string): (r: string)
    ensures |r| <= |s|
    ensures (forall k :: 0 <= k < |s| ==> s[k] != ' ') ==> r == s
    ensures forall c :: c in r ==> c in s || exists d :: d in s && c == UpperChar(d)
    decreases |s|
  {
    if |s| >= 2 && s[0] == ' ' && !IsLineTerminator(s[1]) then
      (if IsJsSpace(s[1]) then "" else [UpperChar(s[1])]) + CapitalizeWords(s[2..])
    else if s == [] then []
    else [s[0]] + CapitalizeWords(s[1..])
  }

  /** `s.replace(/^./, str => f(str))`: the first character, unless it is a
      line terminator, goes through `f`; the others are kept. */
  function MapFirst(s: string, f: char -> char): (r: string)
    ensures |r| == |s|
    ensures forall i :: 1 <= i < |s| ==> r[i] == s[i]
    ensures s != [] ==> r[0] == (if IsLineTerminator(s[0]) then s[0] else f(s[0]))
    ensures forall c :: c in r ==> c in s || (s != [] && c == f(s[0]))
  {
    if s != [] && !IsLineTerminator(s[0]) then [f(s[0])] + s[1..] else s
  }

  /** The text a form substitutes for a field's text `s` (lines 76-85). */
  function Render(c: Case, s: string): (r: string)
    ensures c in {Plain, Lower, Upper, Kebab, MixedKebab, Snake, MixedSnake} ==> |r| == |s|
    ensures c in {Kebab, MixedKebab, Snake, MixedSnake, ObsidianCal} ==> ' ' !in r
    ensures c in {Lower, Kebab, Snake} ==> forall i :: 0 <= i < |r| ==> !IsAsciiUpper(r[i])
    ensures c == Upper ==> forall i :: 0 <= i < |r| ==> !IsAsciiLower(r[i])
    ensures c in {MixedKebab, MixedSnake} ==> forall i :: 0 <= i < |s| && s[i] != ' ' ==> r[i] == s[i]
    ensures c == Plain ==> r == s
    ensures c == Lower ==> forall i :: 0 <= i < |s| ==> r[i] == LowerChar(s[i])
    ensures c == Upper ==> forall i :: 0 <= i < |s| ==> r[i] == UpperChar(s[i])
    ensures c in {Kebab, Snake} ==> forall i :: 0 <= i < |s| && s[i] != ' ' ==> r[i] == LowerChar(s[i])
    ensures c in {Kebab, MixedKebab} ==> forall i :: 0 <= i < |s| && s[i] == ' ' ==> r[i] == '-'
    ensures c in {Snake, MixedSnake} ==> forall i :: 0 <= i < |s| && s[i] == ' ' ==> r[i] == '_'
  {
    match c
    case Plain => s
    case Lower => ToLower(s)
    case Upper => ToUpper(s)
    case Kebab => ToLower(SpacesTo(s, '-'))
    case MixedKebab => SpacesTo(s, '-')
    case Snake => ToLower(SpacesTo(s, '_'))
    case MixedSnake => SpacesTo(s, '_')
    case ObsidianCal => CollapseRuns(SpacesTo(s, '-'), IsHyphen, '-')
    case Camel => MapFirst(CapitalizeWords(s), LowerChar)
    case Pascal => MapFirst(CapitalizeWords(s), UpperChar)
  }

  /** Lines 73-74: `String(article[key] || '')`, sanitised when a disallowed set is given. */
  function FieldText(v: JsValue, disallowed: string): string {
    var s := TextOf(v);
    if s != "" && disallowed != "" then ValidFileName(s, disallowed) else s
  }

  /** The chain of `.replace` calls of lines 75-85, over the forms `cs`. */
  function ReplaceCases(t: string, key: string, text: string, cs: seq<Case>): string
    decreases |cs|
  {
    if cs == [] then t
    else ReplaceCases(ReplaceAll(t, Placeholder(key, cs[0]), Render(cs[0], text)), key, text, cs[1..])
  }

  /** One iteration of the `for…in` loop (lines 71-87). */
  function FieldStep(t: string, f: Field, disallowed: string): string {
    if f.key == "content" then t else ReplaceCases(t, f.key, FieldText(f.value, disallowed), Cases)
  }

  /** The per-field pass: a fold over the article's properties in enumeration order. */
  function FieldPass(t: string, fields: seq<Field>, disallowed: string): string
    decreases |fields|
  {
    if fields == [] then t else FieldPass(FieldStep(t, fields[0], disallowed), fields[1..], disallowed)
  }

  /** Index of the first line terminator at or after `i`, or `|s|`: the end of
      the stretch a regular-expression `.` can run over. */
  function LineEnd(s: string, i: nat): (e: nat)
    requires i <= |s|
    ensures i <= e <= |s| && (e < |s| ==> IsLineTerminator(s[e]))
    ensures forall k :: i <= k < e ==> !IsLineTerminator(s[k])
    decreases |s| - i
  {
    if i == |s| || IsLineTerminator(s[i]) then i else LineEnd(s, i + 1)
  }

  /** Index of the first `}` at or after `i` with no line terminator before it. */
  function CloseOnLine(s: string, i: nat): (r: Option<nat>)
    requires i <= |s|
    ensures r.Some? ==> i <= r.value < |s| && s[r.value] == '}'
    decreases |s| - i
  {
    if i == |s| || IsLineTerminator(s[i]) then None
    else if s[i] == '}' then Some(i)
    else CloseOnLine(s, i + 1)
  }

  /** `CloseOnLine` finds the nearest `}` before the line ends, and finds
      nothing only when the line from `i` holds no `}`. */
  lemma {:induction false} CloseOnLineMeaning(s: string, i: nat)
    requires i <= |s|
    ensures CloseOnLine(s, i).Some? ==>
      var j := CloseOnLine(s, i).value;
      i <= j < LineEnd(s, i) && s[j] == '}' && forall k :: i <= k < j ==> s[k] != '}'
    ensures CloseOnLine(s, i).None? ==> forall k :: i <= k < LineEnd(s, i) ==> s[k] != '}'
    decreases |s| - i
  {
    if i < |s| && !IsLineTerminator(s[i]) && s[i] != '}' {
      CloseOnLineMeaning(s, i + 1);
    }
  }

  /** Index of the last `}` at or after `i` with no line terminator before it. */
  function LastCloseOnLine(s: string, i: nat): (r: Option<nat>)
    requires i <= |s|
    ensures r.Some? ==> i <= r.value < |s| && s[r.value] == '}'
    decreases |s| - i
  {
    if i == |s| || IsLineTerminator(s[i]) then None
    else match LastCloseOnLine(s, i + 1)
      case Some(j) => Some(j)
      case None => if s[i] == '}' then Some(i) else None
  }

  /** `LastCloseOnLine` finds the farthest `}` before the line ends, and finds
      nothing only when the line from `i` holds no `}`. */
  lemma {:induction false} LastCloseOnLineMeaning(s: string, i: nat)
    requires i <= |s|
    ensures LastCloseOnLine(s, i).Some? ==>
      var j := LastCloseOnLine(s, i).value;
      i <= j < LineEnd(s, i) && s[j] == '}' && forall k :: j < k < LineEnd(s, i) ==> s[k] != '}'
    ensures LastCloseOnLine(s, i).None? ==> forall k :: i <= k < LineEnd(s, i) ==> s[k] != '}'
    decreases |s| - i
  {
    if i < |s| && !IsLineTerminator(s[i]) {
      LastCloseOnLineMeaning(s, i + 1);
    }
  }

  /** `string.match(/{date:(.+?)}/g)` scanned from `i`: `{date:`, at least one
      character, and the nearest `}` after it on the same line. */
  function DateMatchesFrom(s: string, i: nat): seq<string>
    requires i <= |s|
    decreases |s| - i
  {
    if i + 8 > |s| then []
    else if OccursAt(s, "{date:", i) && !IsLineTerminator(s[i + 6]) then
      match CloseOnLine(s, i + 7)
      case Some(j) => [s[i..j + 1]] + DateMatchesFrom(s, j + 1)
      case None => DateMatchesFrom(s, i + 1)
    else DateMatchesFrom(s, i + 1)
  }

  /** `match.substring(6, match.length - 1)` (line 93). */
  function DateFormat(m: string): string {
    Substring(m, 6, |m| - 1)
  }

  /** The `forEach` of lines 92-96: every match rendered from the one `now`. */
  function ApplyDates(s: string, ms: seq<string>, now: int, format: (int, string) -> string): string
    decreases |ms|
  {
    if ms == [] then s
    else ApplyDates(ReplaceAll(s, ms[0], format(now, DateFormat(ms[0]))), ms[1..], now, format)
  }

  /** The date pass (lines 88-97). */
  function RenderDates(s: string, now: int, format: (int, string) -> string): string {
    ApplyDates(s, DateMatchesFrom(s, 0), now, format)
  }

  /** `string.match(/{keywords:?(.*)?}/g)` scanned from `i`: `{keywords` and the
      greedy run up to the last `}` on the same line. */
  function KeywordMatchesFrom(s: string, i: nat): seq<string>
    requires i <= |s|
    decreases |s| - i
  {
    if i + 10 > |s| then []
    else if OccursAt(s, "{keywords", i) then
      match LastCloseOnLine(s, i + 9)
      case Some(j) => [s[i..j + 1]] + KeywordMatchesFrom(s, j + 1)
      case None => KeywordMatchesFrom(s, i + 1)
    else KeywordMatchesFrom(s, i + 1)
  }

  /** `match.substring(10, match.length - 1)` (line 102); for `{keywords}`
      the arguments come reversed and the result is `}`. */
  function Separator(m: string): string {
    Substring(m, 10, |m| - 1)
  }

  /** Line 104: the separator's escapes are undone; a separator with no backslash is kept. */
  function Unescape(sep: string, ext: Externals): string {
    if '\\' in sep then ext.unescape(sep) else sep
  }

  /** `article.keywords || []` ready for `.join`: anything truthy but an array has no `join`. */
  function KeywordItems(v: JsValue): (r: Result<seq<string>>)
    ensures !Truthy(v) ==> r == Ok([])
    ensures v.List? ==> r == Ok(v.items)
    ensures r.Err? <==> Truthy(v) && !v.List?
    ensures r.Err? ==> r.error == TypeError
  {
    if !Truthy(v) then Ok([]) else if v.List? then Ok(v.items) else Err(TypeError)
  }

  /** A match whose text, backslashes doubled as on line 109, is read character
      by character as a literal under the web-compatibility grammar of regular
      expressions (Annex B of ECMAScript): no interior `^ $ . | ? * + ( ) [`, and
      no `{` before a digit, which might open a `{n}` quantifier. A lone `]`, `}`
      or other `{` is a literal there. The test is sufficient, not exact: a `{`
      before a digit that does not complete a quantifier is literal too, but
      fails it. */
  predicate LiteralPattern(m: string) {
    forall k :: 0 < k < |m| - 1 ==>
      m[k] !in "^$.|?*+()[" && !(m[k] == '{' && '0' <= m[k + 1] <= '9')
  }

  /** The `forEach` of lines 100-110. */
  function ApplyKeywords(s: string, ms: seq<string>, keywords: JsValue, ext: Externals): Result<string>
    decreases |ms|
  {
    if ms == [] then Ok(s)
    else match KeywordItems(keywords)
      case Err(e) => Err(e)
      case Ok(items) =>
        if !LiteralPattern(ms[0]) then Err(OutsideModel)
        else
          var joined := Join(items, Unescape(Separator(ms[0]), ext));
          ApplyKeywords(ReplaceAll(s, ms[0], joined), ms[1..], keywords, ext)
  }

  /** The keywords pass (lines 98-111). */
  function RenderKeywords(s: string, article: Article, ext: Externals): Result<string> {
    ApplyKeywords(s, KeywordMatchesFrom(s, 0), Get(article, "keywords"), ext)
  }

  /** `string.replace(/{(.*?)}/g, '')`: each `{` with a `}` later on its line is
      deleted together with everything up to the nearest such `}`. */
  function RemovePlaceholders(s: string): string
    decreases |s|
  {
    if s == [] then []
    else if s[0] == '{' && CloseOnLine(s, 1).Some? then RemovePlaceholders(s[CloseOnLine(s, 1).value + 1..])
    else [s[0]] + RemovePlaceholders(s[1..])
  }

  /** `textReplace(template, article, disallowedChars)`; "" stands for an absent disallowed set. */
  function ExpandTemplate(template: string, article: Article, disallowed: string, ext: Externals): Result<string>
    requires SafeKeys(article)
  {
    var fields := FieldPass(template, article, disallowed);
    var dates := RenderDates(fields, ext.now, ext.format);
    match RenderKeywords(dates, article, ext)
    case Err(e) => Err(e)
    case Ok(s) => Ok(RemovePlaceholders(s))
  }

  /** The loops of `textReplace`, rebinding the working string step by step. */
  method TextReplace(template: string, article: Article, disallowed: string, ext: Externals)
    returns (r: Result<string>)
    requires SafeKeys(article)
    ensures r == ExpandTemplate(template, article, disallowed, ext)
  {
    var s := template;
    for i := 0 to |article|
      invariant FieldPass(s, article[i..], disallowed) == FieldPass(template, article, disallowed)
    {
      assert article[i..][1..] == article[i + 1..];
      var f := article[i];
      if f.key != "content" {
        var text := TextOf(f.value);
        if text != "" && disallowed != "" {
          text := GenerateValidFileName(text, disallowed);
        }
        s := ReplaceCases(s, f.key, text, Cases);
      }
    }
    assert article[|article|..] == [];
    ghost var afterFields := s;
    assert afterFields == FieldPass(template, article, disallowed);
    var now := ext.now;
    var dates := DateMatchesFrom(s, 0);
    for j := 0 to |dates|
      invariant ApplyDates(s, dates[j..], now, ext.format) == RenderDates(afterFields, now, ext.format)
    {
      assert dates[j..][1..] == dates[j + 1..];
      var format := DateFormat(dates[j]);
      s := ReplaceAll(s, dates[j], ext.format(now, format));
    }
    assert dates[|dates|..] == [];
    ghost var afterDates := s;
    assert afterDates == RenderDates(afterFields, now, ext.format);
    var keywords := KeywordMatchesFrom(s, 0);
    var value := Get(article, "keywords");
    for j := 0 to |keywords|
      invariant ApplyKeywords(s, keywords[j..], value, ext) == RenderKeywords(afterDates, article, ext)
    {
      assert keywords[j..][1..] == keywords[j + 1..];
      var separator := Unescape(Separator(keywords[j]), ext);
      var items := KeywordItems(value);
      if items.Err? {
        assert RenderKeywords(afterDates, article, ext) == Err(items.error);
        return Err(items.error);
      }
      if !LiteralPattern(keywords[j]) {
        assert RenderKeywords(afterDates, article, ext) == Err(OutsideModel);
        return Err(OutsideModel);
      }
      s := ReplaceAll(s, keywords[j], Join(items.value, separator));
    }
    assert keywords[|keywords|..] == [];
    assert RenderKeywords(afterDates, article, ext) == Ok(s);
    r := Ok(RemovePlaceholders(s));
  }
}
