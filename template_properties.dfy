/** What `textReplace` promises: a template without `{` is returned as is, no
    `{…}` survives on a line of the output, a placeholder becomes its field's
    text in the requested form, dates render from one instant, and keyword
    lists are joined with the separator the template names. */
module TemplateProperties {
  import opened JsStrings
  import opened JsValues
  import opened Articles
  import opened FileNames
  import opened Templates

  // ---------------------------------------------------------------------
  // Text without `{` passes through every stage untouched.

  lemma {:induction false} ReplaceCasesNoBrace(t: string, key: string, text: string, cs: seq<Case>)
    requires '{' !in t
    ensures ReplaceCases(t, key, text, cs) == t
    decreases |cs|
  {
    if cs != [] {
      var p := Placeholder(key, cs[0]);
      assert p[0] == '{';
      ReplaceAllAbsent(t, p, Render(cs[0], text));
      ReplaceCasesNoBrace(t, key, text, cs[1..]);
    }
  }

  lemma {:induction false} FieldPassNoBrace(t: string, fields: seq<Field>, disallowed: string)
    requires '{' !in t
    ensures FieldPass(t, fields, disallowed) == t
    decreases |fields|
  {
    if fields != [] {
      var f := fields[0];
      if f.key != "content" {
        ReplaceCasesNoBrace(t, f.key, FieldText(f.value, disallowed), Cases);
      }
      FieldPassNoBrace(t, fields[1..], disallowed);
    }
  }

  /** Scanning for dates skips a stretch without `{`. */
  lemma {:induction false} DateMatchesSkip(s: string, i: nat, j: nat)
    requires i <= j <= |s|
    requires forall k :: i <= k < j ==> s[k] != '{'
    ensures DateMatchesFrom(s, i) == DateMatchesFrom(s, j)
    decreases j - i
  {
    if i < j {
      if i + 8 <= |s| {
        assert s[i..i + 6][0] == s[i];
      }
      DateMatchesSkip(s, i + 1, j);
    }
  }

  /** Scanning for keyword lists skips a stretch without `{`. */
  lemma {:induction false} KeywordMatchesSkip(s: string, i: nat, j: nat)
    requires i <= j <= |s|
    requires forall k :: i <= k < j ==> s[k] != '{'
    ensures KeywordMatchesFrom(s, i) == KeywordMatchesFrom(s, j)
    decreases j - i
  {
    if i < j {
      if i + 10 <= |s| {
        assert s[i..i + 9][0] == s[i];
      }
      KeywordMatchesSkip(s, i + 1, j);
    }
  }

  lemma {:induction false} RemovePlaceholdersNoBrace(s: string)
    requires '{' !in s
    ensures RemovePlaceholders(s) == s
    decreases |s|
  {
    if s != [] {
      RemovePlaceholdersNoBrace(s[1..]);
      assert [s[0]] + s[1..] == s;
    }
  }

  /** The date, keyword and clean-up passes leave text without `{` alone. */
  lemma LaterPassesKeep(s: string, article: Article, ext: Externals)
    requires '{' !in s
    ensures RenderDates(s, ext.now, ext.format) == s
    ensures RenderKeywords(s, article, ext) == Ok(s)
    ensures RemovePlaceholders(s) == s
  {
    DateMatchesSkip(s, 0, |s|);
    KeywordMatchesSkip(s, 0, |s|);
    RemovePlaceholdersNoBrace(s);
  }

  /** A template with no `{` comes back unchanged, whatever the article. */
  lemma NoBraceUnchanged(template: string, article: Article, disallowed: string, ext: Externals)
    requires SafeKeys(article)
    requires '{' !in template
    ensures ExpandTemplate(template, article, disallowed, ext) == Ok(template)
  {
    FieldPassNoBrace(template, article, disallowed);
    LaterPassesKeep(template, article, ext);
  }

  // ---------------------------------------------------------------------
  // No placeholder survives the clean-up.

  /** `t` holds a `}` before its first line terminator. */
  predicate ClosesOnLine(t: string)
    decreases |t|
  {
    t != [] && !IsLineTerminator(t[0]) && (t[0] == '}' || ClosesOnLine(t[1..]))
  }

  /** No `{` has a `}` after it on its line: nothing `/{(.*?)}/` could match. */
  predicate NoPlaceholderLeft(s: string) {
    forall i :: 0 <= i < |s| && s[i] == '{' ==> !ClosesOnLine(s[i + 1..])
  }

  lemma {:induction false} CloseOnLineFinds(s: string, i: nat)
    requires i <= |s|
    ensures CloseOnLine(s, i).Some? <==> ClosesOnLine(s[i..])
    decreases |s| - i
  {
    if i < |s| {
      assert s[i..][0] == s[i];
      assert s[i..][1..] == s[i + 1..];
      if !IsLineTerminator(s[i]) && s[i] != '}' {
        CloseOnLineFinds(s, i + 1);
      }
    }
  }

  /** Removing placeholders from a line that never closes does not close it. */
  lemma {:induction false} RemoveKeepsUnclosed(t: string)
    requires !ClosesOnLine(t)
    ensures !ClosesOnLine(RemovePlaceholders(t))
    decreases |t|
  {
    if t != [] {
      if !IsLineTerminator(t[0]) {
        CloseOnLineFinds(t, 1);
        RemoveKeepsUnclosed(t[1..]);
      }
      var r := RemovePlaceholders(t);
      assert r == [t[0]] + RemovePlaceholders(t[1..]);
      assert r[1..] == RemovePlaceholders(t[1..]);
    }
  }

  lemma {:induction false} RemovePlaceholdersLeavesNone(s: string)
    ensures NoPlaceholderLeft(RemovePlaceholders(s))
    decreases |s|
  {
    if s != [] {
      if s[0] == '{' && CloseOnLine(s, 1).Some? {
        RemovePlaceholdersLeavesNone(s[CloseOnLine(s, 1).value + 1..]);
      } else {
        var rest := RemovePlaceholders(s[1..]);
        RemovePlaceholdersLeavesNone(s[1..]);
        var r := [s[0]] + rest;
        assert RemovePlaceholders(s) == r;
        forall i | 0 <= i < |r| && r[i] == '{'
          ensures !ClosesOnLine(r[i + 1..])
        {
          if i == 0 {
            CloseOnLineFinds(s, 1);
            RemoveKeepsUnclosed(s[1..]);
            assert r[1..] == rest;
          } else {
            assert r[i] == rest[i - 1];
            assert r[i + 1..] == rest[i..];
          }
        }
      }
    }
  }

  /** Whatever the template, an expanded text holds no `{…}` within a line. */
  lemma ExpandLeavesNoPlaceholder(template: string, article: Article, disallowed: string, ext: Externals)
    requires SafeKeys(article)
    requires ExpandTemplate(template, article, disallowed, ext).Ok?
    ensures NoPlaceholderLeft(ExpandTemplate(template, article, disallowed, ext).value)
  {
    var fields := FieldPass(template, article, disallowed);
    var dates := RenderDates(fields, ext.now, ext.format);
    RemovePlaceholdersLeavesNone(RenderKeywords(dates, article, ext).value);
  }

  // ---------------------------------------------------------------------
  // Placeholders of distinct keys and forms do not overlap.

  /** `{`, text without braces, `}`. */
  predicate Delimited(p: string) {
    |p| >= 2 && p[0] == '{' && p[|p| - 1] == '}'
    && forall k :: 0 < k < |p| - 1 ==> p[k] != '{' && p[k] != '}'
  }

  lemma PlaceholderDelimited(key: string, c: Case)
    requires SafeKey(key)
    ensures Delimited(Placeholder(key, c))
  {
    var p := Placeholder(key, c);
    var sfx := Suffix(c);
    assert '{' !in sfx && '}' !in sfx;
    forall k | 0 < k < |p| - 1
      ensures p[k] != '{' && p[k] != '}'
    {
      if k <= |key| {
        assert p[k] == key[k - 1] && key[k - 1] in key;
      } else {
        assert p[k] == sfx[k - 1 - |key|] && sfx[k - 1 - |key|] in sfx;
      }
    }
  }

  /** A delimited text occurs inside another only as all of it. */
  lemma DelimitedOccurs(p: string, q: string, j: nat)
    requires Delimited(p) && Delimited(q) && OccursAt(p, q, j)
    ensures j == 0 && q == p
  {
    assert p[j] == '{' by { assert p[j..j + |q|][0] == p[j]; }
    assert j == 0;
    assert p[|q| - 1] == '}' by { assert p[0..|q|][|q| - 1] == p[|q| - 1]; }
    assert |q| == |p|;
    assert p[0..|p|] == p;
  }

  lemma DelimitedMisses(p: string, q: string)
    requires Delimited(p) && Delimited(q) && p != q
    ensures forall j: nat :: !OccursAt(p, q, j)
  {
    forall j: nat
      ensures !OccursAt(p, q, j)
    {
      if OccursAt(p, q, j) {
        DelimitedOccurs(p, q, j);
      }
    }
  }

  /** Reads a suffix back as its form. */
  function CaseNamed(sfx: string): Option<Case> {
    if sfx == "" then Some(Plain)
    else if sfx == ":lower" then Some(Lower)
    else if sfx == ":upper" then Some(Upper)
    else if sfx == ":kebab" then Some(Kebab)
    else if sfx == ":mixed-kebab" then Some(MixedKebab)
    else if sfx == ":snake" then Some(Snake)
    else if sfx == ":mixed_snake" then Some(MixedSnake)
    else if sfx == ":obsidian-cal" then Some(ObsidianCal)
    else if sfx == ":camel" then Some(Camel)
    else if sfx == ":pascal" then Some(Pascal)
    else None
  }

  /** The ten suffixes are told apart: one key's placeholders are pairwise distinct. */
  lemma PlaceholderInjective(key: string, c1: Case, c2: Case)
    requires Placeholder(key, c1) == Placeholder(key, c2)
    ensures c1 == c2
  {
    var p := Placeholder(key, c1);
    assert Suffix(c1) == p[1 + |key|..|p| - 1];
    assert Suffix(c2) == p[1 + |key|..|p| - 1];
    assert CaseNamed(Suffix(c1)) == Some(c1);
    assert CaseNamed(Suffix(c2)) == Some(c2);
  }

  /** Some field of `fields` (other than `content`) has `t` as one of its placeholders. */
  predicate Spelled(fields: seq<Field>, t: string) {
    exists f, c :: f in fields && f.key != "content" && Placeholder(f.key, c) == t
  }

  /** In `a + t + b`, with `t` delimited and no `{` in `a` or `b`, the only `{` is `t`'s. */
  lemma FramedBraces(a: string, t: string, b: string)
    requires '{' !in a && '{' !in b && Delimited(t)
    ensures forall k :: 0 <= k < |a + t + b| && k != |a| ==> (a + t + b)[k] != '{'
  {
    var s := a + t + b;
    forall k | 0 <= k < |s| && k != |a|
      ensures s[k] != '{'
    {
      if k < |a| {
        assert s[k] == a[k] && a[k] in a;
      } else if k < |a| + |t| {
        assert s[k] == t[k - |a|];
      } else {
        assert s[k] == b[k - |a| - |t|] && b[k - |a| - |t|] in b;
      }
    }
  }

  /** A delimited text occurs in `a + t + b` only as `t` itself. */
  lemma FramedOccurs(a: string, t: string, b: string, q: string, j: nat)
    requires '{' !in a && '{' !in b && Delimited(t) && Delimited(q)
    requires OccursAt(a + t + b, q, j)
    ensures j == |a| && q == t
  {
    var s := a + t + b;
    FramedBraces(a, t, b);
    assert s[j] == '{' by { assert s[j..j + |q|][0] == s[j]; }
    assert j == |a|;
    forall k | |a| < k < |a| + |q| - 1
      ensures s[k] != '}'
    {
      assert s[k] == s[j..j + |q|][k - |a|];
    }
    forall k | |a| < k < |a| + |t| - 1
      ensures s[k] != '}'
    {
      assert s[k] == t[k - |a|];
    }
    assert s[|a| + |q| - 1] == '}' by { assert s[j..j + |q|][|q| - 1] == s[|a| + |q| - 1]; }
    assert s[|a| + |t| - 1] == '}' by { assert s[|a| + |t| - 1] == t[|t| - 1]; }
    assert |q| == |t|;
    assert s[|a|..|a| + |t|] == t;
  }

  lemma FramedMisses(a: string, t: string, b: string, q: string)
    requires '{' !in a && '{' !in b && Delimited(t) && Delimited(q) && q != t
    ensures forall j: nat :: !OccursAt(a + t + b, q, j)
  {
    forall j: nat
      ensures !OccursAt(a + t + b, q, j)
    {
      if OccursAt(a + t + b, q, j) {
        FramedOccurs(a, t, b, q, j);
      }
    }
  }

  lemma ReplaceCasesMisses(t: string, key: string, text: string, cs: seq<Case>)
    requires Delimited(t) && SafeKey(key)
    requires forall c :: Placeholder(key, c) != t
    ensures ReplaceCases(t, key, text, cs) == t
  {
    assert [] + t + [] == t;
    ReplaceCasesMissesFramed([], t, [], key, text, cs);
  }

  /** The field pass leaves a delimited text alone when no field spells it. */
  lemma FieldPassMisses(t: string, fields: seq<Field>, disallowed: string)
    requires Delimited(t) && SafeKeys(fields) && !Spelled(fields, t)
    ensures FieldPass(t, fields, disallowed) == t
  {
    assert [] + t + [] == t;
    FieldPassMissesFramed([], t, [], fields, disallowed);
  }

  /** The forms of a key that does not spell `t` leave `a + t + b` alone. */
  lemma {:induction false} ReplaceCasesMissesFramed(a: string, t: string, b: string, key: string, text: string, cs: seq<Case>)
    requires '{' !in a && '{' !in b && Delimited(t) && SafeKey(key)
    requires forall c :: Placeholder(key, c) != t
    ensures ReplaceCases(a + t + b, key, text, cs) == a + t + b
    decreases |cs|
  {
    if cs != [] {
      var p := Placeholder(key, cs[0]);
      PlaceholderDelimited(key, cs[0]);
      FramedMisses(a, t, b, p);
      ReplaceAllNoMatch(a + t + b, p, Render(cs[0], text));
      ReplaceCasesMissesFramed(a, t, b, key, text, cs[1..]);
    }
  }

  /** The field pass leaves a delimited text in text without `{` alone when no field spells it. */
  lemma {:induction false} FieldPassMissesFramed(a: string, t: string, b: string, fields: seq<Field>, disallowed: string)
    requires '{' !in a && '{' !in b && Delimited(t) && SafeKeys(fields) && !Spelled(fields, t)
    ensures FieldPass(a + t + b, fields, disallowed) == a + t + b
    decreases |fields|
  {
    if fields != [] {
      var f := fields[0];
      assert f in fields;
      if f.key != "content" {
        ReplaceCasesMissesFramed(a, t, b, f.key, FieldText(f.value, disallowed), Cases);
      }
      assert forall g :: g in fields[1..] ==> g in fields;
      FieldPassMissesFramed(a, t, b, fields[1..], disallowed);
    }
  }

  lemma {:induction false} FieldPassAppend(t: string, a: seq<Field>, b: seq<Field>, disallowed: string)
    ensures FieldPass(t, a + b, disallowed) == FieldPass(FieldPass(t, a, disallowed), b, disallowed)
    decreases |a|
  {
    if a == [] {
      assert a + b == b;
    } else {
      assert (a + b)[0] == a[0];
      assert (a + b)[1..] == a[1..] + b;
      FieldPassAppend(FieldStep(t, a[0], disallowed), a[1..], b, disallowed);
    }
  }

  /** A rendered text the remaining forms of the same key cannot touch. */
  predicate Inert(r: string, key: string) {
    '{' !in r || (Delimited(r) && forall c :: Placeholder(key, c) != r)
  }

  /** The chain of forms turns a placeholder into its rendering, once. */
  lemma {:induction false} ReplaceCasesOnPlaceholder(key: string, c: Case, text: string, cs: seq<Case>)
    requires SafeKey(key) && c in cs
    requires '$' !in Render(c, text) && Inert(Render(c, text), key)
    ensures ReplaceCases(Placeholder(key, c), key, text, cs) == Render(c, text)
    decreases |cs|
  {
    var p := Placeholder(key, c);
    var r := Render(c, text);
    PlaceholderDelimited(key, c);
    if cs[0] == c {
      ReplaceAllWhole(p, r);
      if '{' !in r {
        ReplaceCasesNoBrace(r, key, text, cs[1..]);
      } else {
        ReplaceCasesMisses(r, key, text, cs[1..]);
      }
    } else {
      var q := Placeholder(key, cs[0]);
      if q == p {
        PlaceholderInjective(key, cs[0], c);
      }
      PlaceholderDelimited(key, cs[0]);
      DelimitedMisses(p, q);
      ReplaceAllNoMatch(p, q, Render(cs[0], text));
      ReplaceCasesOnPlaceholder(key, c, text, cs[1..]);
    }
  }

  /** A character that is no letter, `-` or `_` appears in a rendering only if it appears in the text. */
  lemma RenderKeepsOut(c: Case, s: string, ch: char)
    requires !IsAsciiUpper(ch) && !IsAsciiLower(ch) && ch != '-' && ch != '_'
    requires ch !in s
    ensures ch !in Render(c, s)
  {
    var r := Render(c, s);
    if c in {Lower, Kebab, Snake} {
      assert forall i :: 0 <= i < |r| ==> r[i] == LowerChar(SpacesTo(s, '-')[i]) || r[i] == LowerChar(SpacesTo(s, '_')[i]) || r[i] == LowerChar(s[i]);
    } else if c == Upper {
      assert forall i :: 0 <= i < |r| ==> r[i] == UpperChar(s[i]);
    } else if c in {MixedKebab, MixedSnake, ObsidianCal} {
      assert forall i :: 0 <= i < |SpacesTo(s, '-')| ==> SpacesTo(s, '-')[i] == '-' || SpacesTo(s, '-')[i] == s[i];
      assert forall i :: 0 <= i < |SpacesTo(s, '_')| ==> SpacesTo(s, '_')[i] == '_' || SpacesTo(s, '_')[i] == s[i];
    } else if c in {Camel, Pascal} {
      var w := CapitalizeWords(s);
      assert ch !in w;
    }
  }

  /** Once the field pass has produced text without `{`, that text is the expansion. */
  lemma ExpandAfterFields(template: string, article: Article, disallowed: string, ext: Externals, r: string)
    requires SafeKeys(article)
    requires FieldPass(template, article, disallowed) == r && '{' !in r
    ensures ExpandTemplate(template, article, disallowed, ext) == Ok(r)
  {
    LaterPassesKeep(r, article, ext);
  }

  lemma SplitArticle(pre: Article, key: string, v: JsValue, post: Article, t: string)
    requires SafeKeys(pre + [Field(key, v)] + post) && key != "content"
    requires !Spelled(pre + post, t)
    ensures SafeKey(key) && SafeKeys(pre) && SafeKeys(post)
    ensures !Spelled(pre, t) && !Spelled(post, t)
  {
    assert Field(key, v) in pre + [Field(key, v)] + post;
    assert forall f :: f in pre || f in post ==> f in pre + [Field(key, v)] + post;
    assert forall f :: f in pre || f in post ==> f in pre + post;
  }

  /** The step for the placeholder's own field renders it. */
  lemma FieldStepHits(key: string, v: JsValue, c: Case, disallowed: string)
    requires SafeKey(key) && key != "content"
    requires '$' !in Render(c, FieldText(v, disallowed)) && Inert(Render(c, FieldText(v, disallowed)), key)
    ensures FieldStep(Placeholder(key, c), Field(key, v), disallowed) == Render(c, FieldText(v, disallowed))
  {
    CaseListed(c);
    ReplaceCasesOnPlaceholder(key, c, FieldText(v, disallowed), Cases);
  }

  /** Substitution is sequential: the text a field puts in place of its
      placeholder then goes through the substitutions of the fields after it. */
  lemma ValuesReprocessed(pre: Article, key: string, v: JsValue, post: Article, c: Case, disallowed: string)
    requires SafeKeys(pre + [Field(key, v)] + post) && key != "content"
    requires !Spelled(pre + post, Placeholder(key, c))
    requires '$' !in Render(c, FieldText(v, disallowed)) && Inert(Render(c, FieldText(v, disallowed)), key)
    ensures FieldPass(Placeholder(key, c), pre + [Field(key, v)] + post, disallowed)
         == FieldPass(Render(c, FieldText(v, disallowed)), post, disallowed)
  {
    var p := Placeholder(key, c);
    var rest := [Field(key, v)] + post;
    SplitArticle(pre, key, v, post, p);
    calc {
      FieldPass(p, pre + [Field(key, v)] + post, disallowed);
      { assert pre + [Field(key, v)] + post == pre + rest; }
      FieldPass(p, pre + rest, disallowed);
      { FieldPassAppend(p, pre, rest, disallowed); }
      FieldPass(FieldPass(p, pre, disallowed), rest, disallowed);
      { PlaceholderDelimited(key, c); FieldPassMisses(p, pre, disallowed); }
      FieldPass(p, rest, disallowed);
      { FieldPassOwn(key, v, post, c, disallowed); }
      FieldPass(Render(c, FieldText(v, disallowed)), post, disallowed);
    }
  }

  lemma FieldPassOwn(key: string, v: JsValue, post: Article, c: Case, disallowed: string)
    requires SafeKey(key) && key != "content"
    requires '$' !in Render(c, FieldText(v, disallowed)) && Inert(Render(c, FieldText(v, disallowed)), key)
    ensures FieldPass(Placeholder(key, c), [Field(key, v)] + post, disallowed)
         == FieldPass(Render(c, FieldText(v, disallowed)), post, disallowed)
  {
    FieldStepHits(key, v, c, disallowed);
    FieldPassCons(Placeholder(key, c), Field(key, v), post, disallowed);
  }

  lemma FieldPassCons(t: string, f: Field, fields: seq<Field>, disallowed: string)
    ensures FieldPass(t, [f] + fields, disallowed) == FieldPass(FieldStep(t, f, disallowed), fields, disallowed)
  {
    assert ([f] + fields)[1..] == fields;
  }

  lemma CaseListed(c: Case)
    ensures c in Cases
  {
  }

  /** `a + p + b` with `p` occurring once, at the seam: replacing `p` puts `r` there. */
  lemma FramedWhole(a: string, p: string, b: string, r: string)
    requires |p| > 0 && p[0] !in a && p[0] !in b && '$' !in r
    ensures ReplaceAll(a + p + b, p, r) == a + r + b
  {
    calc {
      ReplaceAll(a + p + b, p, r);
      { ReplaceAllIsSubstitute(a + p + b, p, r); }
      Substitute(a + p + b, p, r);
      { ConcatAssoc(a, p, b); SubstituteSkipFree(a, p + b, p, r); }
      a + Substitute(p + b, p, r);
      { SubstitutePrefix(b, p, r); }
      a + (r + Substitute(b, p, r));
      { SubstituteFree(b, p, r); }
      a + (r + b);
      { ConcatAssoc(a, r, b); }
      a + r + b;
    }
  }

  lemma SubstituteFree(b: string, p: string, r: string)
    requires |p| > 0 && p[0] !in b
    ensures Substitute(b, p, r) == b
  {
    SubstituteSkipFree(b, [], p, r);
    assert b + [] == b;
  }

  /** The chain of forms turns a placeholder set in text without `{` into its rendering. */
  lemma {:induction false} ReplaceCasesHitsFramed(a: string, b: string, key: string, c: Case, text: string, cs: seq<Case>)
    requires '{' !in a && '{' !in b && SafeKey(key) && c in cs
    requires '{' !in Render(c, text) && '$' !in Render(c, text)
    ensures ReplaceCases(a + Placeholder(key, c) + b, key, text, cs) == a + Render(c, text) + b
    decreases |cs|
  {
    var p := Placeholder(key, c);
    var r := Render(c, text);
    PlaceholderDelimited(key, c);
    if cs[0] == c {
      FramedWhole(a, p, b, r);
      ReplaceCasesNoBrace(a + r + b, key, text, cs[1..]);
    } else {
      var q := Placeholder(key, cs[0]);
      if q == p {
        PlaceholderInjective(key, cs[0], c);
      }
      PlaceholderDelimited(key, cs[0]);
      FramedMisses(a, p, b, q);
      ReplaceAllNoMatch(a + p + b, q, Render(cs[0], text));
      ReplaceCasesHitsFramed(a, b, key, c, text, cs[1..]);
    }
  }

  /** The field pass over a template `a + {key:form} + b`, with no other `{`. */
  lemma FieldPassHitsFramed(a: string, pre: Article, key: string, v: JsValue, post: Article, b: string,
                            c: Case, disallowed: string)
    requires SafeKeys(pre + [Field(key, v)] + post) && key != "content"
    requires '{' !in a && '{' !in b
    requires !Spelled(pre + post, Placeholder(key, c))
    requires '{' !in Render(c, FieldText(v, disallowed)) && '$' !in Render(c, FieldText(v, disallowed))
    ensures FieldPass(a + Placeholder(key, c) + b, pre + [Field(key, v)] + post, disallowed)
         == a + Render(c, FieldText(v, disallowed)) + b
  {
    var p := Placeholder(key, c);
    var t := a + p + b;
    var r := Render(c, FieldText(v, disallowed));
    var rest := [Field(key, v)] + post;
    SplitArticle(pre, key, v, post, p);
    calc {
      FieldPass(t, pre + [Field(key, v)] + post, disallowed);
      { assert pre + [Field(key, v)] + post == pre + rest; FieldPassAppend(t, pre, rest, disallowed); }
      FieldPass(FieldPass(t, pre, disallowed), rest, disallowed);
      { PlaceholderDelimited(key, c); FieldPassMissesFramed(a, p, b, pre, disallowed); }
      FieldPass(t, rest, disallowed);
      { FieldPassCons(t, Field(key, v), post, disallowed); }
      FieldPass(FieldStep(t, Field(key, v), disallowed), post, disallowed);
      { CaseListed(c); ReplaceCasesHitsFramed(a, b, key, c, FieldText(v, disallowed), Cases); }
      FieldPass(a + r + b, post, disallowed);
      { FieldPassNoBrace(a + r + b, post, disallowed); }
      a + r + b;
    }
  }

  /** `{key}` or `{key:form}` in a template with no other `{`, with the
      article's field for `key` as the only one spelling it, becomes the field's
      text in that form, sanitised first when a disallowed set is given and
      `String(value || '')` otherwise; the rest of the template is kept. */
  lemma FieldPlaceholderBecomesValue(a: string, pre: Article, key: string, v: JsValue, post: Article, b: string,
                                     c: Case, disallowed: string, ext: Externals)
    requires SafeKeys(pre + [Field(key, v)] + post) && key != "content"
    requires '{' !in a && '{' !in b
    requires !Spelled(pre + post, Placeholder(key, c))
    requires '{' !in FieldText(v, disallowed) && '$' !in FieldText(v, disallowed)
    ensures ExpandTemplate(a + Placeholder(key, c) + b, pre + [Field(key, v)] + post, disallowed, ext)
         == Ok(a + Render(c, FieldText(v, disallowed)) + b)
  {
    var r := Render(c, FieldText(v, disallowed));
    RenderKeepsOut(c, FieldText(v, disallowed), '{');
    RenderKeepsOut(c, FieldText(v, disallowed), '$');
    FieldPassHitsFramed(a, pre, key, v, post, b, c, disallowed);
    ExpandAfterFields(a + Placeholder(key, c) + b, pre + [Field(key, v)] + post, disallowed, ext, a + r + b);
  }

  // ---------------------------------------------------------------------
  // Dates.

  /** The first `}` after `i` on the line is at `j`. */
  lemma {:induction false} CloseOnLineAt(s: string, i: nat, j: nat)
    requires i <= j < |s| && s[j] == '}'
    requires forall k :: i <= k < j ==> s[k] != '}' && !IsLineTerminator(s[k])
    ensures CloseOnLine(s, i) == Some(j)
    decreases j - i
  {
    if i < j {
      CloseOnLineAt(s, i + 1, j);
    }
  }

  /** `{date:f}` as the template writes it. */
  function DatePlaceholder(f: string): string {
    "{date:" + f + "}"
  }

  /** A date format the lazy match `{date:(.+?)}` reads whole. */
  predicate PlainFormat(f: string) {
    f != [] && '{' !in f && '}' !in f && forall k :: 0 <= k < |f| ==> !IsLineTerminator(f[k])
  }

  lemma DateMatchAt(s: string, i: nat, f: string)
    requires PlainFormat(f)
    requires i + |DatePlaceholder(f)| <= |s| && s[i..i + |DatePlaceholder(f)|] == DatePlaceholder(f)
    ensures DateMatchesFrom(s, i) == [DatePlaceholder(f)] + DateMatchesFrom(s, i + |DatePlaceholder(f)|)
  {
    var p := DatePlaceholder(f);
    assert OccursAt(s, "{date:", i) by {
      assert s[i..i + 6] == p[..6];
    }
    assert s[i + 6] == p[6] == f[0];
    forall k | i + 7 <= k < i + |p| - 1
      ensures s[k] != '}' && !IsLineTerminator(s[k])
    {
      assert s[k] == p[k - i] == f[k - i - 6];
      assert f[k - i - 6] in f;
    }
    assert s[i + |p| - 1] == p[|p| - 1];
    CloseOnLineAt(s, i + 7, i + |p| - 1);
  }

  lemma {:induction false} SubstituteSkipFree(a: string, x: string, pat: string, rep: string)
    requires |pat| > 0 && pat[0] !in a
    ensures Substitute(a + x, pat, rep) == a + Substitute(x, pat, rep)
    decreases |a|
  {
    if a != [] {
      var s := a + x;
      if |s| >= |pat| {
        assert s[0] == a[0];
        assert !StartsWith(s, pat);
        assert s[1..] == a[1..] + x;
        SubstituteSkipFree(a[1..], x, pat, rep);
      } else {
        assert |x| < |pat|;
      }
    } else {
      assert a + x == x;
    }
  }

  lemma SubstitutePrefix(x: string, pat: string, rep: string)
    requires |pat| > 0
    ensures Substitute(pat + x, pat, rep) == rep + Substitute(x, pat, rep)
  {
    assert StartsWith(pat + x, pat);
    assert (pat + x)[|pat|..] == x;
  }

  lemma ConcatAssoc5(a: string, b: string, c: string, d: string, e: string)
    ensures a + b + c + d + e == a + (b + (c + (d + e)))
  {
  }

  /** The only `{` of `{date:f}` is its first character. */
  lemma DatePlaceholderBraces(f: string)
    requires PlainFormat(f)
    ensures forall k :: 0 < k < |DatePlaceholder(f)| ==> DatePlaceholder(f)[k] != '{'
  {
    var p := DatePlaceholder(f);
    forall k | 0 < k < |p|
      ensures p[k] != '{'
    {
      if 6 <= k < 6 + |f| {
        assert p[k] == f[k - 6] && f[k - 6] in f;
      }
    }
  }

  /** Where the two copies of `p` and the text around them sit in `a + p + mid + p + b`. */
  lemma TwoCopiesLayout(a: string, p: string, mid: string, b: string)
    ensures var s := a + p + mid + p + b; var q := |a| + |p| + |mid|;
      |s| == q + |p| + |b|
      && s[|a|..|a| + |p|] == p && s[q..q + |p|] == p
      && (forall k :: 0 <= k < |a| ==> s[k] == a[k])
      && (forall k :: |a| + |p| <= k < q ==> s[k] == mid[k - |a| - |p|])
      && (forall k :: q + |p| <= k < |s| ==> s[k] == b[k - q - |p|])
  {
  }

  /** `{date:f}` at `i`, then no `{` up to `j`: one match, and the scan resumes at `j`. */
  lemma DateMatchThenSkip(s: string, f: string, i: nat, j: nat)
    requires PlainFormat(f)
    requires i + |DatePlaceholder(f)| <= j <= |s|
    requires s[i..i + |DatePlaceholder(f)|] == DatePlaceholder(f)
    requires forall k :: i + |DatePlaceholder(f)| <= k < j ==> s[k] != '{'
    ensures DateMatchesFrom(s, i) == [DatePlaceholder(f)] + DateMatchesFrom(s, j)
  {
    DateMatchAt(s, i, f);
    DateMatchesSkip(s, i + |DatePlaceholder(f)|, j);
  }

  /** `{date:f}` at `i` and at `q`, and no other `{`: the scan finds both. */
  lemma DateMatchesOfTwo(s: string, f: string, i: nat, q: nat)
    requires PlainFormat(f)
    requires i + |DatePlaceholder(f)| <= q && q + |DatePlaceholder(f)| <= |s|
    requires s[i..i + |DatePlaceholder(f)|] == DatePlaceholder(f)
    requires s[q..q + |DatePlaceholder(f)|] == DatePlaceholder(f)
    requires forall k :: 0 <= k < i ==> s[k] != '{'
    requires forall k :: i + |DatePlaceholder(f)| <= k < q ==> s[k] != '{'
    requires forall k :: q + |DatePlaceholder(f)| <= k < |s| ==> s[k] != '{'
    ensures DateMatchesFrom(s, 0) == [DatePlaceholder(f), DatePlaceholder(f)]
  {
    var p := DatePlaceholder(f);
    DateMatchesSkip(s, 0, i);
    DateMatchThenSkip(s, f, i, q);
    DateMatchThenSkip(s, f, q, |s|);
    DateMatchesEnd(s);
  }

  lemma DateMatchesEnd(s: string)
    ensures DateMatchesFrom(s, |s|) == []
  {
  }

  /** Substituting `d` for both copies of `p`, when `p`'s first character occurs nowhere else. */
  lemma SubstituteTwoCopies(a: string, p: string, mid: string, b: string, d: string)
    requires |p| > 0 && p[0] !in a && p[0] !in mid && p[0] !in b
    ensures Substitute(a + p + mid + p + b, p, d) == a + d + mid + d + b
  {
    calc {
      Substitute(a + p + mid + p + b, p, d);
      { ConcatAssoc5(a, p, mid, p, b); }
      Substitute(a + (p + (mid + (p + b))), p, d);
      { SubstituteSkipFree(a, p + (mid + (p + b)), p, d); }
      a + Substitute(p + (mid + (p + b)), p, d);
      { SubstitutePrefix(mid + (p + b), p, d); }
      a + (d + Substitute(mid + (p + b), p, d));
      { SubstituteSkipFree(mid, p + b, p, d); }
      a + (d + (mid + Substitute(p + b, p, d)));
      { SubstitutePrefix(b, p, d); SubstituteFree(b, p, d); }
      a + (d + (mid + (d + b)));
      { ConcatAssoc5(a, d, mid, d, b); }
      a + d + mid + d + b;
    }
  }

  /** Two `{date:f}` placeholders, in a template with no other `{`, render to
      the same text: `now` is read once per expansion. The rest of the template
      is kept. */
  lemma RepeatedDateRendersIdentically(a: string, f: string, mid: string, b: string,
                                       now: int, format: (int, string) -> string)
    requires PlainFormat(f) && '{' !in a && '{' !in mid && '{' !in b
    requires '{' !in format(now, f) && '$' !in format(now, f)
    ensures RenderDates(a + DatePlaceholder(f) + mid + DatePlaceholder(f) + b, now, format)
         == a + format(now, f) + mid + format(now, f) + b
  {
    var p := DatePlaceholder(f);
    var d := format(now, f);
    var s := a + p + mid + p + b;
    var q := |a| + |p| + |mid|;
    TwoCopiesLayout(a, p, mid, b);
    DatePlaceholderBraces(f);
    forall k | 0 <= k < |s| && k != |a| && k != q
      ensures s[k] != '{'
    {
      if k < |a| {
        assert a[k] in a;
      } else if k < |a| + |p| {
        assert s[k] == s[|a|..|a| + |p|][k - |a|];
      } else if k < q {
        assert mid[k - |a| - |p|] in mid;
      } else if k < q + |p| {
        assert s[k] == s[q..q + |p|][k - q];
      } else {
        assert b[k - q - |p|] in b;
      }
    }
    DateMatchesOfTwo(s, f, |a|, q);
    assert DateFormat(p) == f by {
      assert p[6..|p| - 1] == f;
    }
    ReplaceAllIsSubstitute(s, p, d);
    SubstituteTwoCopies(a, p, mid, b, d);
    var once := a + d + mid + d + b;
    assert '{' !in once;
    ReplaceAllAbsent(once, p, d);
    assert ApplyDates(s, [p, p], now, format) == ApplyDates(once, [p], now, format);
  }

  // ---------------------------------------------------------------------
  // Keyword lists.

  /** On a line with no `}`, the greedy match finds no end. */
  lemma {:induction false} LastCloseUnclosed(s: string, i: nat)
    requires i <= |s| && !ClosesOnLine(s[i..])
    ensures LastCloseOnLine(s, i) == None
    decreases |s| - i
  {
    if i < |s| {
      assert s[i..][0] == s[i];
      if !IsLineTerminator(s[i]) {
        assert s[i..][1..] == s[i + 1..];
        LastCloseUnclosed(s, i + 1);
      }
    }
  }

  /** The greedy match from `i` ends at `j` when the line runs on to `j` and
      holds no `}` after it. */
  lemma {:induction false} LastCloseBefore(s: string, i: nat, j: nat)
    requires i <= j < |s| && s[j] == '}'
    requires forall k :: i <= k <= j ==> !IsLineTerminator(s[k])
    requires !ClosesOnLine(s[j + 1..])
    ensures LastCloseOnLine(s, i) == Some(j)
    decreases j - i
  {
    if i < j {
      LastCloseBefore(s, i + 1, j);
    } else {
      LastCloseUnclosed(s, j + 1);
    }
  }

  /** A separator `{keywords:sep}` reads literally. */
  predicate PlainSeparator(sep: string) {
    forall k :: 0 <= k < |sep| ==> !IsLineTerminator(sep[k]) && sep[k] !in "\\^$.|?*+()[]{}"
  }

  function KeywordsPlaceholder(sep: string): string {
    "{keywords:" + sep + "}"
  }

  /** Opens with `{keywords`, closes with its only `}`, and has no other brace nor line break. */
  predicate KeywordShape(t: string) {
    |t| >= 10 && t[0..9] == "{keywords" && t[|t| - 1] == '}'
    && forall k :: 0 < k < |t| - 1 ==> t[k] != '{' && t[k] != '}' && !IsLineTerminator(t[k])
  }

  lemma KeywordsPlaceholderShape(sep: string)
    requires PlainSeparator(sep)
    ensures KeywordShape(KeywordsPlaceholder(sep))
    ensures Delimited(KeywordsPlaceholder(sep)) && LiteralPattern(KeywordsPlaceholder(sep))
    ensures Separator(KeywordsPlaceholder(sep)) == sep
  {
    var t := KeywordsPlaceholder(sep);
    forall k | 0 < k < |t| - 1
      ensures t[k] !in "^$.|?*+()[]{}" && t[k] != '\\' && !IsLineTerminator(t[k])
    {
      if k >= 10 {
        assert t[k] == sep[k - 10];
      }
    }
    assert t[0..9] == "{keywords";
    assert t[10..|t| - 1] == sep;
  }

  /** A keyword placeholder set in text without `{`: the date scan finds nothing. */
  lemma FramedNoDate(a: string, t: string, b: string)
    requires '{' !in a && '{' !in b && KeywordShape(t)
    ensures DateMatchesFrom(a + t + b, 0) == []
  {
    var s := a + t + b;
    assert Delimited(t);
    FramedBraces(a, t, b);
    DateMatchesSkip(s, 0, |a|);
    assert DateMatchesFrom(s, |a|) == DateMatchesFrom(s, |a| + 1) by {
      assert s[|a| + 1] == t[1] == t[0..9][1];
      if |a| + 8 <= |s| {
        assert s[|a|..|a| + 6][1] == s[|a| + 1];
      }
    }
    DateMatchesSkip(s, |a| + 1, |s|);
  }

  lemma FramedKeywordMatch(a: string, t: string, b: string)
    requires '{' !in a && '{' !in b && !ClosesOnLine(b) && KeywordShape(t)
    ensures KeywordMatchesFrom(a + t + b, 0) == [t]
  {
    var s := a + t + b;
    assert Delimited(t);
    FramedBraces(a, t, b);
    assert s[|a|..|a| + |t|] == t;
    assert s[|a| + |t|..] == b;
    KeywordMatchesSole(s, |a|, t);
  }

  /** The only `{` of `s` opens a keyword placeholder with no `}` after it on
      its line: the scan finds that placeholder and nothing else. */
  lemma KeywordMatchesSole(s: string, i: nat, t: string)
    requires KeywordShape(t) && i + |t| <= |s| && s[i..i + |t|] == t
    requires !ClosesOnLine(s[i + |t|..])
    requires forall k :: 0 <= k < i ==> s[k] != '{'
    requires forall k :: i + |t| <= k < |s| ==> s[k] != '{'
    ensures KeywordMatchesFrom(s, 0) == [t]
  {
    KeywordMatchesSkip(s, 0, i);
    KeywordMatchLast(s, i, t);
  }

  /** A keyword placeholder at `i` followed by text without `{` is the last match. */
  lemma KeywordMatchLast(s: string, i: nat, t: string)
    requires KeywordShape(t) && i + |t| <= |s| && s[i..i + |t|] == t
    requires !ClosesOnLine(s[i + |t|..])
    requires forall k :: i + |t| <= k < |s| ==> s[k] != '{'
    ensures KeywordMatchesFrom(s, i) == [t]
  {
    KeywordMatchesSkip(s, i + |t|, |s|);
    KeywordMatchAt(s, i, t);
    assert KeywordMatchesFrom(s, i + |t|) == [];
  }

  /** A keyword placeholder at `i` with no `}` after it on its line is one whole match. */
  lemma KeywordMatchAt(s: string, i: nat, t: string)
    requires KeywordShape(t) && i + |t| <= |s| && s[i..i + |t|] == t
    requires !ClosesOnLine(s[i + |t|..])
    ensures KeywordMatchesFrom(s, i) == [t] + KeywordMatchesFrom(s, i + |t|)
  {
    KeywordShapeAt(s, i, t);
    LastCloseBefore(s, i + 9, i + |t| - 1);
  }

  /** The shape of a keyword placeholder, read at its place in `s`. */
  lemma KeywordShapeAt(s: string, i: nat, t: string)
    requires KeywordShape(t) && i + |t| <= |s| && s[i..i + |t|] == t
    ensures OccursAt(s, "{keywords", i) && s[i + |t| - 1] == '}'
    ensures forall k :: i + 9 <= k <= i + |t| - 1 ==> !IsLineTerminator(s[k])
  {
    assert s[i..i + 9] == t[0..9];
    forall k | i + 9 <= k <= i + |t| - 1
      ensures !IsLineTerminator(s[k])
    {
      assert s[k] == t[k - i];
    }
    assert s[i + |t| - 1] == t[|t| - 1];
  }

  /** The expansion assembled from the results of its passes. */
  lemma ExpandFromPasses(template: string, article: Article, disallowed: string, ext: Externals,
                         fields: string, dates: string, keywords: string)
    requires SafeKeys(article)
    requires FieldPass(template, article, disallowed) == fields
    requires RenderDates(fields, ext.now, ext.format) == dates
    requires RenderKeywords(dates, article, ext) == Ok(keywords)
    ensures ExpandTemplate(template, article, disallowed, ext) == Ok(RemovePlaceholders(keywords))
  {
  }

  /** `{keywords:sep}`, in a template with no other `{` and no `}` after it on
      its line, becomes the article's keywords joined with `sep` (none: the
      empty text); the rest of the template is kept. */
  lemma KeywordsJoined(a: string, sep: string, b: string, article: Article, disallowed: string, ext: Externals)
    requires SafeKeys(article) && PlainSeparator(sep)
    requires '{' !in a && '{' !in b && !ClosesOnLine(b)
    requires !Spelled(article, KeywordsPlaceholder(sep))
    requires KeywordItems(Get(article, "keywords")).Ok?
    requires '{' !in Join(KeywordItems(Get(article, "keywords")).value, sep)
    requires '$' !in Join(KeywordItems(Get(article, "keywords")).value, sep)
    ensures ExpandTemplate(a + KeywordsPlaceholder(sep) + b, article, disallowed, ext)
         == Ok(a + Join(KeywordItems(Get(article, "keywords")).value, sep) + b)
  {
    var t := KeywordsPlaceholder(sep);
    var s := a + t + b;
    var joined := Join(KeywordItems(Get(article, "keywords")).value, sep);
    KeywordsPlaceholderShape(sep);
    FieldPassMissesFramed(a, t, b, article, disallowed);
    FramedNoDate(a, t, b);
    KeywordsPassJoins(a, sep, b, Get(article, "keywords"), ext);
    RemovePlaceholdersNoBrace(a + joined + b);
    ExpandFromPasses(s, article, disallowed, ext, s, s, a + joined + b);
  }

  /** The keywords pass over a framed `{keywords:sep}` joins the list with `sep`. */
  lemma KeywordsPassJoins(a: string, sep: string, b: string, v: JsValue, ext: Externals)
    requires PlainSeparator(sep) && KeywordItems(v).Ok? && '$' !in Join(KeywordItems(v).value, sep)
    requires '{' !in a && '{' !in b && !ClosesOnLine(b)
    ensures ApplyKeywords(a + KeywordsPlaceholder(sep) + b, KeywordMatchesFrom(a + KeywordsPlaceholder(sep) + b, 0), v, ext)
         == Ok(a + Join(KeywordItems(v).value, sep) + b)
  {
    var t := KeywordsPlaceholder(sep);
    var joined := Join(KeywordItems(v).value, sep);
    KeywordsPlaceholderShape(sep);
    FramedKeywordMatch(a, t, b);
    assert '\\' !in sep by {
      assert forall k :: 0 <= k < |sep| ==> sep[k] != '\\';
    }
    FramedWhole(a, t, b, joined);
    assert ApplyKeywords(a + t + b, [t], v, ext) == ApplyKeywords(a + joined + b, [], v, ext);
  }

  /** A bare `{keywords}`, with the article lacking the property, in a template
      with no other `{` and no `}` after it on its line, disappears; the
      separator the code computes for it is the closing brace itself. */
  lemma BareKeywordsWithoutProperty(a: string, b: string, article: Article, disallowed: string, ext: Externals)
    requires SafeKeys(article) && !HasKey(article, "keywords")
    requires '{' !in a && '{' !in b && !ClosesOnLine(b)
    requires !Spelled(article, "{keywords}")
    ensures Separator("{keywords}") == "}"
    ensures ExpandTemplate(a + "{keywords}" + b, article, disallowed, ext) == Ok(a + b)
  {
    var t := "{keywords}";
    BareKeywordsShape();
    FieldPassMissesFramed(a, t, b, article, disallowed);
    FramedNoDate(a, t, b);
    KeywordMatchDeletes(a, t, b, article, ext);
    RemovePlaceholdersNoBrace(a + b);
    ExpandFromPasses(a + t + b, article, disallowed, ext, a + t + b, a + t + b, a + b);
  }

  lemma BareKeywordsShape()
    ensures KeywordShape("{keywords}") && Delimited("{keywords}") && LiteralPattern("{keywords}")
    ensures Separator("{keywords}") == "}"
  {
    assert "{keywords}"[0..9] == "{keywords";
  }

  /** The run-on match below is a literal pattern, its separator is `,}x`, and
      two keywords joined by it give `a,}xb`. */
  lemma RunOnMatchParts(ext: Externals)
    ensures LiteralPattern("{keywords:,}x}")
    ensures Unescape(Separator("{keywords:,}x}"), ext) == ",}x"
    ensures Join(["a", "b"], ",}x") == "a,}xb"
  {
    var m := "{keywords:,}x}";
    assert m[10..13] == ",}x";
  }

  /** The texts before and after the run-on match below, as concatenations. */
  lemma RunOnTexts()
    ensures "t " + "{keywords:,}x}" + "" == "t {keywords:,}x}"
    ensures "t " + "a,}xb" + "" == "t a,}xb"
  {
  }

  /** The greedy keyword match runs on to the last `}` of its line, and the
      rest of the placeholder up to there becomes part of the separator. */
  lemma RunOnKeywordMatch(ext: Externals)
    ensures ApplyKeywords("t {keywords:,}x}", ["{keywords:,}x}"], List(["a", "b"]), ext) == Ok("t a,}xb")
  {
    var m: string, v: JsValue := "{keywords:,}x}", List(["a", "b"]);
    var s, r := "t " + m + "", "a,}xb";
    RunOnTexts();
    calc {
      ApplyKeywords(s, [m], v, ext);
    ==  { RunOnMatchParts(ext); assert |[m][1..]| == 0; }
      ApplyKeywords(ReplaceAll(s, m, r), [], v, ext);
    ==  { FramedWhole("t ", m, "", r); }
      Ok("t " + r + "");
    ==
      Ok("t a,}xb");
    }
  }

  /** Without a keyword list, the keywords pass deletes a keyword placeholder
      set in text without `{` and with no `}` after it on its line. */
  lemma KeywordMatchDeletes(a: string, t: string, b: string, article: Article, ext: Externals)
    requires '{' !in a && '{' !in b && !ClosesOnLine(b) && KeywordShape(t) && LiteralPattern(t)
    requires !HasKey(article, "keywords")
    ensures RenderKeywords(a + t + b, article, ext) == Ok(a + b)
  {
    var s := a + t + b;
    var v := Get(article, "keywords");
    FramedKeywordMatch(a, t, b);
    assert KeywordItems(v) == Ok([]);
    assert t[0] == '{' by { assert t[0..9][0] == t[0]; }
    FramedWhole(a, t, b, "");
    assert a + "" + b == a + b;
    assert ApplyKeywords(s, [t], v, ext) == ApplyKeywords(a + b, [], v, ext);
  }

  /** With a keyword list as a field, a bare `{keywords}` is a field placeholder:
      `String(array)` joins the list with commas. */
  lemma BareKeywordsCommaJoined(a: string, pre: Article, items: seq<string>, post: Article, b: string, ext: Externals)
    requires SafeKeys(pre + [Field("keywords", List(items))] + post)
    requires '{' !in a && '{' !in b
    requires !Spelled(pre + post, "{keywords}")
    requires '{' !in Join(items, ",") && '$' !in Join(items, ",")
    ensures ExpandTemplate(a + "{keywords}" + b, pre + [Field("keywords", List(items))] + post, "", ext)
         == Ok(a + Join(items, ",") + b)
  {
    assert Placeholder("keywords", Plain) == "{keywords}";
    FieldPlaceholderBecomesValue(a, pre, "keywords", List(items), post, b, Plain, "", ext);
  }

  // ---------------------------------------------------------------------
  // The forms.

  /** `{key:obsidian-cal}` never holds two hyphens in a row. */
  lemma ObsidianCalSingleHyphens(s: string)
    ensures forall i :: 0 <= i < |Render(ObsidianCal, s)| - 1 ==>
      !(Render(ObsidianCal, s)[i] == '-' && Render(ObsidianCal, s)[i + 1] == '-')
  {
    CollapseRunsShape(SpacesTo(s, '-'), IsHyphen, '-');
  }

  lemma {:induction false} CapitalizeWordsNoSpace(s: string)
    requires forall k :: 0 <= k < |s| ==> !IsLineTerminator(s[k])
    requires s == [] || s[|s| - 1] != ' '
    ensures ' ' !in CapitalizeWords(s)
    decreases |s|
  {
    if |s| >= 2 && s[0] == ' ' {
      CapitalizeWordsNoSpace(s[2..]);
    } else if s != [] {
      CapitalizeWordsNoSpace(s[1..]);
    }
  }

  /** On a single line not ending in a space, `{key:camel}` and `{key:pascal}`
      hold no space, and their first letter is lower- and upper-case respectively. */
  lemma CamelAndPascalForms(s: string)
    requires forall k :: 0 <= k < |s| ==> !IsLineTerminator(s[k])
    requires s == [] || s[|s| - 1] != ' '
    ensures ' ' !in Render(Camel, s) && ' ' !in Render(Pascal, s)
    ensures Render(Camel, s) != [] ==> !IsAsciiUpper(Render(Camel, s)[0])
    ensures Render(Pascal, s) != [] ==> !IsAsciiLower(Render(Pascal, s)[0])
  {
    CapitalizeWordsNoSpace(s);
    var w := CapitalizeWords(s);
    if w != [] {
      assert w[0] in w;
      assert !IsLineTerminator(w[0]) by {
        if |s| >= 2 && s[0] == ' ' {
          assert w[0] in CapitalizeWords(s[2..]) || w[0] == UpperChar(s[1]);
        }
      }
    }
  }

  /** A space and the character after it, when that is no white space, become
      the character upper-cased. */
  lemma CapitalizeWordsAtSpace(x: char, t: string)
    requires !IsJsSpace(x)
    ensures CapitalizeWords([' ', x] + t) == [UpperChar(x)] + CapitalizeWords(t)
  {
    assert ([' ', x] + t)[2..] == t;
  }

  /** Text before the first space is kept as it is. */
  lemma {:induction false} CapitalizeWordsKeepsWord(w: string, t: string)
    requires forall k :: 0 <= k < |w| ==> w[k] != ' '
    ensures CapitalizeWords(w + t) == w + CapitalizeWords(t)
    decreases |w|
  {
    if w == [] {
      assert w + t == t;
    } else {
      calc {
        CapitalizeWords(w + t);
        { assert (w + t)[0] == w[0]; }
        [w[0]] + CapitalizeWords((w + t)[1..]);
        { assert (w + t)[1..] == w[1..] + t; }
        [w[0]] + CapitalizeWords(w[1..] + t);
        { CapitalizeWordsKeepsWord(w[1..], t); }
        [w[0]] + (w[1..] + CapitalizeWords(t));
        { assert [w[0]] + w[1..] == w; }
        w + CapitalizeWords(t);
      }
    }
  }

  /** A non-empty run of characters none of which is white space. */
  predicate Word(w: string) {
    w != [] && forall k :: 0 <= k < |w| ==> !IsJsSpace(w[k])
  }

  /** A word with its first character upper-cased. */
  function Capitalized(w: string): string {
    if w == [] then [] else [UpperChar(w[0])] + w[1..]
  }

  /** A word with its first character lower-cased. */
  function LowerFirst(w: string): string {
    if w == [] then [] else [LowerChar(w[0])] + w[1..]
  }

  /** The words capitalised and run together. */
  function CapitalizedRun(ws: seq<string>): string
    decreases |ws|
  {
    if ws == [] then [] else Capitalized(ws[0]) + CapitalizedRun(ws[1..])
  }

  /** A space and a word before `tail`: the word comes out capitalised. */
  lemma CapitalizeWordsSpaceWord(w: string, tail: string)
    requires Word(w)
    ensures CapitalizeWords(" " + w + tail) == Capitalized(w) + CapitalizeWords(tail)
  {
    assert " " + w + tail == [' ', w[0]] + (w[1..] + tail);
    assert forall k :: 0 <= k < |w[1..]| ==> w[1..][k] != ' ' by {
      assert forall k :: 0 <= k < |w[1..]| ==> w[1..][k] == w[k + 1];
    }
    CapitalizeWordsAtSpace(w[0], w[1..] + tail);
    CapitalizeWordsKeepsWord(w[1..], tail);
    ConcatAssoc([UpperChar(w[0])], w[1..], CapitalizeWords(tail));
  }

  lemma {:induction false} CapitalizeWordsAfterSpaces(ws: seq<string>)
    requires |ws| >= 1 && forall k :: 0 <= k < |ws| ==> Word(ws[k])
    ensures CapitalizeWords(" " + Join(ws, " ")) == CapitalizedRun(ws)
    decreases |ws|
  {
    var w := ws[0];
    if |ws| == 1 {
      assert " " + Join(ws, " ") == " " + w + [];
      CapitalizeWordsSpaceWord(w, []);
      assert Capitalized(w) + [] == Capitalized(w);
    } else {
      var rest := Join(ws[1..], " ");
      calc {
        CapitalizeWords(" " + Join(ws, " "));
        { assert Join(ws, " ") == w + " " + rest;
          assert " " + (w + " " + rest) == " " + w + (" " + rest); }
        CapitalizeWords(" " + w + (" " + rest));
        { CapitalizeWordsSpaceWord(w, " " + rest); }
        Capitalized(w) + CapitalizeWords(" " + rest);
        { CapitalizeWordsAfterSpaces(ws[1..]); }
        Capitalized(w) + CapitalizedRun(ws[1..]);
      }
    }
  }

  /** Words separated by single spaces: the first is kept, each later one is
      capitalised, and the spaces go. */
  lemma CapitalizeWordsJoined(ws: seq<string>)
    requires |ws| >= 1 && forall k :: 0 <= k < |ws| ==> Word(ws[k])
    ensures CapitalizeWords(Join(ws, " ")) == ws[0] + CapitalizedRun(ws[1..])
  {
    var w := ws[0];
    assert forall k :: 0 <= k < |w| ==> w[k] != ' ';
    if |ws| == 1 {
      CapitalizeWordsKeepsWord(w, []);
      assert w + [] == w;
    } else {
      var rest := Join(ws[1..], " ");
      calc {
        CapitalizeWords(Join(ws, " "));
      ==  { assert Join(ws, " ") == w + " " + rest; ConcatAssoc(w, " ", rest); }
        CapitalizeWords(w + (" " + rest));
      ==  { CapitalizeWordsKeepsWord(w, " " + rest); }
        w + CapitalizeWords(" " + rest);
      ==  { CapitalizeWordsAfterSpaces(ws[1..]); }
        w + CapitalizedRun(ws[1..]);
      }
    }
  }

  /** `MapFirst` of a text that opens with a non-empty word `w`. */
  lemma MapFirstOfWord(w: string, t: string, f: char -> char)
    requires w != [] && !IsLineTerminator(w[0])
    ensures MapFirst(w + t, f) == [f(w[0])] + w[1..] + t
  {
    assert (w + t)[0] == w[0];
    assert (w + t)[1..] == w[1..] + t;
  }

  /** `{key:camel}` and `{key:pascal}` of words separated by single spaces:
      "big red dog" gives "bigRedDog" and "BigRedDog". */
  lemma CamelAndPascalWords(ws: seq<string>)
    requires |ws| >= 1 && forall k :: 0 <= k < |ws| ==> Word(ws[k])
    ensures Render(Camel, Join(ws, " ")) == LowerFirst(ws[0]) + CapitalizedRun(ws[1..])
    ensures Render(Pascal, Join(ws, " ")) == CapitalizedRun(ws)
  {
    var w := ws[0];
    var t := CapitalizedRun(ws[1..]);
    assert Word(w);
    CapitalizeWordsJoined(ws);
    MapFirstOfWord(w, t, LowerChar);
    MapFirstOfWord(w, t, UpperChar);
  }

  /** Where the text holds no run of spaces and hyphens, `{key:obsidian-cal}`
      is `{key:mixed-kebab}`: collapsing only merges runs of hyphens. */
  lemma ObsidianCalOfSingleHyphens(s: string)
    requires NoAdjacent(SpacesTo(s, '-'), IsHyphen)
    ensures Render(ObsidianCal, s) == Render(MixedKebab, s)
  {
    CollapseRunsFixed(SpacesTo(s, '-'), IsHyphen, '-');
  }

  // ---------------------------------------------------------------------
  // Substitution runs field after field over the working text.

  /** A value that is itself a braced word, and that no later field spells,
      is deleted by the clean-up: the placeholder expands to nothing. */
  lemma BracedValueRemoved(pre: Article, key: string, v: JsValue, post: Article,
                           c: Case, disallowed: string, ext: Externals)
    requires SafeKeys(pre + [Field(key, v)] + post) && key != "content"
    requires !Spelled(pre + post, Placeholder(key, c))
    requires BracedWord(Render(c, FieldText(v, disallowed)))
    requires !OccursAt(Render(c, FieldText(v, disallowed)), "{keywords", 0)
    requires '$' !in Render(c, FieldText(v, disallowed))
    requires forall c2 :: Placeholder(key, c2) != Render(c, FieldText(v, disallowed))
    requires !Spelled(post, Render(c, FieldText(v, disallowed)))
    ensures ExpandTemplate(Placeholder(key, c), pre + [Field(key, v)] + post, disallowed, ext) == Ok("")
  {
    var article := pre + [Field(key, v)] + post;
    var t := Render(c, FieldText(v, disallowed));
    assert Delimited(t);
    ValuesReprocessed(pre, key, v, post, c, disallowed);
    SplitArticle(pre, key, v, post, Placeholder(key, c));
    FieldPassMisses(t, post, disallowed);
    BracedDates(t);
    BracedKeywords(t);
    BracedRemoved(t);
    ExpandFromPasses(Placeholder(key, c), article, disallowed, ext, t, t, t);
  }

  /** A braced word: `{w}` with no brace, colon or line terminator inside. */
  predicate BracedWord(t: string) {
    |t| >= 2 && t[0] == '{' && t[|t| - 1] == '}'
    && forall k :: 0 < k < |t| - 1 ==> t[k] != '{' && t[k] != '}' && t[k] != ':' && !IsLineTerminator(t[k])
  }

  lemma BracedDates(t: string)
    requires BracedWord(t)
    ensures DateMatchesFrom(t, 0) == []
  {
    if |t| >= 8 {
      assert t[0..6][5] == t[5];
    }
    DateMatchesSkip(t, 1, |t|);
  }

  lemma BracedKeywords(t: string)
    requires BracedWord(t) && !OccursAt(t, "{keywords", 0)
    ensures KeywordMatchesFrom(t, 0) == []
  {
    KeywordMatchesSkip(t, 1, |t|);
  }

  lemma BracedRemoved(t: string)
    requires BracedWord(t)
    ensures RemovePlaceholders(t) == ""
  {
    CloseOnLineAt(t, 1, |t| - 1);
    assert t[|t|..] == [];
  }
}
