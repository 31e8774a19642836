/** The JavaScript string primitives the conversion pipeline relies on:
    the `\s` and line-terminator character classes, ASCII case mapping,
    `String.prototype.replace`/`replaceAll` with a literal pattern (including
    the `$`-substitutions of the replacement text), `split` and `join`. */
module JsStrings {

  datatype Option<T> = None | Some(value: T)

  /** The characters `.` in a regular expression does not match. */
  predicate IsLineTerminator(c: char) {
    c == '\n' || c == '\r' || c == '\U{2028}' || c == '\U{2029}'
  }

  /** ECMAScript WhiteSpace or LineTerminator: what `\s` matches and `trim` strips. */
  predicate IsJsSpace(c: char) {
    c == '\t' || c == '\U{000B}' || c == '\U{000C}' || c == ' ' || c == '\U{00A0}'
    || c == '\U{1680}' || ('\U{2000}' <= c <= '\U{200A}') || c == '\U{202F}'
    || c == '\U{205F}' || c == '\U{3000}' || c == '\U{FEFF}' || IsLineTerminator(c)
  }

  predicate IsAsciiUpper(c: char) { 'A' <= c <= 'Z' }
  predicate IsAsciiLower(c: char) { 'a' <= c <= 'z' }

  function LowerChar(c: char): char {
    if IsAsciiUpper(c) then (c as int + 32) as char else c
  }

  function UpperChar(c: char): char {
    if IsAsciiLower(c) then (c as int - 32) as char else c
  }

  /** `toLowerCase`, restricted to the ASCII letters. */
  function ToLower(s: string): string {
    seq(|s|, i requires 0 <= i < |s| => LowerChar(s[i]))
  }

  /** `toUpperCase`, restricted to the ASCII letters. */
  function ToUpper(s: string): string {
    seq(|s|, i requires 0 <= i < |s| => UpperChar(s[i]))
  }

  /** `s.replace(/ /g, c)`: every U+0020 becomes `c`. */
  function SpacesTo(s: string, c: char): string {
    seq(|s|, i requires 0 <= i < |s| => if s[i] == ' ' then c else s[i])
  }

  predicate OccursAt(s: string, pat: string, i: nat) {
    i + |pat| <= |s| && s[i..i + |pat|] == pat
  }

  predicate EndsWith(s: string, suffix: string) {
    |suffix| <= |s| && s[|s| - |suffix|..] == suffix
  }

  function CountChar(s: string, c: char): nat {
    if s == [] then 0 else (if s[0] == c then 1 else 0) + CountChar(s[1..], c)
  }

  lemma {:induction false} CountCharAppend(a: string, b: string, c: char)
    ensures CountChar(a + b, c) == CountChar(a, c) + CountChar(b, c)
  {
    if a != [] {
      assert (a + b)[0] == a[0];
      assert (a + b)[1..] == a[1..] + b;
      CountCharAppend(a[1..], b, c);
    } else {
      assert a + b == b;
    }
  }

  /** GetSubstitution for a pattern without capture groups: in the replacement
      text `$$` stands for `$`, `$&` for the matched text, `` $` `` for what
      precedes the match and `$'` for what follows it; any other `$` is literal. */
  function Expand(rep: string, matched: string, before: string, after: string): string
    decreases |rep|
  {
    if |rep| >= 2 && rep[0] == '$' && rep[1] in "$&`'" then
      (if rep[1] == '$' then "$" else if rep[1] == '&' then matched
       else if rep[1] == '`' then before else after)
      + Expand(rep[2..], matched, before, after)
    else if rep == [] then []
    else [rep[0]] + Expand(rep[1..], matched, before, after)
  }

  lemma {:induction false} ExpandLiteral(rep: string, matched: string, before: string, after: string)
    requires '$' !in rep
    ensures Expand(rep, matched, before, after) == rep
  {
    if rep != [] {
      assert rep[0] != '$';
      ExpandLiteral(rep[1..], matched, before, after);
    }
  }

  /** The scan of `replaceAll` (and of a global regular expression that
      matches `pat` literally) over `rest`, with `before` the text already
      scanned: non-overlapping occurrences of `pat`, left to right, each
      replaced by its expansion of `rep`. */
  function ReplaceRest(before: string, rest: string, pat: string, rep: string): string
    decreases |rest|
  {
    if |pat| == 0 then
      // an empty pattern matches at every position, the end included
      Expand(rep, pat, before, rest)
      + (if rest != [] then [rest[0]] + ReplaceRest(before + [rest[0]], rest[1..], pat, rep) else "")
    else if |rest| < |pat| then rest
    else if StartsWith(rest, pat) then
      Expand(rep, pat, before, rest[|pat|..]) + ReplaceRest(before + pat, rest[|pat|..], pat, rep)
    else [rest[0]] + ReplaceRest(before + [rest[0]], rest[1..], pat, rep)
  }

  /** `s.replaceAll(pat, rep)`, and `s.replace(re, rep)` for a global `re` that matches `pat` literally. */
  function ReplaceAll(s: string, pat: string, rep: string): string {
    ReplaceRest("", s, pat, rep)
  }

  predicate StartsWith(s: string, prefix: string) {
    |prefix| <= |s| && s[..|prefix|] == prefix
  }

  lemma OccursAtIsStartsWith(s: string, pat: string, i: nat)
    requires i <= |s|
    ensures OccursAt(s, pat, i) <==> StartsWith(s[i..], pat)
  {
    if i + |pat| <= |s| {
      assert s[i..][..|pat|] == s[i..i + |pat|];
    }
  }

  /** The plain reading of replace-all: each occurrence of `pat` becomes `rep` verbatim. */
  function Substitute(s: string, pat: string, rep: string): string
    requires |pat| > 0
    decreases |s|
  {
    if |s| < |pat| then s
    else if StartsWith(s, pat) then rep + Substitute(s[|pat|..], pat, rep)
    else [s[0]] + Substitute(s[1..], pat, rep)
  }

  lemma {:induction false} ReplaceRestIsSubstitute(before: string, rest: string, pat: string, rep: string)
    requires |pat| > 0 && '$' !in rep
    ensures ReplaceRest(before, rest, pat, rep) == Substitute(rest, pat, rep)
    decreases |rest|
  {
    if |rest| >= |pat| {
      if StartsWith(rest, pat) {
        ExpandLiteral(rep, pat, before, rest[|pat|..]);
        ReplaceRestIsSubstitute(before + pat, rest[|pat|..], pat, rep);
      } else {
        ReplaceRestIsSubstitute(before + [rest[0]], rest[1..], pat, rep);
      }
    }
  }

  /** With a replacement free of `$`, replace-all substitutes `rep` verbatim. */
  lemma ReplaceAllIsSubstitute(s: string, pat: string, rep: string)
    requires |pat| > 0 && '$' !in rep
    ensures ReplaceAll(s, pat, rep) == Substitute(s, pat, rep)
  {
    ReplaceRestIsSubstitute("", s, pat, rep);
  }

  lemma {:induction false} ReplaceRestNoMatch(before: string, rest: string, pat: string, rep: string)
    requires |pat| > 0
    requires forall j :: 0 <= j <= |rest| ==> !StartsWith(rest[j..], pat)
    ensures ReplaceRest(before, rest, pat, rep) == rest
    decreases |rest|
  {
    if |rest| >= |pat| {
      assert rest[0..] == rest;
      forall j | 0 <= j <= |rest[1..]|
        ensures !StartsWith(rest[1..][j..], pat)
      {
        assert rest[1..][j..] == rest[j + 1..];
      }
      ReplaceRestNoMatch(before + [rest[0]], rest[1..], pat, rep);
      assert [rest[0]] + rest[1..] == rest;
    }
  }

  /** Replace-all leaves a string in which the pattern does not occur unchanged. */
  lemma ReplaceAllNoMatch(s: string, pat: string, rep: string)
    requires |pat| > 0
    requires forall j: nat :: !OccursAt(s, pat, j)
    ensures ReplaceAll(s, pat, rep) == s
  {
    forall j | 0 <= j <= |s|
      ensures !StartsWith(s[j..], pat)
    {
      OccursAtIsStartsWith(s, pat, j);
    }
    ReplaceRestNoMatch("", s, pat, rep);
  }

  /** In particular when the pattern's first character does not occur. */
  lemma ReplaceAllAbsent(s: string, pat: string, rep: string)
    requires |pat| > 0 && pat[0] !in s
    ensures ReplaceAll(s, pat, rep) == s
  {
    forall j: nat
      ensures !OccursAt(s, pat, j)
    {
      if j + |pat| <= |s| {
        assert s[j..j + |pat|][0] == s[j];
      }
    }
    ReplaceAllNoMatch(s, pat, rep);
  }

  /** A string that is exactly the pattern is replaced by the (literal) replacement. */
  lemma ReplaceAllWhole(pat: string, rep: string)
    requires |pat| > 0 && '$' !in rep
    ensures ReplaceAll(pat, pat, rep) == rep
  {
    ReplaceAllIsSubstitute(pat, pat, rep);
    assert StartsWith(pat, pat);
    assert pat[|pat|..] == [];
  }

  /** Index of the first occurrence of `pat` at or after `i`. */
  function IndexOfFrom(s: string, pat: string, i: nat): (r: Option<nat>)
    requires i <= |s|
    ensures r.Some? ==> i <= r.value && OccursAt(s, pat, r.value)
    ensures r.Some? ==> forall j :: i <= j < r.value ==> !OccursAt(s, pat, j)
    ensures r.None? ==> forall j: nat :: i <= j ==> !OccursAt(s, pat, j)
    decreases |s| - i
  {
    if i + |pat| > |s| then None
    else if OccursAt(s, pat, i) then Some(i)
    else IndexOfFrom(s, pat, i + 1)
  }

  /** `s.replace(pat, rep)` with a string pattern: only the first occurrence. */
  function ReplaceFirst(s: string, pat: string, rep: string): string {
    match IndexOfFrom(s, pat, 0)
    case None => s
    case Some(i) => s[..i] + Expand(rep, pat, s[..i], s[i + |pat|..]) + s[i + |pat|..]
  }

  /** The first occurrence is the one replaced: `A + pat + B`, with no earlier
      occurrence, becomes `A + rep + B`. */
  lemma ReplaceFirstAt(a: string, pat: string, b: string, rep: string)
    requires '$' !in rep
    requires forall j :: 0 <= j < |a| ==> !OccursAt(a + pat + b, pat, j)
    ensures ReplaceFirst(a + pat + b, pat, rep) == a + rep + b
  {
    var s := a + pat + b;
    assert OccursAt(s, pat, |a|) by { assert s[|a|..|a| + |pat|] == pat; }
    var r := IndexOfFrom(s, pat, 0);
    assert r == Some(|a|);
    assert s[..|a|] == a && s[|a| + |pat|..] == b;
    ExpandLiteral(rep, pat, a, b);
  }

  /** `parts.join(sep)`. */
  function Join(parts: seq<string>, sep: string): string
    decreases |parts|
  {
    if parts == [] then ""
    else if |parts| == 1 then parts[0]
    else parts[0] + sep + Join(parts[1..], sep)
  }

  /** `s.split(sep)` with a non-empty string separator. */
  function Split(s: string, sep: string): (parts: seq<string>)
    requires |sep| > 0
    ensures |parts| >= 1
    decreases |s|
  {
    if |s| < |sep| then [s]
    else if StartsWith(s, sep) then [""] + Split(s[|sep|..], sep)
    else
      var rest := Split(s[1..], sep);
      [[s[0]] + rest[0]] + rest[1..]
  }

  lemma JoinCons(p: string, parts: seq<string>, sep: string)
    requires |parts| >= 1
    ensures Join([p] + parts, sep) == p + sep + Join(parts, sep)
  {
    assert ([p] + parts)[1..] == parts;
  }

  lemma JoinExtendFirst(c: char, parts: seq<string>, sep: string)
    requires |parts| >= 1
    ensures Join([[c] + parts[0]] + parts[1..], sep) == [c] + Join(parts, sep)
  {
    var q := [[c] + parts[0]] + parts[1..];
    if |parts| > 1 {
      assert q[1..] == parts[1..];
      assert Join(parts, sep) == parts[0] + sep + Join(parts[1..], sep);
    }
  }

  /** Splitting on `sep` and joining with `rep` is substituting `rep` for `sep`. */
  lemma {:induction false} SplitJoinIsSubstitute(s: string, sep: string, rep: string)
    requires |sep| > 0
    ensures Join(Split(s, sep), rep) == Substitute(s, sep, rep)
    decreases |s|
  {
    if |s| < |sep| {
    } else if StartsWith(s, sep) {
      var t := s[|sep|..];
      calc {
        Join(Split(s, sep), rep);
        { SplitJoinAtSeparator(s, sep, rep); }
        rep + Join(Split(t, sep), rep);
        { SplitJoinIsSubstitute(t, sep, rep); }
        rep + Substitute(t, sep, rep);
      }
    } else {
      var t := s[1..];
      calc {
        Join(Split(s, sep), rep);
        { SplitJoinAtOther(s, sep, rep); }
        [s[0]] + Join(Split(t, sep), rep);
        { SplitJoinIsSubstitute(t, sep, rep); }
        [s[0]] + Substitute(t, sep, rep);
      }
    }
  }

  lemma SplitJoinAtSeparator(s: string, sep: string, rep: string)
    requires 0 < |sep| <= |s| && StartsWith(s, sep)
    ensures Join(Split(s, sep), rep) == rep + Join(Split(s[|sep|..], sep), rep)
  {
    var rest := Split(s[|sep|..], sep);
    assert Split(s, sep) == [""] + rest;
    JoinCons("", rest, rep);
    assert "" + rep == rep;
  }

  lemma SplitJoinAtOther(s: string, sep: string, rep: string)
    requires 0 < |sep| <= |s| && !StartsWith(s, sep)
    ensures Join(Split(s, sep), rep) == [s[0]] + Join(Split(s[1..], sep), rep)
  {
    var rest := Split(s[1..], sep);
    assert Split(s, sep) == [[s[0]] + rest[0]] + rest[1..];
    JoinExtendFirst(s[0], rest, rep);
  }

  /** Substituting a separator by itself changes nothing. */
  lemma {:induction false} SubstituteSelf(s: string, sep: string)
    requires |sep| > 0
    ensures Substitute(s, sep, sep) == s
    decreases |s|
  {
    if |s| < |sep| {
    } else if StartsWith(s, sep) {
      SubstituteSelf(s[|sep|..], sep);
      assert sep + s[|sep|..] == s;
    } else {
      SubstituteSelf(s[1..], sep);
      assert [s[0]] + s[1..] == s;
    }
  }

  /** `s.split(sep).join(sep) === s`. */
  lemma SplitJoinRoundTrip(s: string, sep: string)
    requires |sep| > 0
    ensures Join(Split(s, sep), sep) == s
  {
    SplitJoinIsSubstitute(s, sep, sep);
    SubstituteSelf(s, sep);
  }

  /** Splitting on one character yields one more piece than there are
      separators, and no piece contains the separator. */
  lemma {:induction false} SplitCharPieces(s: string, c: char)
    ensures |Split(s, [c])| == CountChar(s, c) + 1
    ensures forall k :: 0 <= k < |Split(s, [c])| ==> c !in Split(s, [c])[k]
    decreases |s|
  {
    if |s| >= 1 {
      SplitCharPieces(s[1..], c);
      if s[..1] != [c] {
        var rest := Split(s[1..], [c]);
        assert s[0] != c;
        assert forall k :: 1 <= k < |Split(s, [c])| ==> Split(s, [c])[k] == rest[k];
      }
    }
  }

  /** Joining `n` pieces free of `c` with the separator `c` yields `n - 1` copies of `c`. */
  lemma {:induction false} JoinCharCount(parts: seq<string>, c: char)
    requires |parts| >= 1
    requires forall k :: 0 <= k < |parts| ==> c !in parts[k]
    ensures CountChar(Join(parts, [c]), c) == |parts| - 1
    decreases |parts|
  {
    if |parts| == 1 {
      CountCharAbsent(parts[0], c);
    } else {
      JoinCharCount(parts[1..], c);
      CountCharAbsent(parts[0], c);
      CountCharAppend(parts[0], [c], c);
      CountCharAppend(parts[0] + [c], Join(parts[1..], [c]), c);
    }
  }

  /** A string free of `c` is a single piece when split on `c`. */
  lemma {:induction false} SplitCharWhole(p: string, c: char)
    requires c !in p
    ensures Split(p, [c]) == [p]
    decreases |p|
  {
    if |p| >= 1 {
      assert p[..1] != [c] by { assert p[..1][0] == p[0]; }
      SplitCharWhole(p[1..], c);
      assert [p[0]] + p[1..] == p;
    }
  }

  /** A piece free of `c`, then `c`: splitting yields the piece, then the pieces of the rest. */
  lemma {:induction false} SplitCharAfterPiece(p: string, c: char, rest: string)
    requires c !in p
    ensures Split(p + [c] + rest, [c]) == [p] + Split(rest, [c])
    decreases |p|
  {
    var s := p + [c] + rest;
    if p == [] {
      assert s == [c] + rest;
      assert s[..1] == [c];
      assert s[1..] == rest;
    } else {
      assert s[..1] != [c] by { assert s[..1][0] == p[0]; }
      assert s[1..] == p[1..] + [c] + rest;
      SplitCharAfterPiece(p[1..], c, rest);
      assert [p[0]] + p[1..] == p;
    }
  }

  /** Joining pieces free of `c` with `c`, then splitting on `c`, gives the pieces back. */
  lemma {:induction false} JoinSplitRoundTrip(parts: seq<string>, c: char)
    requires |parts| >= 1
    requires forall k :: 0 <= k < |parts| ==> c !in parts[k]
    ensures Split(Join(parts, [c]), [c]) == parts
    decreases |parts|
  {
    if |parts| == 1 {
      SplitCharWhole(parts[0], c);
    } else {
      JoinSplitRoundTrip(parts[1..], c);
      SplitCharAfterPiece(parts[0], c, Join(parts[1..], [c]));
      assert [parts[0]] + parts[1..] == parts;
    }
  }

  lemma {:induction false} CountCharAbsent(s: string, c: char)
    requires c !in s
    ensures CountChar(s, c) == 0
  {
    if s != [] {
      CountCharAbsent(s[1..], c);
    }
  }

  /** JavaScript `s.substring(a, b)`: both ends clamped to the string and swapped when reversed. */
  function Substring(s: string, a: int, b: int): (r: string)
    ensures |r| <= |s|
  {
    var x := if a < 0 then 0 else if a > |s| then |s| else a;
    var y := if b < 0 then 0 else if b > |s| then |s| else b;
    if x <= y then s[x..y] else s[y..x]
  }

  function TrimStart(s: string): (r: string)
    ensures r == [] || !IsJsSpace(r[0])
    ensures |r| <= |s| && r == s[|s| - |r|..]
    ensures forall k :: 0 <= k < |s| - |r| ==> IsJsSpace(s[k])
    decreases |s|
  {
    if s != [] && IsJsSpace(s[0]) then TrimStart(s[1..]) else s
  }

  function TrimEnd(s: string): (r: string)
    ensures r == [] || !IsJsSpace(r[|r| - 1])
    ensures |r| <= |s| && r == s[..|r|]
    ensures forall k :: |r| <= k < |s| ==> IsJsSpace(s[k])
    decreases |s|
  {
    if s != [] && IsJsSpace(s[|s| - 1]) then TrimEnd(s[..|s| - 1]) else s
  }

  /** True when the string starts or ends with white space. */
  predicate EdgeSpace(s: string) {
    s != [] && (IsJsSpace(s[0]) || IsJsSpace(s[|s| - 1]))
  }

  /** `r` is `s[a..]` up to white space at its end, and `s` holds only white space before `a`. */
  predicate SpaceAround(s: string, a: nat, r: string) {
    a + |r| <= |s| && r == s[a..a + |r|]
    && (forall k :: 0 <= k < a ==> IsJsSpace(s[k]))
    && (forall k :: a + |r| <= k < |s| ==> IsJsSpace(s[k]))
  }

  /** `s.trim()`: `s` with the white space at both ends cut off, so that the
      result neither starts nor ends with white space. */
  function Trim(s: string): (r: string)
    ensures !EdgeSpace(r)
    ensures exists a :: SpaceAround(s, a, r)
  {
    var t := TrimStart(s);
    var r := TrimEnd(t);
    assert SpaceAround(s, |s| - |t|, r) by {
      assert r == s[|s| - |t|..|s| - |t| + |r|];
    }
    r
  }
}
