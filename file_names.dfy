/** `generateValidFileName` (server/markdownload.js:55-67): strip the characters
    file systems reject, normalise white space, then delete each caller-disallowed
    character. */
module FileNames {
  import opened JsStrings

  /** The class `[\/\?<>\\:\*\|":]` of line 58. */
  predicate IsIllegal(c: char) {
    c in "/?<>\\:*|\""
  }

  const Nbsp: char := '\U{00A0}'

  /** `s.replace(illegalRe, '')`. */
  function RemoveIllegal(s: string): (r: string)
    ensures forall c :: c in r <==> c in s && !IsIllegal(c)
    decreases |s|
  {
    if s == [] then []
    else if IsIllegal(s[0]) then RemoveIllegal(s[1..])
    else [s[0]] + RemoveIllegal(s[1..])
  }

  /** `s.replace(/\u00A0/g, ' ')`. */
  function NbspToSpace(s: string): (r: string)
    ensures |r| == |s| && Nbsp !in r
    ensures forall i :: 0 <= i < |s| ==> r[i] == (if s[i] == Nbsp then ' ' else s[i])
    ensures forall c :: c in r && c != ' ' ==> c in s
  {
    var r := seq(|s|, i requires 0 <= i < |s| => if s[i] == Nbsp then ' ' else s[i]);
    assert forall i :: 0 <= i < |r| ==> r[i] != Nbsp;
    r
  }

  /** Deleting illegal characters works piece by piece. */
  lemma {:induction false} RemoveIllegalConcat(a: string, b: string)
    ensures RemoveIllegal(a + b) == RemoveIllegal(a) + RemoveIllegal(b)
    decreases |a|
  {
    if a == [] {
      assert a + b == b;
    } else {
      assert (a + b)[0] == a[0] && (a + b)[1..] == a[1..] + b;
      RemoveIllegalConcat(a[1..], b);
      if !IsIllegal(a[0]) {
        assert [a[0]] + (RemoveIllegal(a[1..]) + RemoveIllegal(b))
            == ([a[0]] + RemoveIllegal(a[1..])) + RemoveIllegal(b);
      }
    }
  }

  /** Around any one character, the kept characters keep their order and number. */
  lemma RemoveIllegalSplits(a: string, c: char, b: string)
    ensures RemoveIllegal(a + [c] + b)
         == RemoveIllegal(a) + (if IsIllegal(c) then [] else [c]) + RemoveIllegal(b)
  {
    calc {
      RemoveIllegal(a + [c] + b);
    ==  { RemoveIllegalConcat(a + [c], b); }
      RemoveIllegal(a + [c]) + RemoveIllegal(b);
    ==  { RemoveIllegalConcat(a, [c]); }
      RemoveIllegal(a) + RemoveIllegal([c]) + RemoveIllegal(b);
    ==  { assert [c][1..] == []; }
      RemoveIllegal(a) + (if IsIllegal(c) then [] else [c]) + RemoveIllegal(b);
    }
  }

  /** The longest suffix of `s` that does not start with a character of the run. */
  function DropRun(s: string, inRun: char -> bool): (r: string)
    ensures r == [] || !inRun(r[0])
    ensures |r| <= |s| && r == s[|s| - |r|..]
    decreases |s|
  {
    if s != [] && inRun(s[0]) then DropRun(s[1..], inRun) else s
  }

  /** Every maximal run of characters satisfying `inRun` becomes the one character `single`. */
  function CollapseRuns(s: string, inRun: char -> bool, single: char): (r: string)
    ensures forall c :: c in r ==> c in s || c == single
    decreases |s|
  {
    if s == [] then []
    else if inRun(s[0]) then [single] + CollapseRuns(DropRun(s[1..], inRun), inRun, single)
    else [s[0]] + CollapseRuns(s[1..], inRun, single)
  }

  lemma ConcatAssoc(a: string, b: string, c: string)
    ensures a + b + c == a + (b + c)
  {
  }

  /** Dropping a run from the front of `t + b` ends inside `t` when `b` does not start a run. */
  lemma {:induction false} DropRunConcat(t: string, b: string, inRun: char -> bool)
    requires b == [] || !inRun(b[0])
    ensures DropRun(t + b, inRun) == DropRun(t, inRun) + b
    decreases |t|
  {
    if t == [] {
      assert t + b == b;
    } else {
      assert (t + b)[0] == t[0] && (t + b)[1..] == t[1..] + b;
      if inRun(t[0]) {
        DropRunConcat(t[1..], b, inRun);
      }
    }
  }

  /** Collapsing works piece by piece when the second piece does not start inside a run. */
  lemma {:induction false} CollapseRunsConcat(a: string, b: string, inRun: char -> bool, single: char)
    requires b == [] || !inRun(b[0])
    ensures CollapseRuns(a + b, inRun, single) == CollapseRuns(a, inRun, single) + CollapseRuns(b, inRun, single)
    decreases |a|
  {
    if a == [] {
      assert a + b == b;
    } else if inRun(a[0]) {
      var rest := DropRun(a[1..], inRun);
      calc {
        CollapseRuns(a + b, inRun, single);
      ==  { assert (a + b)[0] == a[0] && (a + b)[1..] == a[1..] + b; }
        [single] + CollapseRuns(DropRun(a[1..] + b, inRun), inRun, single);
      ==  { DropRunConcat(a[1..], b, inRun); }
        [single] + CollapseRuns(rest + b, inRun, single);
      ==  { CollapseRunsConcat(rest, b, inRun, single); }
        [single] + (CollapseRuns(rest, inRun, single) + CollapseRuns(b, inRun, single));
      ==  { ConcatAssoc([single], CollapseRuns(rest, inRun, single), CollapseRuns(b, inRun, single)); }
        ([single] + CollapseRuns(rest, inRun, single)) + CollapseRuns(b, inRun, single);
      }
    } else {
      calc {
        CollapseRuns(a + b, inRun, single);
      ==  { assert (a + b)[0] == a[0] && (a + b)[1..] == a[1..] + b; }
        [a[0]] + CollapseRuns(a[1..] + b, inRun, single);
      ==  { CollapseRunsConcat(a[1..], b, inRun, single); }
        [a[0]] + (CollapseRuns(a[1..], inRun, single) + CollapseRuns(b, inRun, single));
      ==  { ConcatAssoc([a[0]], CollapseRuns(a[1..], inRun, single), CollapseRuns(b, inRun, single)); }
        ([a[0]] + CollapseRuns(a[1..], inRun, single)) + CollapseRuns(b, inRun, single);
      }
    }
  }

  /** A character outside the runs is kept in its place. */
  lemma CollapseRunsKeeps(a: string, x: char, b: string, inRun: char -> bool, single: char)
    requires !inRun(x)
    ensures CollapseRuns(a + [x] + b, inRun, single)
         == CollapseRuns(a, inRun, single) + [x] + CollapseRuns(b, inRun, single)
  {
    calc {
      CollapseRuns(a + [x] + b, inRun, single);
    ==  { assert a + [x] + b == a + ([x] + b); }
      CollapseRuns(a + ([x] + b), inRun, single);
    ==  { CollapseRunsConcat(a, [x] + b, inRun, single); }
      CollapseRuns(a, inRun, single) + CollapseRuns([x] + b, inRun, single);
    ==  { assert ([x] + b)[0] == x && ([x] + b)[1..] == b; }
      CollapseRuns(a, inRun, single) + ([x] + CollapseRuns(b, inRun, single));
    }
  }

  /** A run on its own collapses to `single`. */
  lemma CollapseRunsWholeRun(run: string, inRun: char -> bool, single: char)
    requires run != [] && forall k :: 0 <= k < |run| ==> inRun(run[k])
    ensures CollapseRuns(run, inRun, single) == [single]
  {
    DropRunAll(run[1..], inRun);
  }

  /** A whole run, between characters outside it, becomes the one character `single`. */
  lemma CollapseRunsOfRun(a: string, run: string, b: string, inRun: char -> bool, single: char)
    requires run != [] && forall k :: 0 <= k < |run| ==> inRun(run[k])
    requires a == [] || !inRun(a[|a| - 1])
    requires b == [] || !inRun(b[0])
    ensures CollapseRuns(a + run + b, inRun, single)
         == CollapseRuns(a, inRun, single) + [single] + CollapseRuns(b, inRun, single)
  {
    calc {
      CollapseRuns(a + run + b, inRun, single);
    ==  { CollapseRunsConcat(a + run, b, inRun, single); }
      CollapseRuns(a + run, inRun, single) + CollapseRuns(b, inRun, single);
    ==  { CollapseRunsFollowedByRun(a, run, inRun, single); }
      CollapseRuns(a, inRun, single) + [single] + CollapseRuns(b, inRun, single);
    }
  }

  /** A run after a character outside it (or at the start) adds one `single`. */
  lemma CollapseRunsFollowedByRun(a: string, run: string, inRun: char -> bool, single: char)
    requires run != [] && forall k :: 0 <= k < |run| ==> inRun(run[k])
    requires a == [] || !inRun(a[|a| - 1])
    ensures CollapseRuns(a + run, inRun, single) == CollapseRuns(a, inRun, single) + [single]
  {
    if a == [] {
      calc {
        CollapseRuns(a + run, inRun, single);
      ==  { assert a + run == run; }
        CollapseRuns(run, inRun, single);
      ==  { CollapseRunsWholeRun(run, inRun, single); }
        [single];
      }
    } else {
      var x, front := a[|a| - 1], a[..|a| - 1];
      assert a == front + [x];
      calc {
        CollapseRuns(a + run, inRun, single);
      ==  { ConcatAssoc(front, [x], run); }
        CollapseRuns(front + [x] + run, inRun, single);
      ==  { CollapseRunsKeeps(front, x, run, inRun, single); }
        CollapseRuns(front, inRun, single) + [x] + CollapseRuns(run, inRun, single);
      ==  { CollapseRunsWholeRun(run, inRun, single); }
        CollapseRuns(front, inRun, single) + [x] + [single];
      ==  { CollapseRunsKeeps(front, x, [], inRun, single); assert front + [x] + [] == a; }
        CollapseRuns(a, inRun, single) + [single];
      }
    }
  }

  lemma {:induction false} DropRunAll(s: string, inRun: char -> bool)
    requires forall k :: 0 <= k < |s| ==> inRun(s[k])
    ensures DropRun(s, inRun) == []
    decreases |s|
  {
    if s != [] {
      DropRunAll(s[1..], inRun);
    }
  }

  /** No two neighbouring characters both satisfy `inRun`. */
  predicate NoAdjacent(s: string, inRun: char -> bool) {
    forall i :: 0 <= i < |s| - 1 ==> !(inRun(s[i]) && inRun(s[i + 1]))
  }

  /** Every character satisfying `inRun` is `single`. */
  predicate OnlyAs(s: string, inRun: char -> bool, single: char) {
    forall i :: 0 <= i < |s| ==> inRun(s[i]) ==> s[i] == single
  }

  lemma {:induction false} CollapseRunsHead(s: string, inRun: char -> bool, single: char)
    requires s != [] && !inRun(s[0])
    ensures CollapseRuns(s, inRun, single) != [] && CollapseRuns(s, inRun, single)[0] == s[0]
  {
  }

  /** After collapsing, runs are single characters and they are all `single`. */
  lemma {:induction false} CollapseRunsShape(s: string, inRun: char -> bool, single: char)
    requires inRun(single)
    ensures NoAdjacent(CollapseRuns(s, inRun, single), inRun)
    ensures OnlyAs(CollapseRuns(s, inRun, single), inRun, single)
    decreases |s|
  {
    if s != [] {
      if inRun(s[0]) {
        var rest := DropRun(s[1..], inRun);
        CollapseRunsShape(rest, inRun, single);
        if rest != [] {
          CollapseRunsHead(rest, inRun, single);
        }
      } else {
        CollapseRunsShape(s[1..], inRun, single);
      }
    }
  }

  /** A string already in collapsed form is left alone. */
  lemma {:induction false} CollapseRunsFixed(s: string, inRun: char -> bool, single: char)
    requires NoAdjacent(s, inRun) && OnlyAs(s, inRun, single)
    ensures CollapseRuns(s, inRun, single) == s
    decreases |s|
  {
    if s != [] {
      assert NoAdjacent(s[1..], inRun) && OnlyAs(s[1..], inRun, single);
      CollapseRunsFixed(s[1..], inRun, single);
      if inRun(s[0]) {
        assert s[1..] == [] || !inRun(s[1..][0]);
        assert DropRun(s[1..], inRun) == s[1..];
        assert [s[0]] + s[1..] == s;
      } else {
        assert [s[0]] + s[1..] == s;
      }
    }
  }

  /** `s.replace(/\s+/g, ' ')`. */
  function CollapseSpaces(s: string): string {
    CollapseRuns(s, IsJsSpace, ' ')
  }

  /** `name.replace(new RegExp(c, 'g'), '')` once `c` is escaped (line 62): every
      single character, escaped or not, then matches itself only. */
  function RemoveChar(s: string, c: char): (r: string)
    ensures forall d :: d in r <==> d in s && d != c
    decreases |s|
  {
    if s == [] then []
    else if s[0] == c then RemoveChar(s[1..], c)
    else [s[0]] + RemoveChar(s[1..], c)
  }

  /** Deleting one character works piece by piece. */
  lemma {:induction false} RemoveCharConcat(a: string, b: string, c: char)
    ensures RemoveChar(a + b, c) == RemoveChar(a, c) + RemoveChar(b, c)
    decreases |a|
  {
    if a == [] {
      assert a + b == b;
    } else {
      assert (a + b)[0] == a[0] && (a + b)[1..] == a[1..] + b;
      RemoveCharConcat(a[1..], b, c);
      if a[0] != c {
        assert [a[0]] + (RemoveChar(a[1..], c) + RemoveChar(b, c))
            == ([a[0]] + RemoveChar(a[1..], c)) + RemoveChar(b, c);
      }
    }
  }

  /** Around any one character, the kept characters keep their order and number. */
  lemma RemoveCharSplits(a: string, x: char, b: string, c: char)
    ensures RemoveChar(a + [x] + b, c) == RemoveChar(a, c) + (if x == c then [] else [x]) + RemoveChar(b, c)
  {
    calc {
      RemoveChar(a + [x] + b, c);
    ==  { RemoveCharConcat(a + [x], b, c); }
      RemoveChar(a + [x], c) + RemoveChar(b, c);
    ==  { RemoveCharConcat(a, [x], c); }
      RemoveChar(a, c) + RemoveChar([x], c) + RemoveChar(b, c);
    ==  { assert [x][1..] == []; }
      RemoveChar(a, c) + (if x == c then [] else [x]) + RemoveChar(b, c);
    }
  }

  /** The loop over `disallowedChars` (lines 61-64), as a fold. */
  function DeleteEach(s: string, cs: string): string
    decreases |cs|
  {
    if cs == [] then s else DeleteEach(RemoveChar(s, cs[0]), cs[1..])
  }

  /** Deleting each character of `cs` leaves exactly the characters of `s` outside `cs`. */
  lemma {:induction false} DeleteEachMembers(s: string, cs: string)
    ensures forall d :: d in DeleteEach(s, cs) <==> d in s && d !in cs
    decreases |cs|
  {
    if cs != [] {
      DeleteEachMembers(RemoveChar(s, cs[0]), cs[1..]);
      assert forall d :: d in cs <==> d == cs[0] || d in cs[1..] by {
        assert cs == [cs[0]] + cs[1..];
      }
    }
  }

  /** Line 59: the fixed clean-up, before any disallowed character is removed. */
  function BaseName(title: string): string {
    Trim(CollapseSpaces(NbspToSpace(RemoveIllegal(title))))
  }

  /** `generateValidFileName(title, disallowedChars)`; "" stands for an absent
      (falsy) disallowed set, and a falsy title is returned unchanged. */
  function ValidFileName(title: string, disallowed: string): (r: string)
    ensures title == "" ==> r == title
  {
    if title == "" then title
    else if disallowed != "" then DeleteEach(BaseName(title), disallowed)
    else BaseName(title)
  }

  method GenerateValidFileName(title: string, disallowed: string) returns (name: string)
    ensures name == ValidFileName(title, disallowed)
  {
    if title == "" {
      return title;
    }
    name := BaseName(title);
    if disallowed != "" {
      ghost var base := name;
      for i := 0 to |disallowed|
        invariant DeleteEach(name, disallowed[i..]) == DeleteEach(base, disallowed)
      {
        assert disallowed[i..][1..] == disallowed[i + 1..];
        name := RemoveChar(name, disallowed[i]);
      }
      assert disallowed[|disallowed|..] == [];
    }
  }

  /** What a name sanitised without a disallowed set looks like. */
  predicate IsCleanName(s: string) {
    InnerClean(s) && Nbsp !in s && !EdgeSpace(s)
  }

  /** No illegal character, white space only as single spaces. */
  predicate InnerClean(s: string) {
    (forall c :: c in s ==> !IsIllegal(c))
    && OnlyAs(s, IsJsSpace, ' ')
    && NoAdjacent(s, IsJsSpace)
  }

  lemma SuffixKeepsInnerClean(s: string, k: nat)
    requires k <= |s| && InnerClean(s)
    ensures InnerClean(s[k..])
  {
    var t := s[k..];
    assert forall i :: 0 <= i < |t| ==> t[i] == s[k + i];
    assert forall c :: c in t ==> c in s;
  }

  lemma PrefixKeepsInnerClean(s: string, n: nat)
    requires n <= |s| && InnerClean(s)
    ensures InnerClean(s[..n])
  {
    var t := s[..n];
    assert forall i :: 0 <= i < |t| ==> t[i] == s[i];
    assert forall c :: c in t ==> c in s;
  }

  lemma TrimKeepsInnerClean(s: string)
    requires InnerClean(s)
    ensures InnerClean(Trim(s))
  {
    var st := TrimStart(s);
    SuffixKeepsInnerClean(s, |s| - |st|);
    PrefixKeepsInnerClean(st, |TrimEnd(st)|);
  }

  lemma CollapsedIsInnerClean(title: string)
    ensures InnerClean(CollapseSpaces(NbspToSpace(RemoveIllegal(title))))
  {
    var b := NbspToSpace(RemoveIllegal(title));
    CollapseRunsShape(b, IsJsSpace, ' ');
  }

  /** Without a disallowed set, the result has none of `/ ? < > \ : * | "`, no
      U+00A0, no white space other than single spaces, and no space at either end. */
  lemma BaseNameIsClean(title: string)
    ensures IsCleanName(BaseName(title))
  {
    CollapsedIsInnerClean(title);
    TrimKeepsInnerClean(CollapseSpaces(NbspToSpace(RemoveIllegal(title))));
    var d := BaseName(title);
    assert Nbsp !in d by {
      assert forall i :: 0 <= i < |d| ==> IsJsSpace(d[i]) ==> d[i] == ' ';
      assert IsJsSpace(Nbsp);
    }
  }

  lemma ValidFileNameIsClean(title: string)
    ensures IsCleanName(ValidFileName(title, ""))
  {
    if title != "" {
      BaseNameIsClean(title);
    } else {
      assert OnlyAs(title, IsJsSpace, ' ');
    }
  }

  /** With a disallowed set, none of its characters survives, nor any illegal one or U+00A0. */
  lemma ValidFileNameDeletesDisallowed(title: string, disallowed: string)
    ensures forall c :: c in ValidFileName(title, disallowed) ==>
      c !in disallowed && !IsIllegal(c) && c != Nbsp
  {
    if title != "" {
      var b := BaseName(title);
      assert forall c :: c in b ==> !IsIllegal(c) && c != Nbsp by {
        BaseNameIsClean(title);
      }
      if disallowed != "" {
        assert ValidFileName(title, disallowed) == DeleteEach(b, disallowed);
        DeleteEachMembers(b, disallowed);
      } else {
        assert ValidFileName(title, disallowed) == b;
      }
    }
  }

  lemma {:induction false} RemoveIllegalFixed(s: string)
    requires forall c :: c in s ==> !IsIllegal(c)
    ensures RemoveIllegal(s) == s
    decreases |s|
  {
    if s != [] {
      RemoveIllegalFixed(s[1..]);
      assert [s[0]] + s[1..] == s;
    }
  }

  lemma TrimFixed(s: string)
    requires !EdgeSpace(s)
    ensures Trim(s) == s
  {
  }

  lemma NbspToSpaceFixed(s: string)
    requires Nbsp !in s
    ensures NbspToSpace(s) == s
  {
    assert forall i :: 0 <= i < |s| ==> s[i] != Nbsp;
  }

  /** The fixed clean-up leaves a clean name as it is. */
  lemma CleanNameFixed(s: string)
    requires IsCleanName(s)
    ensures BaseName(s) == s
  {
    RemoveIllegalFixed(s);
    NbspToSpaceFixed(s);
    CollapseRunsFixed(s, IsJsSpace, ' ');
    TrimFixed(s);
  }

  /** Sanitising a sanitised name (without a disallowed set) changes nothing. */
  lemma ValidFileNameIdempotent(title: string)
    ensures ValidFileName(ValidFileName(title, ""), "") == ValidFileName(title, "")
  {
    var r := ValidFileName(title, "");
    ValidFileNameIsClean(title);
    if r != "" {
      CleanNameFixed(r);
    }
  }
}
