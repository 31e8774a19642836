/** The article object: its own properties in the order `for…in` visits them,
    and the merge of `<meta>` tags into it (server/markdownload.js:205-217). */
module Articles {
  import opened JsStrings
  import opened JsValues

  datatype Field = Field(key: string, value: JsValue)

  /** An article's own properties, in enumeration order. */
  type Article = seq<Field>

  predicate HasKey(a: Article, key: string) {
    exists k :: 0 <= k < |a| && a[k].key == key
  }

  /** `article[key]`: the value of the property, `undefined` when absent. */
  function Get(a: Article, key: string): (v: JsValue)
    ensures !HasKey(a, key) ==> v == Undefined
    decreases |a|
  {
    if a == [] then Undefined
    else if a[0].key == key then a[0].value
    else Get(a[1..], key)
  }

  /** `article[key] = v`: an existing property keeps its place, a new one goes last. */
  function Set(a: Article, key: string, v: JsValue): (r: Article)
    ensures Get(r, key) == v
    ensures forall k :: k != key ==> Get(r, k) == Get(a, k)
    ensures HasKey(a, key) ==> |r| == |a|
    ensures HasKey(a, key) ==> forall i :: 0 <= i < |a| ==> r[i].key == a[i].key && (a[i].key != key ==> r[i] == a[i])
    ensures !HasKey(a, key) ==> r == a + [Field(key, v)]
    decreases |a|
  {
    if a == [] then [Field(key, v)]
    else if a[0].key == key then [Field(key, v)] + a[1..]
    else [a[0]] + Set(a[1..], key, v)
  }

  /** After `article[key] = v` the object has the keys it had, and `key`. */
  lemma SetKeys(a: Article, key: string, v: JsValue, k: string)
    ensures HasKey(Set(a, key, v), k) <==> HasKey(a, k) || k == key
  {
    var r := Set(a, key, v);
    if HasKey(a, key) {
      if HasKey(a, k) {
        var j :| 0 <= j < |a| && a[j].key == k;
        assert r[j].key == k;
      }
      if HasKey(r, k) {
        var j :| 0 <= j < |r| && r[j].key == k;
        assert a[j].key == k;
      }
      if k == key {
        var j :| 0 <= j < |a| && a[j].key == key;
        assert r[j].key == k;
      }
    } else {
      assert r[|a|].key == key;
      if HasKey(a, k) {
        var j :| 0 <= j < |a| && a[j].key == k;
        assert r[j].key == k;
      }
      if HasKey(r, k) && k != key {
        var j :| 0 <= j < |r| && r[j].key == k;
        assert a[j].key == k;
      }
    }
  }

  /** A `<meta>` element with `name` or `property` and `content`; an absent attribute is "". */
  datatype Meta = Meta(name: string, property: string, content: string)

  /** The property a meta tag writes: `name || property`. */
  function MetaKey(m: Meta): string {
    if m.name != "" then m.name else m.property
  }

  /** The members every object inherits from `Object.prototype`: methods, and
      the `__proto__` accessor, which reads as the prototype itself. */
  predicate Inherited(key: string) {
    key in {"constructor", "toString", "toLocaleString", "valueOf", "hasOwnProperty",
            "isPrototypeOf", "propertyIsEnumerable", "__proto__", "__defineGetter__",
            "__defineSetter__", "__lookupGetter__", "__lookupSetter__"}
  }

  /** `!!article[key]`: an own property's value decides; otherwise the lookup
      reaches `Object.prototype`, whose members are all truthy. */
  predicate ReadTruthy(a: Article, key: string) {
    if HasKey(a, key) then Truthy(Get(a, key)) else Inherited(key)
  }

  /** One step of the merge: written only when key and content are non-empty
      and `article[key]` is falsy. */
  function MergeOne(a: Article, m: Meta): Article {
    var key := MetaKey(m);
    if key != "" && m.content != "" && !ReadTruthy(a, key) then Set(a, key, Str(m.content))
    else a
  }

  /** The meta tags of the document head, merged in document order. */
  function MergeMeta(a: Article, metas: seq<Meta>): Article
    decreases |metas|
  {
    if metas == [] then a else MergeMeta(MergeOne(a, metas[0]), metas[1..])
  }

  /** A property that already holds a truthy value is never overwritten by a meta tag. */
  lemma {:induction false} MergeMetaKeepsTruthy(a: Article, metas: seq<Meta>, key: string)
    requires Truthy(Get(a, key))
    ensures Get(MergeMeta(a, metas), key) == Get(a, key)
    decreases |metas|
  {
    if metas != [] {
      var b := MergeOne(a, metas[0]);
      assert Get(b, key) == Get(a, key);
      MergeMetaKeepsTruthy(b, metas[1..], key);
    }
  }

  /** A meta tag named after a member of `Object.prototype` the article does
      not own finds `article[key]` truthy, so no tag ever adds that key. */
  lemma {:induction false} MergeMetaSkipsInherited(a: Article, metas: seq<Meta>, key: string)
    requires Inherited(key) && !HasKey(a, key)
    ensures !HasKey(MergeMeta(a, metas), key)
    ensures Get(MergeMeta(a, metas), key) == Undefined
    decreases |metas|
  {
    if metas != [] {
      var m := metas[0];
      if MetaKey(m) != "" && m.content != "" && !ReadTruthy(a, MetaKey(m)) {
        SetKeys(a, MetaKey(m), Str(m.content), key);
      }
      MergeMetaSkipsInherited(MergeOne(a, m), metas[1..], key);
    }
  }

  /** The first meta tag with a non-empty content for a key whose value is
      falsy sets it, and no later tag changes it (first writer wins). */
  lemma {:induction false} MergeMetaFirstWins(a: Article, metas: seq<Meta>, i: nat)
    requires i < |metas|
    requires MetaKey(metas[i]) != "" && metas[i].content != ""
    requires !ReadTruthy(a, MetaKey(metas[i]))
    requires forall j :: 0 <= j < i ==> MetaKey(metas[j]) != MetaKey(metas[i]) || metas[j].content == ""
    ensures Get(MergeMeta(a, metas), MetaKey(metas[i])) == Str(metas[i].content)
    decreases i
  {
    var key := MetaKey(metas[i]);
    var b := MergeOne(a, metas[0]);
    if i == 0 {
      assert Get(b, key) == Str(metas[0].content);
      MergeMetaKeepsTruthy(b, metas[1..], key);
    } else {
      var m := metas[0];
      if MetaKey(m) != "" && m.content != "" && !ReadTruthy(a, MetaKey(m)) {
        SetKeys(a, MetaKey(m), Str(m.content), key);
      }
      assert Get(b, key) == Get(a, key);
      assert !ReadTruthy(b, key);
      MergeMetaFirstWins(b, metas[1..], i - 1);
    }
  }

  /** `content.split(',').map(s => s.trim())` of the keywords meta tag; `undefined` without one. */
  function KeywordsFromMeta(content: Option<string>): (v: JsValue)
    ensures content.None? <==> v == Undefined
    ensures content.Some? ==> v.List? && |v.items| == CountChar(content.value, ',') + 1
    ensures content.Some? ==> forall k :: 0 <= k < |v.items| ==> !EdgeSpace(v.items[k])
    ensures content.Some? ==> |v.items| == |Split(content.value, ",")|
    ensures content.Some? ==> forall k :: 0 <= k < |v.items| ==> v.items[k] == Trim(Split(content.value, ",")[k])
  {
    match content
    case None => Undefined
    case Some(c) =>
      var parts := Split(c, ",");
      SplitCharPieces(c, ',');
      List(seq(|parts|, k requires 0 <= k < |parts| => Trim(parts[k])))
  }

  /** The keyword list read back against the tag's content: the content is
      the comma-joined run of comma-free pieces, and each keyword is its piece
      with the white space at both ends cut off. */
  lemma KeywordsArePieces(c: string)
    ensures var items := KeywordsFromMeta(Some(c)).items;
      exists parts :: |parts| == |items| && Join(parts, ",") == c
        && forall k :: 0 <= k < |parts| ==> ',' !in parts[k] && exists a :: SpaceAround(parts[k], a, items[k])
  {
    var items := KeywordsFromMeta(Some(c)).items;
    var parts := Split(c, ",");
    SplitJoinRoundTrip(c, ",");
    SplitCharPieces(c, ',');
    assert [','] == ",";
    forall k | 0 <= k < |parts|
      ensures ',' !in parts[k] && exists a :: SpaceAround(parts[k], a, items[k])
    {
      assert items[k] == Trim(parts[k]);
    }
    assert |parts| == |items| && Join(parts, ",") == c;
  }
}
