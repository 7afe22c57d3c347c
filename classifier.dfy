/** The keyword classifier: every news item goes into the first category, in
    table order, one of whose keywords occurs in the item's title; an item that
    matches no category goes into a fallback bucket created on demand. */
module Classifier {
  import opened News

  datatype Option<T> = None | Some(value: T)

  /** A category of the table: its label and its keywords. */
  type Category = (string, seq<string>)

  /** The fixed, ordered category table of the source. */
  const Categories: seq<Category> := [
    ("📈 業績 / 財報", ["財報", "獲利", "盈餘", "收入", "營收"]),
    ("\U{1F3DB}\U{FE0F} 政策 / 法規", ["金管會", "規範", "法令", "監理"]),
    ("👥 人事異動", ["總經理", "董事長", "辭職", "接任", "人事"]),
    ("📰 媒體評論", ["專欄", "分析", "觀點", "評論"])
  ]

  /** The label of the fallback bucket. */
  const Other: string := "📌 其他"

  function Labels(table: seq<Category>): (ls: seq<string>)
    ensures |ls| == |table|
    ensures forall j :: 0 <= j < |table| ==> ls[j] == table[j].0
  {
    seq(|table|, j requires 0 <= j < |table| => table[j].0)
  }

  /** A table written as a dict literal has distinct labels; the fallback
      label is not one of them. */
  predicate WellFormed(table: seq<Category>) {
    (forall a, b :: 0 <= a < b < |table| ==> table[a].0 != table[b].0) &&
    (forall j :: 0 <= j < |table| ==> table[j].0 != Other)
  }

  lemma CategoriesWellFormed()
    ensures WellFormed(Categories)
  {
    assert Other[0] == '📌';
    assert forall j :: 0 <= j < |Categories| ==> Categories[j].0[0] != '📌';
    assert forall a, b :: 0 <= a < b < |Categories| ==> Categories[a].0[0] != Categories[b].0[0];
  }

  // ---------------------------------------------------------------------
  // Substring test and keyword matching

  /** `k` is a prefix of `s`, compared character by character. */
  predicate IsPrefix(k: string, s: string) {
    k == [] || (s != [] && k[0] == s[0] && IsPrefix(k[1..], s[1..]))
  }

  lemma {:induction false} IsPrefixIff(k: string, s: string)
    ensures IsPrefix(k, s) <==> |k| <= |s| && s[..|k|] == k
  {
    if k != [] && s != [] {
      IsPrefixIff(k[1..], s[1..]);
      if k[0] == s[0] && |k| <= |s| {
        assert s[..|k|] == [s[0]] + s[1..][..|k| - 1];
        assert k == [k[0]] + k[1..];
      }
    }
  }

  /** Python's `k in s` on strings: a case-sensitive test that `k` occurs as
      a contiguous run of `s` (the empty string occurs everywhere). */
  predicate Contains(s: string, k: string) {
    IsPrefix(k, s) || (s != [] && Contains(s[1..], k))
  }

  /** `k` occurs in `s` starting at position `i`. */
  predicate OccursAt(s: string, k: string, i: int) {
    0 <= i && i + |k| <= |s| && s[i..i + |k|] == k
  }

  /** `Contains` is exactly "occurs at some position". */
  lemma {:induction false} ContainsIffOccurs(s: string, k: string)
    ensures Contains(s, k) <==> exists i :: OccursAt(s, k, i)
  {
    IsPrefixIff(k, s);
    if IsPrefix(k, s) {
      assert OccursAt(s, k, 0);
    } else if s != [] {
      ContainsIffOccurs(s[1..], k);
      if Contains(s[1..], k) {
        var i :| OccursAt(s[1..], k, i);
        assert OccursAt(s, k, i + 1);
      } else {
        forall i | OccursAt(s, k, i) && i > 0 ensures OccursAt(s[1..], k, i - 1) {
          assert s[1..][i - 1..i - 1 + |k|] == s[i..i + |k|];
        }
      }
    }
  }

  /** `any(k in title for k in keywords)`, scanning the keywords in order. */
  predicate Matches(title: string, keywords: seq<string>) {
    keywords != [] && (Contains(title, keywords[0]) || Matches(title, keywords[1..]))
  }

  /** `Matches` holds exactly when some keyword of the list occurs in the
      title. */
  lemma {:induction false} MatchesIffSomeKeyword(title: string, keywords: seq<string>)
    ensures Matches(title, keywords) <==> exists k :: k in keywords && Contains(title, k)
  {
    if keywords != [] {
      MatchesIffSomeKeyword(title, keywords[1..]);
      if exists k :: k in keywords && Contains(title, k) {
        var k :| k in keywords && Contains(title, k);
        assert k == keywords[0] || k in keywords[1..];
      }
      if Contains(title, keywords[0]) {
        assert keywords[0] in keywords;
      }
    }
  }

  /** The index of the first category, in table order, that matches the
      title; None when no category does. */
  function FirstMatch(table: seq<Category>, title: string): (r: Option<nat>)
    ensures r.Some? ==> r.value < |table|
  {
    if table == [] then None
    else if Matches(title, table[0].1) then Some(0)
    else match FirstMatch(table[1..], title)
      case Some(j) => Some(j + 1)
      case None => None
  }

  /** Every input item is in exactly one list of the result. */
  lemma ClassifiedExactlyOne(table: seq<Category>, news: seq<Item>, y: Item)
    requires WellFormed(table) && y in news
    ensures var r := Classified(table, news);
      exists k :: 0 <= k < |r| && y in r[k].1 && forall k' :: 0 <= k' < |r| && y in r[k'].1 ==> k' == k
  {
    var r := Classified(table, news);
    ClassifiedComplete(table, news);
    ClassifiedSound(table, news);
    ClassifiedKeys(table, news);
    var k :| 0 <= k < |r| && y in r[k].1;
    assert forall k' :: 0 <= k' < |r| && y in r[k'].1 ==> r[k'].0 == r[k].0;
  }

  /** First match wins: the index found matches, no earlier category does,
      and None means that no category matches at all. */
  lemma {:induction false} FirstMatchSpec(table: seq<Category>, title: string)
    ensures var r := FirstMatch(table, title);
      && (r.Some? ==> Matches(title, table[r.value].1))
      && (r.Some? ==> forall j :: 0 <= j < r.value ==> !Matches(title, table[j].1))
      && (r.None? <==> forall j :: 0 <= j < |table| ==> !Matches(title, table[j].1))
  {
    if table != [] && !Matches(title, table[0].1) {
      FirstMatchSpec(table[1..], title);
      var r := FirstMatch(table, title);
      if r.Some? {
        forall j | 0 <= j < r.value ensures !Matches(title, table[j].1) {
          if j > 0 { assert table[j] == table[1..][j - 1]; }
        }
      } else {
        forall j | 0 <= j < |table| ensures !Matches(title, table[j].1) {
          if j > 0 { assert table[j] == table[1..][j - 1]; }
        }
      }
    }
  }

  /** No category of the table matches the title. */
  predicate NoCategory(table: seq<Category>, title: string) {
    forall j :: 0 <= j < |table| ==> !Matches(title, table[j].1)
  }

  /** The label an item with this title is filed under. Only the title is
      looked at. */
  function CategoryOf(table: seq<Category>, title: string): string {
    match FirstMatch(table, title)
    case Some(j) => table[j].0
    case None => Other
  }

  // ---------------------------------------------------------------------
  // The declarative specification of the result

  /** Filing by a table: each title to the label it is filed under. */
  function FiledBy(table: seq<Category>): string -> string {
    title => CategoryOf(table, title)
  }

  /** The items of `news` that `file` sends to `cat`, in their order in
      `news`. */
  function Bucket(file: string -> string, news: seq<Item>, cat: string): seq<Item> {
    if news == [] then []
    else
      var last := news[|news| - 1];
      Bucket(file, news[..|news| - 1], cat) + (if file(last.title) == cat then [last] else [])
  }

  /** One entry per table label, in table order, each holding its bucket. */
  function Columns(table: seq<Category>, news: seq<Item>): (c: Digest)
    ensures |c| == |table|
  {
    seq(|table|, j requires 0 <= j < |table| => (table[j].0, Bucket(FiledBy(table), news, table[j].0)))
  }

  /** The mapping classify_news returns: the table's entries, and a trailing
      fallback entry when some item matched nothing. */
  function Classified(table: seq<Category>, news: seq<Item>): Digest {
    var other := Bucket(FiledBy(table), news, Other);
    if other == [] then Columns(table, news) else Columns(table, news) + [(Other, other)]
  }

  // ---------------------------------------------------------------------
  // Appending to a dict entry

  /** `d.setdefault(key, []).append(x)`; for a key already present this is
      also `d[key].append(x)`. */
  function Place(d: Digest, key: string, x: Item): Digest {
    if d == [] then [(key, [x])]
    else if d[0].0 == key then [(key, d[0].1 + [x])] + d[1..]
    else [d[0]] + Place(d[1..], key, x)
  }

  /** Placing adds exactly one item, `x`, to the dict's contents. */
  lemma {:induction false} PlaceAddsOne(d: Digest, key: string, x: Item)
    ensures multiset(Flatten(Place(d, key, x))) == multiset(Flatten(d)) + multiset{x}
  {
    if d != [] && d[0].0 != key {
      PlaceAddsOne(d[1..], key, x);
    }
  }

  /** Appending under a key the dict already holds touches that entry only. */
  lemma {:induction false} PlaceAt(d: Digest, j: nat, x: Item)
    requires DistinctKeys(d) && j < |d|
    ensures Place(d, d[j].0, x) == d[j := (d[j].0, d[j].1 + [x])]
  {
    if j > 0 {
      assert DistinctKeys(d[1..]);
      PlaceAt(d[1..], j - 1, x);
      assert d[1..][j - 1 := (d[j].0, d[j].1 + [x])] == d[j := (d[j].0, d[j].1 + [x])][1..];
    }
  }

  /** `setdefault` on a missing key adds a new last entry holding only `x`. */
  lemma {:induction false} PlaceNew(d: Digest, key: string, x: Item)
    requires key !in Keys(d)
    ensures Place(d, key, x) == d + [(key, [x])]
  {
    if d != [] {
      assert Keys(d[1..]) == Keys(d)[1..];
      PlaceNew(d[1..], key, x);
      assert d == [d[0]] + d[1..];
    }
  }

  // ---------------------------------------------------------------------
  // Properties of a bucket

  /** An item is in a bucket iff it is an input item filed under that label. */
  lemma {:induction false} BucketMember(file: string -> string, news: seq<Item>, cat: string, y: Item)
    ensures y in Bucket(file, news, cat) <==> y in news && file(y.title) == cat
  {
    if news != [] {
      var init := news[..|news| - 1];
      BucketMember(file, init, cat, y);
      assert news == init + [news[|news| - 1]];
    }
  }

  /** Filing one more item extends the bucket of its category only. */
  lemma {:induction false} BucketSnoc(file: string -> string, news: seq<Item>, x: Item, cat: string)
    ensures Bucket(file, news + [x], cat) == Bucket(file, news, cat) + (if file(x.title) == cat then [x] else [])
  {
    var s := news + [x];
    assert s[..|s| - 1] == news;
  }

  /** Filing is order preserving: the bucket of a concatenation is the bucket
      of the first part followed by the bucket of the second. */
  lemma {:induction false} BucketAppend(file: string -> string, a: seq<Item>, b: seq<Item>, cat: string)
    ensures Bucket(file, a + b, cat) == Bucket(file, a, cat) + Bucket(file, b, cat)
  {
    if b == [] {
      assert a + b == a;
    } else {
      var init := b[..|b| - 1];
      var x := b[|b| - 1];
      var e := if file(x.title) == cat then [x] else [];
      BucketAppend(file, a, init, cat);
      Snoc(a, b);
      BucketSnoc(file, a + init, x, cat);
      BucketSnoc(file, init, x, cat);
      Assoc(Bucket(file, a, cat), Bucket(file, init, cat), e);
    }
  }

  /** The fallback bucket is non-empty exactly when some item matches no
      category. */
  lemma {:induction false} OtherNonEmpty(table: seq<Category>, news: seq<Item>)
    requires WellFormed(table)
    ensures Bucket(FiledBy(table), news, Other) != [] <==> exists y :: y in news && FirstMatch(table, y.title).None?
  {
    var other := Bucket(FiledBy(table), news, Other);
    if other != [] {
      var y := other[0];
      BucketMember(FiledBy(table), news, Other, y);
      assert y in news && FirstMatch(table, y.title).None?;
    }
    if exists y :: y in news && FirstMatch(table, y.title).None? {
      var y :| y in news && FirstMatch(table, y.title).None?;
      BucketMember(FiledBy(table), news, Other, y);
    }
  }

  // ---------------------------------------------------------------------
  // The classifier

  /** The keys of the result: the table labels in table order, followed by
      the fallback label exactly when some item matched no category. */
  lemma {:induction false} ClassifiedKeys(table: seq<Category>, news: seq<Item>)
    requires WellFormed(table)
    ensures var r := Classified(table, news);
      && Keys(r)[..|table|] == Labels(table)
      && (|r| == |table| || |r| == |table| + 1)
      && (|r| == |table| + 1 <==> exists y :: y in news && NoCategory(table, y.title))
      && (|r| == |table| + 1 ==> r[|table|].0 == Other)
      && DistinctKeys(r)
  {
    OtherNonEmpty(table, news);
    forall y | y in news {
      FirstMatchSpec(table, y.title);
    }
  }

  /** The keys of the result are distinct, as those of a dict are. */
  lemma {:induction false} ClassifiedDistinct(table: seq<Category>, news: seq<Item>)
    requires WellFormed(table)
    ensures DistinctKeys(Classified(table, news))
  {
  }

  /** Filing one more item extends column `k` by that item exactly when the
      item is filed under the column's label. */
  lemma {:induction false} ColumnSnoc(table: seq<Category>, news: seq<Item>, x: Item, k: nat)
    requires k < |table|
    ensures Columns(table, news + [x])[k]
         == (table[k].0, Columns(table, news)[k].1 + (if CategoryOf(table, x.title) == table[k].0 then [x] else []))
  {
    BucketSnoc(FiledBy(table), news, x, table[k].0);
  }

  /** Filing an item that matches category `j` extends column `j` only. */
  lemma {:induction false} ColumnsSnocAt(table: seq<Category>, news: seq<Item>, x: Item, j: nat)
    requires WellFormed(table)
    requires FirstMatch(table, x.title) == Some(j)
    ensures j < |table|
    ensures Columns(table, news + [x])
         == Columns(table, news)[j := (table[j].0, Columns(table, news)[j].1 + [x])]
  {
    var c := Columns(table, news);
    forall k | 0 <= k < |table|
      ensures Columns(table, news + [x])[k] == c[j := (table[j].0, c[j].1 + [x])][k]
    {
      ColumnSnoc(table, news, x, k);
      assert CategoryOf(table, x.title) == table[j].0;
      assert c[k].0 == table[k].0;
      if k != j {
        assert table[k].0 != table[j].0;
        assert c[j := (table[j].0, c[j].1 + [x])][k] == c[k];
        assert c[k].1 + [] == c[k].1;
      } else {
        assert Columns(table, news + [x])[k] == (table[k].0, c[k].1 + [x]);
      }
    }
  }

  /** Filing an item that matches no category leaves every column alone. */
  lemma {:induction false} ColumnsSnocNone(table: seq<Category>, news: seq<Item>, x: Item)
    requires WellFormed(table)
    requires FirstMatch(table, x.title).None?
    ensures Columns(table, news + [x]) == Columns(table, news)
  {
    forall k | 0 <= k < |table|
      ensures Columns(table, news + [x])[k] == Columns(table, news)[k]
    {
      ColumnSnoc(table, news, x, k);
      assert table[k].0 != Other;
      assert Columns(table, news)[k].1 + [] == Columns(table, news)[k].1;
    }
  }

  /** Classifying one more item that matches category `j`: it is appended to
      entry `j` and nothing else changes. */
  lemma {:induction false} ClassifiedSnocAt(table: seq<Category>, news: seq<Item>, x: Item, j: nat)
    requires WellFormed(table)
    requires FirstMatch(table, x.title) == Some(j)
    ensures Classified(table, news + [x]) == Place(Classified(table, news), table[j].0, x)
  {
    var d := Classified(table, news);
    var c := Columns(table, news);
    var other := Bucket(FiledBy(table), news, Other);
    ClassifiedKeys(table, news);
    BucketSnoc(FiledBy(table), news, x, Other);
    assert Bucket(FiledBy(table), news + [x], Other) == other;
    ColumnsSnocAt(table, news, x, j);
    PlaceAt(d, j, x);
    if other != [] {
      assert d == c + [(Other, other)];
      assert d[j := (table[j].0, c[j].1 + [x])] == c[j := (table[j].0, c[j].1 + [x])] + [(Other, other)];
    } else {
      assert d == c;
    }
  }

  /** Classifying one more item that matches no category: it is appended to
      the fallback entry, which is created if it was missing. */
  lemma {:induction false} ClassifiedSnocNone(table: seq<Category>, news: seq<Item>, x: Item)
    requires WellFormed(table)
    requires FirstMatch(table, x.title).None?
    ensures Classified(table, news + [x]) == Place(Classified(table, news), Other, x)
  {
    var d := Classified(table, news);
    var c := Columns(table, news);
    var other := Bucket(FiledBy(table), news, Other);
    BucketSnoc(FiledBy(table), news, x, Other);
    assert Bucket(FiledBy(table), news + [x], Other) == other + [x];
    ColumnsSnocNone(table, news, x);
    if other == [] {
      assert d == c;
      assert other + [x] == [x];
      assert forall k :: 0 <= k < |d| ==> Keys(d)[k] != Other;
      PlaceNew(d, Other, x);
    } else {
      ClassifiedDistinct(table, news);
      assert d == c + [(Other, other)];
      PlaceAt(d, |table|, x);
      assert d[|table| := (Other, other + [x])] == c + [(Other, other + [x])];
    }
  }

  /** Classifying one more item appends it to the entry of its category,
      creating the fallback entry if needed: one step of the outer loop. */
  lemma {:induction false} ClassifiedSnoc(table: seq<Category>, news: seq<Item>, x: Item)
    requires WellFormed(table)
    ensures Classified(table, news + [x]) == Place(Classified(table, news), CategoryOf(table, x.title), x)
  {
    match FirstMatch(table, x.title)
    case Some(j) => ClassifiedSnocAt(table, news, x, j);
    case None => ClassifiedSnocNone(table, news, x);
  }

  /** `classify_news`: the nested loops of the source, with the first-match
      `break` and the `setdefault` fallback. */
  method ClassifyNews(newsList: seq<Item>) returns (result: Digest)
    ensures result == Classified(Categories, newsList)
  {
    CategoriesWellFormed();
    var categories := Categories;
    result := seq(|categories|, j requires 0 <= j < |categories| => (categories[j].0, []));
    assert result == Columns(categories, []);
    for i := 0 to |newsList|
      invariant result == Classified(categories, newsList[..i])
    {
      var item := newsList[i];
      assert newsList[..i + 1] == newsList[..i] + [item];
      var categorized := false;
      FirstMatchSpec(categories, item.title);
      for j := 0 to |categories|
        invariant !categorized
        invariant forall j' :: 0 <= j' < j ==> !Matches(item.title, categories[j'].1)
        invariant result == Classified(categories, newsList[..i])
      {
        var (cat, keywords) := categories[j];
        if Matches(item.title, keywords) {
          assert FirstMatch(categories, item.title) == Some(j);
          ClassifiedSnocAt(categories, newsList[..i], item, j);
          result := Place(result, cat, item);
          categorized := true;
          break;
        }
      }
      if !categorized {
        ClassifiedSnocNone(categories, newsList[..i], item);
        result := Place(result, Other, item);
      }
    }
    assert newsList[..|newsList|] == newsList;
  }

  // ---------------------------------------------------------------------
  // What the result promises

  /** `d.get(key, [])`: the items stored under `key`, none if it is absent. */
  function Lookup(d: Digest, key: string): seq<Item> {
    if d == [] then [] else if d[0].0 == key then d[0].1 else Lookup(d[1..], key)
  }

  lemma {:induction false} LookupAt(d: Digest, k: nat)
    requires DistinctKeys(d) && k < |d|
    ensures Lookup(d, d[k].0) == d[k].1
  {
    if k > 0 {
      assert DistinctKeys(d[1..]);
      LookupAt(d[1..], k - 1);
    }
  }

  lemma {:induction false} LookupMissing(d: Digest, key: string)
    requires key !in Keys(d)
    ensures Lookup(d, key) == []
  {
    if d != [] {
      assert Keys(d[1..]) == Keys(d)[1..];
      LookupMissing(d[1..], key);
    }
  }

  /** Every label an item can be filed under is a table label or the
      fallback label. */
  lemma CategoryOfRange(table: seq<Category>, title: string)
    ensures CategoryOf(table, title) in Labels(table) + [Other]
  {
  }

  /** The label an input item is filed under is a key of the result. */
  lemma ClassifiedHasKey(table: seq<Category>, news: seq<Item>, y: Item)
    requires WellFormed(table) && y in news
    ensures CategoryOf(table, y.title) in Keys(Classified(table, news))
  {
    var r := Classified(table, news);
    var c := CategoryOf(table, y.title);
    ClassifiedKeys(table, news);
    CategoryOfRange(table, y.title);
    if c == Other {
      BucketMember(FiledBy(table), news, Other, y);
      assert r[|table|].0 == Other;
    } else {
      var j :| 0 <= j < |table| && Labels(table)[j] == c;
      assert r[j].0 == c;
    }
  }

  /** The entry of the result under any key is the bucket of that key: the
      input items filed under it, in input order (empty for a key nothing can
      be filed under). */
  lemma {:induction false} LookupClassified(table: seq<Category>, news: seq<Item>, key: string)
    requires WellFormed(table)
    ensures Lookup(Classified(table, news), key) == Bucket(FiledBy(table), news, key)
  {
    var r := Classified(table, news);
    var b := Bucket(FiledBy(table), news, key);
    ClassifiedKeys(table, news);
    if b != [] {
      BucketMember(FiledBy(table), news, key, b[0]);
      ClassifiedHasKey(table, news, b[0]);
    }
    if k :| 0 <= k < |r| && r[k].0 == key {
      LookupAt(r, k);
    } else {
      LookupMissing(r, key);
    }
  }

  /** Nothing is lost or duplicated: the lists of the result hold, between
      them, exactly the input items, as many times as they occur in the
      input. */
  lemma {:induction false} ClassifiedPartition(table: seq<Category>, news: seq<Item>)
    requires WellFormed(table)
    ensures multiset(Flatten(Classified(table, news))) == multiset(news)
    ensures |Flatten(Classified(table, news))| == |news|
  {
    if news == [] {
      FlattenEmptyIff(Classified(table, news));
    } else {
      var init := news[..|news| - 1];
      var x := news[|news| - 1];
      assert news == init + [x];
      ClassifiedPartition(table, init);
      ClassifiedSnoc(table, init, x);
      PlaceAddsOne(Classified(table, init), CategoryOf(table, x.title), x);
    }
    assert |multiset(Flatten(Classified(table, news)))| == |multiset(news)|;
  }

  /** Every listed item is an input item, unchanged, listed under the label
      its title selects. */
  lemma ClassifiedSound(table: seq<Category>, news: seq<Item>)
    requires WellFormed(table)
    ensures var r := Classified(table, news);
      forall k, y :: 0 <= k < |r| && y in r[k].1 ==> y in news && r[k].0 == CategoryOf(table, y.title)
  {
    var r := Classified(table, news);
    forall k, y | 0 <= k < |r| && y in r[k].1
      ensures y in news && r[k].0 == CategoryOf(table, y.title)
    {
      ClassifiedKeys(table, news);
      LookupAt(r, k);
      LookupClassified(table, news, r[k].0);
      BucketMember(FiledBy(table), news, r[k].0, y);
    }
  }

  /** Every input item is listed somewhere in the result. */
  lemma ClassifiedComplete(table: seq<Category>, news: seq<Item>)
    requires WellFormed(table)
    ensures var r := Classified(table, news);
      forall y :: y in news ==> exists k :: 0 <= k < |r| && y in r[k].1
  {
    var r := Classified(table, news);
    forall y | y in news
      ensures exists k :: 0 <= k < |r| && y in r[k].1
    {
      var c := CategoryOf(table, y.title);
      LookupClassified(table, news, c);
      BucketMember(FiledBy(table), news, c, y);
      if k :| 0 <= k < |r| && r[k].0 == c {
        ClassifiedKeys(table, news);
        LookupAt(r, k);
      } else {
        assert c !in Keys(r);
        LookupMissing(r, c);
      }
    }
  }

  /** First match wins: an input item is in the list of table category `j`
      iff a keyword of category `j` occurs in its title and no keyword of an
      earlier category does. */
  lemma FirstMatchWins(table: seq<Category>, news: seq<Item>, y: Item, j: nat)
    requires WellFormed(table)
    requires y in news && j < |table|
    ensures y in Lookup(Classified(table, news), table[j].0)
        <==> Matches(y.title, table[j].1) && forall i :: 0 <= i < j ==> !Matches(y.title, table[i].1)
  {
    LookupClassified(table, news, table[j].0);
    BucketMember(FiledBy(table), news, table[j].0, y);
    FirstMatchSpec(table, y.title);
    match FirstMatch(table, y.title)
    case Some(v) =>
      if v != j {
        assert table[v].0 != table[j].0;
      }
    case None =>
  }

  /** An input item is in the fallback list iff no keyword of any category
      occurs in its title. */
  lemma FallbackIff(table: seq<Category>, news: seq<Item>, y: Item)
    requires WellFormed(table)
    requires y in news
    ensures y in Lookup(Classified(table, news), Other) <==> NoCategory(table, y.title)
  {
    LookupClassified(table, news, Other);
    BucketMember(FiledBy(table), news, Other, y);
    FirstMatchSpec(table, y.title);
  }

  /** Relative order is kept: classifying `a + b` gives, under every key, the
      items of `a` under that key followed by those of `b`. */
  lemma ClassifiedSplit(table: seq<Category>, a: seq<Item>, b: seq<Item>, key: string)
    requires WellFormed(table)
    ensures Lookup(Classified(table, a + b), key)
         == Lookup(Classified(table, a), key) + Lookup(Classified(table, b), key)
  {
    LookupClassified(table, a + b, key);
    LookupClassified(table, a, key);
    LookupClassified(table, b, key);
    BucketAppend(FiledBy(table), a, b, key);
  }

  // ---------------------------------------------------------------------
  // Worked examples

  /** A title naming earnings is filed under the earnings category. */
  lemma EarningsExample()
    ensures CategoryOf(Categories, "新光金控Q3獲利創新高") == "📈 業績 / 財報"
  {
    var title := "新光金控Q3獲利創新高";
    var kws := Categories[0].1;
    assert title[6..8] == "獲利" == kws[1];
    assert OccursAt(title, kws[1], 6);
    ContainsIffOccurs(title, kws[1]);
    assert Matches(title, kws[1..]);
    assert FirstMatch(Categories, title) == Some(0);
  }

  /** The table is searched in order: a title with keywords of two
      categories goes to the earlier one only. */
  lemma FirstCategoryWinsExample()
    ensures var table := [("X", ["a"]), ("Y", ["a", "b"])];
      && CategoryOf(table, "ab") == "X"
      && CategoryOf(table, "b") == "Y"
      && CategoryOf(table, "c") == Other
  {
    var table := [("X", ["a"]), ("Y", ["a", "b"])];
    assert IsPrefix("a", "ab");
    assert FirstMatch(table, "ab") == Some(0);
    assert !Contains("b", "a") && Contains("b", "b");
    assert FirstMatch(table, "b") == Some(1);
    assert !Contains("c", "a") && !Contains("c", "b");
    assert FirstMatch(table, "c") == None;
  }
}
