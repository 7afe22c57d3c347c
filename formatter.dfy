/** The digest formatter: one text message with a dated header line, then a
    section per non-empty category (its label, then a title line and a link
    line per item, then a blank line), with surrounding whitespace stripped. */
module Formatter {
  import opened News

  // ---------------------------------------------------------------------
  // Python's str.strip()

  /** Python's `str.isspace()` on one character: the characters that
      `str.strip()` with no argument removes. */
  predicate IsSpace(c: char) {
    c in Whitespace
  }

  const Whitespace: set<char> := {
    '\t', '\n', '\U{000B}', '\U{000C}', '\r', '\U{001C}', '\U{001D}', '\U{001E}', '\U{001F}', ' ',
    '\U{0085}', '\U{00A0}', '\U{1680}',
    '\U{2000}', '\U{2001}', '\U{2002}', '\U{2003}', '\U{2004}', '\U{2005}', '\U{2006}',
    '\U{2007}', '\U{2008}', '\U{2009}', '\U{200A}',
    '\U{2028}', '\U{2029}', '\U{202F}', '\U{205F}', '\U{3000}'
  }

  /** The characters of `s` at positions `lo` up to (not including) `hi`
      are all whitespace. */
  predicate SpaceBetween(s: string, lo: int, hi: int) {
    forall j :: lo <= j < hi && 0 <= j < |s| ==> IsSpace(s[j])
  }

  predicate AllSpace(s: string) {
    SpaceBetween(s, 0, |s|)
  }

  /** `s.lstrip()`: drop whitespace from the front. */
  function TrimStart(s: string): string {
    if s != [] && IsSpace(s[0]) then TrimStart(s[1..]) else s
  }

  /** `s.rstrip()`: drop whitespace from the back. */
  function TrimEnd(s: string): string {
    if s != [] && IsSpace(s[|s| - 1]) then TrimEnd(s[..|s| - 1]) else s
  }

  /** What `lstrip()` promises: the longest suffix of `s` that does not start
      with whitespace; what it cuts off is all whitespace. */
  lemma {:induction false} TrimStartSpec(s: string)
    ensures var r := TrimStart(s);
      && |r| <= |s| && r == s[|s| - |r|..]
      && SpaceBetween(s, 0, |s| - |r|)
      && (r == [] || !IsSpace(r[0]))
  {
    if s != [] && IsSpace(s[0]) {
      var r := TrimStart(s);
      TrimStartSpec(s[1..]);
      assert s[1..][|s| - 1 - |r|..] == s[|s| - |r|..];
      forall j | 0 < j < |s| - |r| ensures IsSpace(s[j]) {
        assert s[j] == s[1..][j - 1];
      }
    }
  }

  /** What `rstrip()` promises: the longest prefix of `s` that does not end
      with whitespace; what it cuts off is all whitespace. */
  lemma {:induction false} TrimEndSpec(s: string)
    ensures var r := TrimEnd(s);
      && |r| <= |s| && r == s[..|r|]
      && SpaceBetween(s, |r|, |s|)
      && (r == [] || !IsSpace(r[|r| - 1]))
  {
    if s != [] && IsSpace(s[|s| - 1]) {
      var init := s[..|s| - 1];
      var r := TrimEnd(s);
      TrimEndSpec(init);
      assert init[..|r|] == s[..|r|];
      forall j | |r| <= j < |s| - 1 ensures IsSpace(s[j]) {
        assert s[j] == init[j];
      }
    }
  }

  /** `rstrip()` leaves nothing exactly when the text is all whitespace. */
  lemma TrimEndEmpty(s: string)
    ensures TrimEnd(s) == [] <==> AllSpace(s)
  {
    var r := TrimEnd(s);
    TrimEndSpec(s);
    if r != [] {
      assert r[|r| - 1] == s[|r| - 1];
    }
  }

  /** `s.strip()`. */
  function Strip(s: string): string {
    TrimEnd(TrimStart(s))
  }

  /** `r` is `s` with the whitespace runs `s[..i]` and `s[i + |r|..]` cut off. */
  predicate StrippedAt(s: string, r: string, i: int) {
    0 <= i && i + |r| <= |s| && r == s[i..i + |r|] && SpaceBetween(s, 0, i) && SpaceBetween(s, i + |r|, |s|)
  }

  /** `strip()` cuts off exactly the whitespace run that `lstrip()` cuts
      off at the front, and then a whitespace run at the back. */
  lemma StripCuts(s: string)
    ensures StrippedAt(s, Strip(s), |s| - |TrimStart(s)|)
  {
    var t := TrimStart(s);
    var r := TrimEnd(t);
    TrimStartSpec(s);
    TrimEndSpec(t);
    PrefixOfSuffix(s, |s| - |t|, t, r);
  }

  /** A prefix `r` of the suffix `t == s[i..]`, followed in `t` by
      whitespace, sits in `s` at `i` and is followed there by whitespace. */
  lemma PrefixOfSuffix(s: string, i: nat, t: string, r: string)
    requires i <= |s| && t == s[i..]
    requires |r| <= |t| && r == t[..|r|] && SpaceBetween(t, |r|, |t|)
    ensures r == s[i..i + |r|] && SpaceBetween(s, i + |r|, |s|)
  {
    forall j | i + |r| <= j < |s| ensures IsSpace(s[j]) {
      assert s[j] == t[j - i];
    }
  }

  /** What `strip()` promises: the result is `s` with leading and trailing
      whitespace cut off, and it neither starts nor ends with whitespace. */
  lemma StripSpec(s: string)
    ensures var r := Strip(s);
      && (exists i :: StrippedAt(s, r, i))
      && (r == [] || (!IsSpace(r[0]) && !IsSpace(r[|r| - 1])))
  {
    var t := TrimStart(s);
    var r := TrimEnd(t);
    StripCuts(s);
    TrimStartSpec(s);
    TrimEndSpec(t);
    assert r == [] || r[0] == t[0];
  }

  /** Stripping twice is stripping once. */
  lemma StripIdempotent(s: string)
    ensures Strip(Strip(s)) == Strip(s)
  {
    var t := TrimStart(s);
    var r := TrimEnd(t);
    TrimStartSpec(s);
    TrimEndSpec(t);
    assert r == [] || r[0] == t[0];
    assert TrimStart(r) == r;
    assert TrimEnd(r) == r;
  }

  /** Trailing whitespace is cut from the end only: a prefix that ends in a
      non-space character survives `rstrip()` whole. */
  lemma {:induction false} TrimEndAfter(a: string, b: string)
    requires a != [] && !IsSpace(a[|a| - 1])
    ensures TrimEnd(a + b) == a + TrimEnd(b)
  {
    if b == [] {
      assert a + b == a;
    } else {
      assert (a + b)[..|a + b| - 1] == a + b[..|b| - 1];
      TrimEndAfter(a, b[..|b| - 1]);
    }
  }

  // ---------------------------------------------------------------------
  // The message layout

  /** The first line; the date is `datetime.today().strftime('%Y/%m/%d')`,
      taken as a parameter. */
  function Header(date: string): string {
    "📢 新光金控 - 今日新聞摘要（" + date + "）"
  }

  /** The two lines of one item: its title, then its link. */
  function ItemLines(x: Item): string {
    "- " + x.title + "\n  🔗 " + x.link + "\n"
  }

  /** The item lines of a category, in list order. */
  function Lines(items: seq<Item>): string {
    if items == [] then "" else Lines(items[..|items| - 1]) + ItemLines(items[|items| - 1])
  }

  /** The section of one category: nothing at all for an empty list, else the
      label line, the item lines and a blank line. */
  function Section(cat: string, items: seq<Item>): string {
    if items == [] then "" else cat + "\n" + Lines(items) + "\n"
  }

  /** The sections of all categories, in the mapping's iteration order. */
  function Sections(d: Digest): string {
    if d == [] then "" else Sections(d[..|d| - 1]) + Section(d[|d| - 1].0, d[|d| - 1].1)
  }

  /** The message before the final `strip()`. */
  function Render(d: Digest, date: string): string {
    Header(date) + "\n\n" + Sections(d)
  }

  /** `format_message`: grows the message category by category, then
      strips it. */
  method FormatMessage(classified: Digest, date: string) returns (text: string)
    ensures text == Strip(Render(classified, date))
  {
    var message := Header(date) + "\n\n";
    for i := 0 to |classified|
      invariant message == Header(date) + "\n\n" + Sections(classified[..i])
    {
      var (category, items) := classified[i];
      SectionsSnoc(classified, i);
      Assoc(Header(date) + "\n\n", Sections(classified[..i]), Section(category, items));
      message := AppendSection(message, category, items);
    }
    assert classified[..|classified|] == classified;
    text := Strip(message);
  }

  /** The body of the loop over categories: skip an empty list, else add
      the label line, then item by item the title and link lines, then a
      blank line. */
  method AppendSection(message: string, category: string, items: seq<Item>) returns (out: string)
    ensures out == message + Section(category, items)
  {
    out := message;
    if items != [] {
      out := out + category + "\n";
      for k := 0 to |items|
        invariant out == message + (category + "\n" + Lines(items[..k]))
      {
        LinesSnoc(items, k);
        Assoc(message, category + "\n" + Lines(items[..k]), ItemLines(items[k]));
        Assoc(category + "\n", Lines(items[..k]), ItemLines(items[k]));
        out := out + ItemLines(items[k]);
      }
      assert items[..|items|] == items;
      Assoc(message, category + "\n" + Lines(items), "\n");
      out := out + "\n";
    } else {
      assert out == message + [];
    }
  }

  lemma SectionsSnoc(d: Digest, i: nat)
    requires i < |d|
    ensures Sections(d[..i + 1]) == Sections(d[..i]) + Section(d[i].0, d[i].1)
  {
    assert d[..i + 1][..i] == d[..i];
  }

  lemma LinesSnoc(items: seq<Item>, k: nat)
    requires k < |items|
    ensures Lines(items[..k + 1]) == Lines(items[..k]) + ItemLines(items[k])
  {
    assert items[..k + 1][..k] == items[..k];
  }

  // ---------------------------------------------------------------------
  // What the message promises

  /** Items are rendered one after the other, in list order. */
  lemma {:induction false} LinesAppend(a: seq<Item>, b: seq<Item>)
    ensures Lines(a + b) == Lines(a) + Lines(b)
  {
    if b == [] {
      assert a + b == a;
    } else {
      var init := b[..|b| - 1];
      var last := b[|b| - 1];
      assert (a + b)[..|a + b| - 1] == a + init;
      assert (a + b)[|a + b| - 1] == last;
      LinesAppend(a, init);
      Assoc(Lines(a), Lines(init), ItemLines(last));
    }
  }

  /** Categories are rendered one after the other, in the mapping's order. */
  lemma {:induction false} SectionsAppend(a: Digest, b: Digest)
    ensures Sections(a + b) == Sections(a) + Sections(b)
  {
    if b == [] {
      assert a + b == a;
    } else {
      var init := b[..|b| - 1];
      var last := b[|b| - 1];
      assert (a + b)[..|a + b| - 1] == a + init;
      assert (a + b)[|a + b| - 1] == last;
      SectionsAppend(a, init);
      Assoc(Sections(a), Sections(init), Section(last.0, last.1));
    }
  }

  /** A category whose list is empty contributes nothing: no label line and
      no blank line. */
  lemma EmptyCategoryVanishes(a: Digest, cat: string, b: Digest)
    ensures Sections(a + [(cat, [])] + b) == Sections(a + b)
  {
    var e: Digest := [(cat, [])];
    assert e[..0] == [];
    assert Sections(e) == "";
    SectionsAppend(a + e, b);
    SectionsAppend(a, e);
    SectionsAppend(a, b);
    assert Sections(a + e) == Sections(a);
  }

  lemma {:induction false} AllSpaceAppend(a: string, b: string)
    ensures AllSpace(a + b) <==> AllSpace(a) && AllSpace(b)
  {
    if AllSpace(a + b) {
      forall i | 0 <= i < |a| ensures IsSpace(a[i]) {
        assert (a + b)[i] == a[i];
      }
      forall i | 0 <= i < |b| ensures IsSpace(b[i]) {
        assert (a + b)[|a| + i] == b[i];
      }
    }
    if AllSpace(a) && AllSpace(b) {
      forall i | 0 <= i < |a + b| ensures IsSpace((a + b)[i]) {
        if i < |a| { assert (a + b)[i] == a[i]; } else { assert (a + b)[i] == b[i - |a|]; }
      }
    }
  }

  /** A category's section is all whitespace exactly when its list is
      empty (and then the section is empty); otherwise the `-` that starts
      its last item line is visible. */
  lemma SectionBlank(cat: string, items: seq<Item>)
    ensures AllSpace(Section(cat, items)) <==> items == []
  {
    if items != [] {
      var x := items[|items| - 1];
      var l := ItemLines(x);
      assert l[0] == '-' && !IsSpace('-');
      assert !AllSpace(l);
      AllSpaceAppend(Lines(items[..|items| - 1]), l);
      AllSpaceAppend(cat + "\n", Lines(items));
      AllSpaceAppend(cat + "\n" + Lines(items), "\n");
    }
  }

  /** The sections are all whitespace exactly when every category is empty
      (and then they are empty). */
  lemma {:induction false} SectionsBlank(d: Digest)
    ensures AllSpace(Sections(d)) <==> forall k :: 0 <= k < |d| ==> d[k].1 == []
  {
    if d != [] {
      var init := d[..|d| - 1];
      var last := d[|d| - 1];
      var s1 := Sections(init);
      var s2 := Section(last.0, last.1);
      assert Sections(d) == s1 + s2;
      SectionsBlank(init);
      AllSpaceAppend(s1, s2);
      SectionBlank(last.0, last.1);
      assert (forall k :: 0 <= k < |d| ==> d[k].1 == [])
         <==> (forall k :: 0 <= k < |init| ==> init[k].1 == []) && last.1 == [] by {
        assert forall k :: 0 <= k < |init| ==> init[k] == d[k];
      }
    }
  }

  /** The header begins and ends with a visible character. */
  lemma HeaderVisible(date: string)
    ensures var h := Header(date); h != [] && !IsSpace(h[0]) && !IsSpace(h[|h| - 1])
  {
    var h := Header(date);
    assert h[0] == '📢' && h[|h| - 1] == '）';
    assert !IsSpace('📢') && !IsSpace('）');
  }

  /** Stripping text that begins with a visible first line keeps that line
      whole and strips only what follows it. */
  lemma StripHeaded(h: string, rest: string)
    requires h != [] && !IsSpace(h[0]) && !IsSpace(h[|h| - 1])
    ensures Strip(h + rest) == h + TrimEnd(rest)
  {
    assert (h + rest)[0] == h[0];
    assert TrimStart(h + rest) == h + rest;
    TrimEndAfter(h, rest);
  }

  /** The header survives the final strip whole: the message is the header
      followed by the stripped rest, so it always begins with the header. */
  lemma FormatStartsWithHeader(d: Digest, date: string)
    ensures Strip(Render(d, date)) == Header(date) + TrimEnd("\n\n" + Sections(d))
  {
    HeaderVisible(date);
    Assoc(Header(date), "\n\n", Sections(d));
    StripHeaded(Header(date), "\n\n" + Sections(d));
  }

  /** A stripped message that begins with a visible line is non-empty, has no
      whitespace at either end, and is its own strip. */
  lemma HeadedStripped(h: string, rest: string)
    requires h != [] && !IsSpace(h[0]) && !IsSpace(h[|h| - 1])
    ensures var m := h + TrimEnd(rest);
      && m != [] && !IsSpace(m[0]) && !IsSpace(m[|m| - 1])
      && Strip(m) == m
  {
    var t := TrimEnd(rest);
    TrimEndSpec(rest);
    var m := h + t;
    assert m[0] == h[0];
    if t == [] {
      assert m == h;
    } else {
      assert m[|m| - 1] == t[|t| - 1];
    }
    assert TrimStart(m) == m;
  }

  /** The message is never empty, neither starts nor ends with whitespace,
      and stripping it again changes nothing. */
  lemma MessageStripped(d: Digest, date: string)
    ensures var m := Strip(Render(d, date));
      && m != [] && !IsSpace(m[0]) && !IsSpace(m[|m| - 1])
      && Strip(m) == m
  {
    FormatStartsWithHeader(d, date);
    HeaderVisible(date);
    HeadedStripped(Header(date), "\n\n" + Sections(d));
  }

  /** A first line followed by a blank line and then `sec`, trailing
      whitespace stripped, is that line alone exactly when `sec` is all
      whitespace. */
  lemma BlankRest(h: string, sec: string)
    ensures h + TrimEnd("\n\n" + sec) == h <==> AllSpace(sec)
  {
    var rest := "\n\n" + sec;
    var t := TrimEnd(rest);
    TrimEndEmpty(rest);
    AllSpaceAppend("\n\n", sec);
    assert AllSpace("\n\n");
    if h + t == h {
      assert |t| == 0;
    }
  }

  /** The message is exactly the header line (its trailing blank line
      stripped) iff every category list is empty. */
  lemma HeaderOnlyIff(d: Digest, date: string)
    ensures Strip(Render(d, date)) == Header(date) <==> forall k :: 0 <= k < |d| ==> d[k].1 == []
  {
    FormatStartsWithHeader(d, date);
    SectionsBlank(d);
    BlankRest(Header(date), Sections(d));
  }

  /** The sections of the worked example below. */
  lemma ExampleSections()
    ensures Sections([("A", [Item("t", "u", "", "")]), ("B", [])]) == "A\n- t\n  🔗 u" + "\n\n"
  {
    var x := Item("t", "u", "", "");
    var d: Digest := [("A", [x]), ("B", [])];
    assert [x][..0] == [];
    assert Lines([x]) == "- t\n  🔗 u\n";
    assert d[..1][..0] == [];
    assert Sections(d[..1]) == "A\n- t\n  🔗 u\n\n";
    assert "A\n- t\n  🔗 u\n\n" == "A\n- t\n  🔗 u" + "\n\n";
  }

  /** Stripping a trailing blank line after visible text. */
  lemma DropBlankTail(h: string, text: string)
    requires text != [] && !IsSpace(text[|text| - 1])
    ensures h + TrimEnd("\n\n" + (text + "\n\n")) == h + "\n\n" + text
  {
    var body := "\n\n" + text;
    Assoc("\n\n", text, "\n\n");
    assert body[|body| - 1] == text[|text| - 1];
    TrimEndAfter(body, "\n\n");
    assert TrimEnd("\n\n") == "";
    Assoc(h, "\n\n", text);
  }

  /** When the sections end with a visible line and the closing blank line,
      the final strip removes exactly that blank line. */
  lemma StripsClosingBlank(d: Digest, date: string, text: string)
    requires Sections(d) == text + "\n\n"
    requires text != [] && !IsSpace(text[|text| - 1])
    ensures Strip(Render(d, date)) == Header(date) + "\n\n" + text
  {
    FormatStartsWithHeader(d, date);
    DropBlankTail(Header(date), text);
  }

  /** A worked example: one category with one item, then an empty one. The
      empty category leaves no trace and the trailing blank line is
      stripped. */
  lemma FormatExample(date: string)
    ensures Strip(Render([("A", [Item("t", "u", "", "")]), ("B", [])], date))
         == Header(date) + "\n\n" + "A\n- t\n  🔗 u"
  {
    var x := Item("t", "u", "", "");
    ExampleSections();
    var text := "A\n- t\n  🔗 u";
    assert !IsSpace(text[|text| - 1]);
    StripsClosingBlank([("A", [x]), ("B", [])], date, text);
  }
}
