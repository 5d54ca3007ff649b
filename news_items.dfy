/** `extractNewsItems` of daily-notify-rss.js: the news items of one RSS entry's
    HTML. After the spam pass, every `<li ...>...</li>` element is cut out, its
    text is cleaned (tags stripped, four entities decoded, white space trimmed),
    turned into a news item, and the items with a usable title are kept. */
module NewsItems {
  import opened Wrappers
  import opened Text
  import opened Scan
  import opened Spam

  /** One news item: its title, its link (`""` when it has none) and its text. */
  datatype NewsItem = NewsItem(title: string, url: string, summary: string)

  /** `/<li[^>]*>([\s\S]*?)<\/li>/g`. */
  function LiPattern(): Pattern
  {
    Delimited("<li", true, "</li>", false, false)
  }

  // ---------------------------------------------------------------------------
  // text.replace(/<[^>]+>/g, '')

  /** Removes every tag: at a `<` the expression `<[^>]+>` matches when the next
      character exists and is not `>` and some `>` follows; the match runs to the
      first such `>`. Anything else is copied. */
  function StripTags(s: string): (r: string)
    ensures |r| <= |s|
    ensures forall i :: 0 <= i < |r| ==> r[i] in s
    decreases |s|
  {
    if s == [] then []
    else if s[0] == '<' && |s| >= 2 && s[1] != '>' then
      var g := IndexOfChar(s, '>', 1);
      if g.Some? then StripTags(s[g.value + 1..]) else [s[0]] + StripTags(s[1..])
    else [s[0]] + StripTags(s[1..])
  }

  /** No tag is left: every `<` is followed directly by `>`, or no `>` comes
      after it at all. */
  predicate TagFree(s: string)
  {
    forall i :: 0 <= i < |s| ==> ClosedAt(s, i)
  }

  /** The character at `i` does not open a tag. */
  predicate ClosedAt(s: string, i: nat)
    requires i < |s|
  {
    s[i] == '<' ==> (i + 1 < |s| && s[i + 1] == '>') || NoGtAfter(s, i)
  }

  /** No `>` comes after index `i`. */
  predicate NoGtAfter(s: string, i: nat)
  {
    forall j :: i < j < |s| ==> s[j] != '>'
  }

  /** Text that does not start a tag is copied first. */
  lemma StripTagsHead(s: string)
    requires s != [] && s[0] != '<'
    ensures StripTags(s) == [s[0]] + StripTags(s[1..])
  {
  }

  /** A character put in front of tag-free text leaves it tag-free unless it
      is a `<` that now opens a tag. */
  lemma TagFreeCons(c: char, rest: string)
    requires TagFree(rest)
    requires c == '<' ==> (rest != [] && rest[0] == '>') || '>' !in rest
    ensures TagFree([c] + rest)
  {
    var r := [c] + rest;
    forall i | 0 <= i < |r| ensures ClosedAt(r, i) {
      if i == 0 {
        if c == '<' && !(rest != [] && rest[0] == '>') {
          forall j | 0 < j < |r| ensures r[j] != '>' {
            assert r[j] == rest[j - 1];
          }
        }
      } else {
        assert r[i] == rest[i - 1];
        assert ClosedAt(rest, i - 1);
        assert i + 1 < |r| ==> r[i + 1] == rest[i];
        assert forall j :: i < j < |r| ==> r[j] == rest[j - 1];
      }
    }
  }

  /** Stripping leaves no tag behind. */
  lemma {:induction false} StripTagsTagFree(s: string)
    ensures TagFree(StripTags(s))
    decreases |s|
  {
    if s == [] {
    } else if s[0] == '<' && |s| >= 2 && s[1] != '>' && IndexOfChar(s, '>', 1).Some? {
      StripTagsTagFree(s[IndexOfChar(s, '>', 1).value + 1..]);
    } else {
      var rest := StripTags(s[1..]);
      StripTagsTagFree(s[1..]);
      assert StripTags(s) == [s[0]] + rest;
      if s[0] == '<' && |s| >= 2 && s[1] == '>' {
        StripTagsHead(s[1..]);
      } else if s[0] == '<' && |s| >= 2 {
        IndexOfCharFirst(s, '>', 1);
        forall j | 0 <= j < |rest| ensures rest[j] != '>' {
          assert rest[j] in s[1..];
        }
      }
      TagFreeCons(s[0], rest);
    }
  }

  /** Text without tags is left alone; in particular stripping twice is
      stripping once. */
  lemma {:induction false} StripTagsIdentity(s: string)
    requires TagFree(s)
    ensures StripTags(s) == s
    decreases |s|
  {
    if s != [] {
      assert ClosedAt(s, 0);
      var t := s[1..];
      forall i | 0 <= i < |t| ensures ClosedAt(t, i) {
        assert ClosedAt(s, i + 1);
        assert t[i] == s[i + 1];
        assert i + 1 < |t| ==> t[i + 1] == s[i + 2];
        assert forall j :: i < j < |t| ==> t[j] == s[j + 1];
      }
      StripTagsIdentity(t);
    }
  }

  /** A contiguous part of tag-free text is tag-free. */
  lemma TagFreeSlice(s: string, a: nat, b: nat)
    requires a <= b <= |s| && TagFree(s)
    ensures TagFree(s[a..b])
  {
    var t := s[a..b];
    forall i | 0 <= i < |t| ensures ClosedAt(t, i) {
      assert ClosedAt(s, a + i);
      assert t[i] == s[a + i];
      assert i + 1 < |t| ==> t[i + 1] == s[a + i + 1];
      assert forall j :: i < j < |t| ==> t[j] == s[a + j];
    }
  }

  // ---------------------------------------------------------------------------
  // The entity decoding and the cleaned text of an element

  /** The four entity replacements, in the order the script applies them. */
  function DecodeEntities(s: string): string
  {
    var a := ReplaceAll(s, "&nbsp;", " ");
    var b := ReplaceAll(a, "&amp;", "&");
    var c := ReplaceAll(b, "&lt;", "<");
    ReplaceAll(c, "&gt;", ">")
  }

  /** Text without `&` has no entity: decoding leaves it unchanged. */
  lemma DecodeEntitiesIdentity(s: string)
    requires '&' !in s
    ensures DecodeEntities(s) == s
  {
    AbsentFirstChar(s, "&nbsp;");
    ReplaceAllAbsent(s, "&nbsp;", " ");
    AbsentFirstChar(s, "&amp;");
    ReplaceAllAbsent(s, "&amp;", "&");
    AbsentFirstChar(s, "&lt;");
    ReplaceAllAbsent(s, "&lt;", "<");
    AbsentFirstChar(s, "&gt;");
    ReplaceAllAbsent(s, "&gt;", ">");
  }

  /** The cleaned text of one `<li>` element. */
  function LiText(raw: string): string
  {
    Trim(DecodeEntities(StripTags(raw)))
  }

  // ---------------------------------------------------------------------------
  // text.match(/<a[^>]+href="([^"]+)"[^>]*>([^<]+)<\/a>/)

  /** The two groups of an anchor match: the link and the caption. */
  datatype Anchor = Anchor(url: string, caption: string)

  /** What `([^"]+)` and `([^<]+)` can capture: a non-empty link without `"`
      and a non-empty caption without `<`. */
  predicate WellFormed(a: Anchor)
  {
    a.url != [] && '"' !in a.url && a.caption != [] && '<' !in a.caption
  }

  /** The part of the anchor expression after `<a[^>]+`, tried with `href="` at
      `h`. Each later run (`[^"]+`, `[^>]*`, `[^<]+`) can only stop at the first
      `"`, `>` or `<` respectively, so nothing else is worth backtracking into. */
  function HrefRest(s: string, h: nat): (r: Option<Anchor>)
    requires h <= |s|
    ensures r.Some? ==> WellFormed(r.value)
  {
    if !OccursAt(s, "href=\"", h) then None
    else match IndexOfChar(s, '"', h + 6)
      case None => None
      case Some(q) =>
        IndexOfCharFirst(s, '"', h + 6);
        if q == h + 6 then None
        else match IndexOfChar(s, '>', q + 1)
          case None => None
          case Some(g) =>
            match IndexOfChar(s, '<', g + 1)
            case None => None
            case Some(m) =>
              IndexOfCharFirst(s, '<', g + 1);
              if m == g + 1 || !OccursAt(s, "</a>", m) then None
              else Some(Anchor(s[h + 6..q], s[g + 1..m]))
  }

  /** A link read at `h` sits in the text as `href="` link `"`, followed later by
      a `>`, the caption and `</a>`. */
  lemma HrefRestShape(s: string, h: nat)
    requires h <= |s| && HrefRest(s, h).Some?
    ensures OccursAt(s, "href=\"" + HrefRest(s, h).value.url + "\"", h)
    ensures exists g :: h + 7 + |HrefRest(s, h).value.url| <= g < |s| && s[g] == '>'
                        && OccursAt(s, HrefRest(s, h).value.caption + "</a>", g + 1)
  {
    var q := IndexOfChar(s, '"', h + 6).value;
    var g := IndexOfChar(s, '>', q + 1).value;
    var m := IndexOfChar(s, '<', g + 1).value;
    assert HrefRest(s, h).value == Anchor(s[h + 6..q], s[g + 1..m]);
    AnchorParts(s, h, q, g, m);
    assert h + 7 + |s[h + 6..q]| <= g < |s| && s[g] == '>';
  }

  /** The text between `href="` at `h` and the `"` at `q` is a link written out
      in full, and the text between the `>` at `g` and the `</a>` at `m` is a
      caption followed by its closing tag. */
  lemma AnchorParts(s: string, h: nat, q: nat, g: nat, m: nat)
    requires h + 6 <= q < g < m && m + 4 <= |s|
    requires OccursAt(s, "href=\"", h) && s[q] == '"' && s[g] == '>' && OccursAt(s, "</a>", m)
    ensures OccursAt(s, "href=\"" + s[h + 6..q] + "\"", h)
    ensures OccursAt(s, s[g + 1..m] + "</a>", g + 1)
  {
    assert OccursAt(s, "\"", q) by {
      assert s[q..q + 1] == [s[q]];
    }
    OccursConcat(s, "href=\"", s[h + 6..q], h);
    OccursConcat(s, "href=\"" + s[h + 6..q], "\"", h);
    OccursConcat(s, s[g + 1..m], "</a>", g + 1);
  }

  /** Without a `>` from `h` on, no link can be read there. */
  lemma HrefRestNeedsGt(s: string, h: nat)
    requires h <= |s| && NoGtAfter(s, h)
    ensures HrefRest(s, h).None?
  {
  }

  /** A link needs the `"` of `href="` and a closing `"` after it. */
  lemma HrefRestNeedsTwoQuotes(s: string, h: nat)
    requires h <= |s|
    requires h + 5 < |s| && s[h + 5] == '"' ==> forall q :: h + 6 <= q < |s| ==> s[q] != '"'
    ensures HrefRest(s, h).None?
  {
    if OccursAt(s, "href=\"", h) {
      assert s[h + 5] == s[h..h + 6][5];
    }
  }

  /** `[^>]+` is greedy: the engine tries `href="` at `h`, then at `h - 1`, and
      so on down to the first place after `<a` it can be. */
  function TryHref(s: string, p: nat, h: nat): (r: Option<Anchor>)
    requires h <= |s|
    ensures r.Some? ==> WellFormed(r.value)
    decreases h
  {
    if h < p + 3 then None
    else match HrefRest(s, h)
      case Some(a) => Some(a)
      case None => TryHref(s, p, h - 1)
  }

  /** No link can be read with `href="` at `k`. */
  predicate NoHrefAt(s: string, k: nat)
    requires k <= |s|
  {
    HrefRest(s, k).None?
  }

  /** The link attempts down from `h` all fail: the engine falls back to `lo`. */
  lemma {:induction false} TryHrefSkips(s: string, p: nat, h: nat, lo: nat)
    requires p + 2 <= lo <= h <= |s|
    requires forall k :: lo < k <= h ==> NoHrefAt(s, k)
    ensures TryHref(s, p, h) == TryHref(s, p, lo)
    decreases h
  {
    if h > lo {
      TryHrefSkips(s, p, h - 1, lo);
      TryHrefStep(s, p, h);
    }
  }

  /** A failed link attempt at `h` hands over to `h - 1`. */
  lemma TryHrefStep(s: string, p: nat, h: nat)
    requires p + 3 <= h <= |s| && NoHrefAt(s, h)
    ensures TryHref(s, p, h) == TryHref(s, p, h - 1)
  {
  }

  /** The attempt of the anchor expression at `p`: `[^>]+` can reach no further
      than the first `>` after `<a`. */
  function AnchorAt(s: string, p: nat): (r: Option<Anchor>)
    requires p <= |s|
    ensures r.Some? ==> OccursAt(s, "<a", p) && WellFormed(r.value)
  {
    if !OccursAt(s, "<a", p) then None
    else
      var lim := match IndexOfChar(s, '>', p + 2) case Some(g) => g case None => |s|;
      TryHref(s, p, lim)
  }

  /** `text.match(...)`: the leftmost anchor match at or after `from`. */
  function FindAnchor(s: string, from: nat): (r: Option<Anchor>)
    requires from <= |s|
    ensures r.Some? ==> WellFormed(r.value)
    decreases |s| - from
  {
    match AnchorAt(s, from)
    case Some(a) => Some(a)
    case None => if from == |s| then None else FindAnchor(s, from + 1)
  }

  /** With no match at any position there is no match. */
  lemma {:induction false} FindAnchorNone(s: string, from: nat)
    requires from <= |s| && forall p :: from <= p <= |s| ==> AnchorAt(s, p).None?
    ensures FindAnchor(s, from).None?
    decreases |s| - from
  {
    if from < |s| {
      FindAnchorNone(s, from + 1);
    }
  }

  /** The markup the expression is written for. */
  function AnchorMarkup(url: string, caption: string): string
  {
    "<a href=\"" + url + "\">" + caption + "</a>"
  }

  /** The only quotes of the markup are the two around the link. */
  lemma MarkupQuotes(url: string, caption: string)
    requires '"' !in url && '"' !in caption
    ensures forall k :: 0 <= k < |AnchorMarkup(url, caption)| && AnchorMarkup(url, caption)[k] == '"' ==>
              k == 8 || k == 9 + |url|
  {
    var s := AnchorMarkup(url, caption);
    var n := |url|;
    var C := |caption|;
    forall k | 9 <= k < 9 + n ensures s[k] != '"' {
      assert s[k] == url[k - 9];
    }
    forall k | 11 + n <= k < 11 + n + C ensures s[k] != '"' {
      assert s[k] == caption[k - 11 - n];
    }
    assert s[..9] == "<a href=\"";
    assert forall k :: 0 <= k < 8 ==> s[k] == s[..9][k];
    assert s[10 + n] == '>';
    assert s[11 + n + C..] == "</a>";
    assert forall k :: 11 + n + C <= k < |s| ==> s[k] == s[11 + n + C..][k - 11 - n - C];
  }

  /** `[^>]+` can reach as far as the `>` after the link's closing quote. */
  lemma MarkupFirstGt(url: string, caption: string)
    requires '>' !in url
    ensures IndexOfChar(AnchorMarkup(url, caption), '>', 2) == Some(10 + |url|)
  {
    var s := AnchorMarkup(url, caption);
    var n := |url|;
    assert s[10 + n] == '>';
    assert forall k :: 2 <= k < 9 ==> s[k] != '>';
    forall k | 9 <= k < 9 + n ensures s[k] != '>' {
      assert s[k] == url[k - 9];
    }
    assert s[9 + n] == '"';
    IndexOfCharAt(s, '>', 2, 10 + n);
  }

  /** Where the pieces of the markup sit. */
  lemma MarkupLayout(url: string, caption: string)
    ensures var s, n, C := AnchorMarkup(url, caption), |url|, |caption|;
      && |s| == 15 + n + C
      && s[3..9] == "href=\""
      && (forall k :: 9 <= k < 9 + n ==> s[k] == url[k - 9])
      && s[9 + n] == '"' && s[10 + n] == '>'
      && (forall k :: 11 + n <= k < 11 + n + C ==> s[k] == caption[k - 11 - n])
      && s[11 + n + C..] == "</a>"
  {
    var s, n, C := AnchorMarkup(url, caption), |url|, |caption|;
    var head := "<a href=\"" + url;
    var mid := head + "\">" + caption;
    assert s == mid + "</a>";
    assert s[..|mid|] == mid;
    assert mid[..|head|] == head;
    assert head[..9] == "<a href=\"";
    assert s[3..9] == head[..9][3..9];
    forall k | 9 <= k < 9 + n ensures s[k] == url[k - 9] {
      assert s[k] == head[k];
    }
    forall k | 11 + n <= k < 11 + n + C ensures s[k] == caption[k - 11 - n] {
      assert s[k] == mid[k];
    }
  }

  /** The closing quote of the link is the first quote after `href="`. */
  lemma MarkupQuoteAt(url: string, caption: string)
    requires '"' !in url
    ensures IndexOfChar(AnchorMarkup(url, caption), '"', 9) == Some(9 + |url|)
  {
    var s, n := AnchorMarkup(url, caption), |url|;
    MarkupLayout(url, caption);
    forall k | 9 <= k < 9 + n ensures s[k] != '"' {
      assert s[k] == url[k - 9];
    }
    IndexOfCharAt(s, '"', 9, 9 + n);
  }

  /** The `<` that follows the caption is the first one after the `>`. */
  lemma MarkupLtAt(url: string, caption: string)
    requires '<' !in caption
    ensures var s, n, C := AnchorMarkup(url, caption), |url|, |caption|;
      IndexOfChar(s, '<', 11 + n) == Some(11 + n + C) && OccursAt(s, "</a>", 11 + n + C)
  {
    var s, n, C := AnchorMarkup(url, caption), |url|, |caption|;
    MarkupLayout(url, caption);
    assert s[11 + n + C] == s[11 + n + C..][0];
    forall k | 11 + n <= k < 11 + n + C ensures s[k] != '<' {
      assert s[k] == caption[k - 11 - n];
    }
    IndexOfCharAt(s, '<', 11 + n, 11 + n + C);
  }

  /** The delimiters the anchor expression stops at, found in the markup. */
  lemma MarkupDelimiters(url: string, caption: string)
    requires '"' !in url && '<' !in caption
    ensures var s, n, C := AnchorMarkup(url, caption), |url|, |caption|;
      && OccursAt(s, "href=\"", 3) && s[9..9 + n] == url && s[11 + n..11 + n + C] == caption
      && IndexOfChar(s, '"', 9) == Some(9 + n) && IndexOfChar(s, '>', 10 + n) == Some(10 + n)
      && IndexOfChar(s, '<', 11 + n) == Some(11 + n + C) && OccursAt(s, "</a>", 11 + n + C)
  {
    var s, n, C := AnchorMarkup(url, caption), |url|, |caption|;
    MarkupLayout(url, caption);
    MarkupQuoteAt(url, caption);
    MarkupLtAt(url, caption);
    IndexOfCharAt(s, '>', 10 + n, 10 + n);
  }

  /** With `href="` right after `<a `, the rest of the expression reads the
      link and the caption. */
  lemma MarkupHrefRest(url: string, caption: string)
    requires url != [] && '"' !in url
    requires caption != [] && '<' !in caption
    ensures HrefRest(AnchorMarkup(url, caption), 3) == Some(Anchor(url, caption))
  {
    MarkupDelimiters(url, caption);
  }

  /** The expression reads back the link and the caption of well-formed markup. */
  lemma AnchorRoundTrip(url: string, caption: string)
    requires url != [] && '"' !in url && '>' !in url
    requires caption != [] && '<' !in caption && '"' !in caption
    ensures FindAnchor(AnchorMarkup(url, caption), 0) == Some(Anchor(url, caption))
  {
    var s := AnchorMarkup(url, caption);
    var n := |url|;
    MarkupQuotes(url, caption);
    MarkupFirstGt(url, caption);
    forall k | 3 < k <= 10 + n ensures NoHrefAt(s, k) {
      HrefRestNeedsTwoQuotes(s, k);
    }
    TryHrefSkips(s, 0, 10 + n, 3);
    MarkupHrefRest(url, caption);
    assert s[..2] == "<a";
    assert AnchorAt(s, 0) == Some(Anchor(url, caption));
  }

  /** In tag-free text an `<a` is never followed by a `>`, so the anchor
      expression cannot match at it. */
  lemma TagFreeNoAnchorAt(r: string, p: nat)
    requires p <= |r| && TagFree(r)
    ensures AnchorAt(r, p).None?
  {
    if OccursAt(r, "<a", p) {
      assert r[p] == r[p..p + 2][0] == '<';
      assert r[p + 1] == r[p..p + 2][1] == 'a';
      assert ClosedAt(r, p);
      forall k | p + 2 < k <= |r| ensures HrefRest(r, k).None? {
        HrefRestNeedsGt(r, k);
      }
      var lim := match IndexOfChar(r, '>', p + 2) case Some(g) => g case None => |r|;
      TryHrefSkips(r, p, lim, p + 2);
    }
  }

  /** The cleaned text of an element without any `&` has no tag left. */
  lemma LiTextTagFree(raw: string)
    requires '&' !in raw
    ensures TagFree(LiText(raw))
  {
    var t := StripTags(raw);
    StripTagsTagFree(raw);
    assert '&' !in t;
    DecodeEntitiesIdentity(t);
    assert LiText(raw) == Trim(t);
    TrimTagFree(t);
  }

  /** Trimming keeps text tag-free. */
  lemma TrimTagFree(t: string)
    requires TagFree(t)
    ensures TagFree(Trim(t))
  {
    var r := Trim(t);
    var i :| TrimmedAt(t, r, i);
    TagFreeSlice(t, i, i + |r|);
  }

  /** Tag stripping removes every real `<a ...>` element, so in an element
      without any entity the anchor expression never matches: only markup
      escaped as `&lt;a ...&gt;` can reach it. */
  lemma AnchorNeedsEscapedMarkup(raw: string)
    requires '&' !in raw
    ensures FindAnchor(LiText(raw), 0).None?
  {
    var r := LiText(raw);
    LiTextTagFree(raw);
    forall p | 0 <= p <= |r| ensures AnchorAt(r, p).None? {
      TagFreeNoAnchorAt(r, p);
    }
    FindAnchorNone(r, 0);
  }

  // ---------------------------------------------------------------------------
  // From element text to news item

  /** The item an element's cleaned text yields: from the anchor when there is
      one, otherwise from the text itself when it is longer than ten characters. */
  function ItemOf(text: string): Option<NewsItem>
  {
    match FindAnchor(text, 0)
    case Some(a) => Some(NewsItem(Trim(a.caption), a.url, text))
    case None => if |text| > 10 then Some(NewsItem(Take(text, 50), "", text)) else None
  }

  /** Without a link, an item is made exactly when the text is longer than ten
      characters; it has no URL, is titled by the first fifty characters of
      the text and summarised by the whole text. */
  lemma ItemOfPlainText(text: string)
    requires FindAnchor(text, 0).None?
    ensures ItemOf(text).Some? <==> |text| > 10
    ensures ItemOf(text).Some? ==>
              && ItemOf(text).value.url == [] && ItemOf(text).value.summary == text
              && ItemOf(text).value.title <= text
              && |ItemOf(text).value.title| == if |text| <= 50 then |text| else 50
  {
  }

  /** An item with a link carries the anchor's link, which has no quote, and
      the whole text as its summary. */
  lemma ItemOfAnchor(text: string)
    requires FindAnchor(text, 0).Some?
    ensures ItemOf(text).Some? && ItemOf(text).value.summary == text
    ensures ItemOf(text).value.url == FindAnchor(text, 0).value.url != []
    ensures ItemOf(text).value.title == Trim(FindAnchor(text, 0).value.caption)
  {
  }

  /** The item the loop pushes for one element's raw contents, if any. */
  function ElementItem(raw: string): Option<NewsItem>
  {
    ItemOf(LiText(raw))
  }

  /** The titles the final filter accepts: a non-empty title longer than five
      characters that names neither the truncation notice nor the operations
      notice. */
  predicate Keep(item: NewsItem)
  {
    item.title != [] && |item.title| > 5
    && !Contains(item.title, "剩余内容已省略") && !Contains(item.title, "关于运营调整")
  }

  /** `items.filter(Keep)`: every copy of a kept item stays, every copy of a
      rejected one goes. */
  function KeepItems(items: seq<NewsItem>): (r: seq<NewsItem>)
    ensures IsSubsequence(r, items)
    ensures forall x :: x in r <==> x in items && Keep(x)
    ensures forall y :: multiset(r)[y] == if Keep(y) then multiset(items)[y] else 0
  {
    if items == [] then []
    else
      assert items == [items[0]] + items[1..];
      if Keep(items[0]) then [items[0]] + KeepItems(items[1..])
      else KeepItems(items[1..])
  }

  /** What `extractNewsItems` returns for an entry's HTML. */
  function NewsItemsOf(content: string): seq<NewsItem>
  {
    var cleaned := BlankLines(content, SpamKeywords);
    KeepItems(Gather(ElementItem, Captures(LiPattern(), cleaned, 0)))
  }

  /** `extractNewsItems`: the spam pass, the `exec` loop over the `<li>`
      elements, then the title filter. */
  method ExtractNewsItems(content: string) returns (items: seq<NewsItem>)
    ensures items == NewsItemsOf(content)
  {
    var cleaned := RemoveSpam(content);
    var candidates := CollectMatches(LiPattern(), cleaned, ElementItem);
    items := KeepItems(candidates);
  }

  // ---------------------------------------------------------------------------
  // What the extracted list guarantees

  /** Every item returned has a title the filter accepts, and the items keep the
      order of the elements they come from. */
  lemma NewsItemsFiltered(content: string)
    ensures forall x :: x in NewsItemsOf(content) ==> Keep(x) && |x.title| > 5
    ensures IsSubsequence(NewsItemsOf(content), Gather(ElementItem, Captures(LiPattern(), BlankLines(content, SpamKeywords), 0)))
  {
  }

  /** A keyword absent from `s` is absent from every contiguous part of it. */
  lemma AbsentFromSlice(s: string, a: nat, b: nat, kw: string)
    requires a <= b <= |s| && !Contains(s, kw)
    ensures !Contains(s[a..b], kw)
  {
    forall k | 0 <= k <= b - a ensures !OccursAt(s[a..b], kw, k) {
      if k + |kw| <= b - a {
        var x := s[a..b][k..k + |kw|];
        var y := s[a + k..a + k + |kw|];
        forall t | 0 <= t < |kw| ensures x[t] == y[t] {
          assert x[t] == s[a + k + t];
        }
        assert x == y;
        assert !OccursAt(s, kw, a + k);
      }
    }
  }

  /** Every element the loop reads comes from the spam-free content: its raw text
      holds none of the promotional keywords. */
  lemma ElementsSpamFree(content: string, i: nat, j: nat)
    requires i < |Captures(LiPattern(), BlankLines(content, SpamKeywords), 0)| && j < |SpamKeywords|
    ensures !Contains(Captures(LiPattern(), BlankLines(content, SpamKeywords), 0)[i], SpamKeywords[j])
  {
    var cleaned := BlankLines(content, SpamKeywords);
    SpamKeywordsWellFormed();
    BlankLinesSpamFree(content, SpamKeywords, j);
    CapturesAreDelimited(LiPattern(), cleaned, 0, i);
    var sp: Span :| 0 <= sp.start && IsMatch(LiPattern(), cleaned, sp.start, sp)
                    && Captures(LiPattern(), cleaned, 0)[i] == Group(cleaned, sp);
    AbsentFromSlice(cleaned, sp.innerStart, sp.innerEnd, SpamKeywords[j]);
  }
}
