/** The text-message script: `extractLatestItem` cuts the first `<item>` out
    of the feed and cleans its title and content, and `buildWeChatText` frames
    the model's news text with a dated header and a fixed footer. */
module RssText {
  import opened Wrappers
  import opened Text
  import opened Scan
  import opened Dates

  /** What `extractLatestItem` returns: the cleaned title and content, and the
      whole `<item>…</item>` markup. */
  datatype LatestItem = LatestItem(title: string, content: string, raw: string)

  const NoItem: string := "未找到 <item> 标签"
  const UnknownTitle: string := "未知标题"

  /** `/<item>[\s\S]*?<\/item>/i` */
  function FirstItemPattern(): Pattern
  {
    Delimited("<item>", false, "</item>", false, true)
  }

  /** `/<title>([\s\S]*?)<\/title>/i` */
  function TitlePattern(): Pattern
  {
    Delimited("<title>", false, "</title>", false, true)
  }

  /** `/<content:encoded>([\s\S]*?)<\/content:encoded>/i` */
  function EncodedPattern(): Pattern
  {
    Delimited("<content:encoded>", false, "</content:encoded>", false, true)
  }

  /** `/<description>([\s\S]*?)<\/description>/i` */
  function DescriptionPattern(): Pattern
  {
    Delimited("<description>", false, "</description>", false, true)
  }

  /** Remove every `<![CDATA[`, then every `]]>`. */
  function StripCData(s: string): string
  {
    ReplaceAll(ReplaceAll(s, "<![CDATA[", []), "]]>", [])
  }

  /** Decode `&lt;`, `&gt;`, `&amp;`, `&quot;` and `&#39;`, one entity at a
      time over the whole text, in that order. */
  function DecodeText(s: string): string
  {
    var lt := ReplaceAll(s, "&lt;", "<");
    var gt := ReplaceAll(lt, "&gt;", ">");
    var amp := ReplaceAll(gt, "&amp;", "&");
    var quot := ReplaceAll(amp, "&quot;", "\"");
    ReplaceAll(quot, "&#39;", "'")
  }

  /** The cleaning applied to both the title and the content. */
  function Clean(s: string): string
  {
    DecodeText(StripCData(s))
  }

  /** The group of the first content element: `content:encoded`, or else
      `description`. */
  function ContentGroup(raw: string): Option<string>
  {
    match FirstGroup(EncodedPattern(), raw)
    case Some(c) => Some(c)
    case None => FirstGroup(DescriptionPattern(), raw)
  }

  /** `extractLatestItem(rssText)`. */
  function ExtractLatestItem(rss: string): Result<LatestItem, string>
  {
    match Find(FirstItemPattern(), rss, 0)
    case None => Failure(NoItem)
    case Some(sp) =>
      var raw := Whole(rss, sp);
      var title := match FirstGroup(TitlePattern(), raw) case Some(t) => Trim(t) case None => UnknownTitle;
      var content := match ContentGroup(raw) case Some(c) => c case None => [];
      Success(LatestItem(Clean(title), Clean(content), raw))
  }

  /** Text with no `&` and no CDATA marker comes through cleaning unchanged. */
  lemma CleanIdentity(s: string)
    requires '&' !in s && !Contains(s, "<![CDATA[") && !Contains(s, "]]>")
    ensures Clean(s) == s
  {
    ReplaceAllAbsent(s, "<![CDATA[", []);
    ReplaceAllAbsent(s, "]]>", []);
    AbsentFirstChar(s, "&lt;");
    ReplaceAllAbsent(s, "&lt;", "<");
    AbsentFirstChar(s, "&gt;");
    ReplaceAllAbsent(s, "&gt;", ">");
    AbsentFirstChar(s, "&amp;");
    ReplaceAllAbsent(s, "&amp;", "&");
    AbsentFirstChar(s, "&quot;");
    ReplaceAllAbsent(s, "&quot;", "\"");
    AbsentFirstChar(s, "&#39;");
    ReplaceAllAbsent(s, "&#39;", "'");
  }

  /** A feed without a (case-insensitive) `<item>…</item>` fails; otherwise the
      item is the leftmost one, and its markup is kept whole. */
  lemma LatestItemShape(rss: string)
    ensures ExtractLatestItem(rss).Failure? <==> forall q :: 0 <= q <= |rss| ==> MatchAt(FirstItemPattern(), rss, q).None?
    ensures ExtractLatestItem(rss).Failure? ==> ExtractLatestItem(rss).error == NoItem
    ensures ExtractLatestItem(rss).Success? ==>
              exists sp: Span :: IsMatch(FirstItemPattern(), rss, sp.start, sp)
                && (forall q :: 0 <= q < sp.start ==> MatchAt(FirstItemPattern(), rss, q).None?)
                && ExtractLatestItem(rss).value.raw == rss[sp.start..sp.end]
  {
    FindIsLeftmost(FirstItemPattern(), rss, 0);
    match Find(FirstItemPattern(), rss, 0)
    case None =>
      assert ExtractLatestItem(rss) == Failure(NoItem);
    case Some(sp) =>
      assert ExtractLatestItem(rss).Success? && ExtractLatestItem(rss).value.raw == rss[sp.start..sp.end];
      assert IsMatch(FirstItemPattern(), rss, sp.start, sp);
      assert MatchAt(FirstItemPattern(), rss, sp.start).Some?;
  }

  /** An item without a title is titled `未知标题`. */
  lemma MissingTitle(rss: string)
    requires ExtractLatestItem(rss).Success?
    requires FirstGroup(TitlePattern(), ExtractLatestItem(rss).value.raw).None?
    ensures ExtractLatestItem(rss).value.title == UnknownTitle
  {
    UnknownTitleClean();
  }

  lemma UnknownTitleClean()
    ensures Clean(UnknownTitle) == UnknownTitle
  {
    assert '&' !in UnknownTitle;
    AbsentFirstChar(UnknownTitle, "<![CDATA[");
    AbsentFirstChar(UnknownTitle, "]]>");
    CleanIdentity(UnknownTitle);
  }

  /** The title is trimmed before it is cleaned, so when its text carries no
      entity and no marker the result is the trimmed title itself. */
  lemma PresentTitle(rss: string)
    requires ExtractLatestItem(rss).Success?
    requires FirstGroup(TitlePattern(), ExtractLatestItem(rss).value.raw).Some?
    ensures var t := FirstGroup(TitlePattern(), ExtractLatestItem(rss).value.raw).value;
      && ExtractLatestItem(rss).value.title == Clean(Trim(t))
      && ('&' !in Trim(t) && !Contains(Trim(t), "<![CDATA[") && !Contains(Trim(t), "]]>")
          ==> ExtractLatestItem(rss).value.title == Trim(t))
  {
    var t := FirstGroup(TitlePattern(), ExtractLatestItem(rss).value.raw).value;
    if '&' !in Trim(t) && !Contains(Trim(t), "<![CDATA[") && !Contains(Trim(t), "]]>") {
      CleanIdentity(Trim(t));
    }
  }

  /** `content:encoded` wins over `description`; with neither, the content is
      empty and no error is raised. */
  lemma ContentPrecedence(rss: string)
    requires ExtractLatestItem(rss).Success?
    ensures var it := ExtractLatestItem(rss).value;
      && (FirstGroup(EncodedPattern(), it.raw).Some? ==> it.content == Clean(FirstGroup(EncodedPattern(), it.raw).value))
      && (FirstGroup(EncodedPattern(), it.raw).None? && FirstGroup(DescriptionPattern(), it.raw).Some? ==>
            it.content == Clean(FirstGroup(DescriptionPattern(), it.raw).value))
      && (FirstGroup(EncodedPattern(), it.raw).None? && FirstGroup(DescriptionPattern(), it.raw).None? ==>
            it.content == [])
  {
    var it := ExtractLatestItem(rss).value;
    if ContentGroup(it.raw).None? {
      assert '&' !in [];
      AbsentFirstChar([], "<![CDATA[");
      AbsentFirstChar([], "]]>");
      CleanIdentity([]);
    }
  }

  // ---------------------------------------------------------------------------
  // Marker removal

  /** A CDATA section around text holding neither marker is unwrapped to that text. */
  lemma StripCDataUnwraps(x: string)
    requires !Contains(x, "<![CDATA[") && !Contains(x, "]]>")
    ensures StripCData("<![CDATA[" + x + "]]>") == x
  {
    var open, close := "<![CDATA[", "]]>";
    var rest := x + close;
    assert open + x + close == open + rest;
    forall k | 0 <= k <= |rest| ensures !OccursAt(rest, open, k) {
      if k + |open| <= |rest| {
        if k + |open| <= |x| {
          assert rest[k..k + |open|] == x[k..k + |open|];
          assert !OccursAt(x, open, k);
        } else {
          // the occurrence would end inside `]]>`, whose characters are not the
          // last ones of `<![CDATA[`
          var e := k + |open| - 1;
          assert rest[e] == close[e - |x|] != '[';
          assert rest[k..k + |open|][|open| - 1] == rest[e];
          assert open[|open| - 1] == '[';
        }
      }
    }
    ReplaceAllLeading(rest, open);
    forall k | 0 <= k < |x| ensures !OccursAt(x + close, close, k) {
      if k + |close| <= |x| {
        assert (x + close)[k..k + |close|] == x[k..k + |close|];
        assert !OccursAt(x, close, k);
      } else if k + |close| <= |x + close| {
        var e := k + 2;
        assert (x + close)[e] == close[e - |x|] != '>';
        assert (x + close)[k..k + |close|][2] == (x + close)[e];
        assert close[2] == '>';
      }
    }
    ReplaceAllAfterPrefix(x, close, close, []);
    ReplaceAllLeading([], close);
    AbsentFirstChar([], close);
    assert x + [] == x;
  }

  /** Entities are decoded in sequence over the whole text: the ampersand that
      decoding `&amp;` uncovers is not looked at again for `&lt;` and `&gt;`,
      which come first, but it is for `&quot;` and `&#39;`, which come later. */
  lemma EscapedAmpersand(x: string)
    requires '&' !in x
    ensures DecodeText("&amp;" + x) == ReplaceAll(ReplaceAll("&" + x, "&quot;", "\""), "&#39;", "'")
  {
    var s := "&amp;" + x;
    assert s[1] == 'a' && s[1..] == "amp;" + x;
    assert '&' !in s[1..];
    NoEntityAt(s, "&lt;");
    NoEntityAt(s, "&gt;");
    ReplaceAllAbsent(s, "&lt;", "<");
    ReplaceAllAbsent(s, "&gt;", ">");
    AbsentFirstChar(x, "&amp;");
    ReplaceAllAfterPrefixRep("&amp;", x, "&");
  }

  /** `&amp;lt;` becomes `&lt;`, not `<`. */
  lemma DecodeAmpLt()
    ensures DecodeText("&amp;lt;") == "&lt;"
  {
    EscapedAmpersand("lt;");
    assert "&amp;" + "lt;" == "&amp;lt;";
    var t := "&" + "lt;";
    assert t[1] == 'l' && '&' !in t[1..];
    NoEntityAt(t, "&quot;");
    NoEntityAt(t, "&#39;");
    ReplaceAllAbsent(t, "&quot;", "\"");
    ReplaceAllAbsent(t, "&#39;", "'");
  }

  /** `&amp;quot;` is decoded twice and becomes `"`. */
  lemma DecodeAmpQuot()
    ensures DecodeText("&amp;quot;") == "\""
  {
    EscapedAmpersand("quot;");
    assert "&amp;" + "quot;" == "&amp;quot;";
    assert "&" + "quot;" == "&quot;" + [];
    AbsentFirstChar([], "&quot;");
    ReplaceAllAfterPrefixRep("&quot;", [], "\"");
    assert "\"" + [] == "\"";
    AbsentFirstChar("\"", "&#39;");
    ReplaceAllAbsent("\"", "&#39;", "'");
  }

  /** A text that contains `&` only at its start holds an entity only if the
      entity is a prefix of it. */
  lemma NoEntityAt(s: string, e: string)
    requires e != [] && e[0] == '&' && s != [] && s[0] == '&' && '&' !in s[1..]
    requires !(e <= s)
    ensures !Contains(s, e)
  {
    forall k | 0 <= k <= |s| ensures !OccursAt(s, e, k) {
      if k > 0 && k + |e| <= |s| {
        assert s[k..k + |e|][0] == s[k] == s[1..][k - 1];
      } else if k == 0 && |e| <= |s| {
        assert !(s[..|e|] == e);
      }
    }
  }

  /** Replacing at the front: `pat + x` with no occurrence in `x` becomes `rep + x`. */
  lemma ReplaceAllAfterPrefixRep(pat: string, x: string, rep: string)
    requires pat != [] && !Contains(x, pat)
    ensures ReplaceAll(pat + x, pat, rep) == rep + x
  {
    assert pat <= pat + x;
    assert (pat + x)[|pat|..] == x;
    ReplaceAllAbsent(x, pat, rep);
  }

  // ---------------------------------------------------------------------------
  // buildWeChatText

  const Subtitle: string := "同济院每日AI行业动态精选"
  const Footer: string := "\n\n如有意见请@杜明修改\n\n查看全部：https://github.com/dumeym/AI-insight-daily-dm"

  /** `buildWeChatText(newsContent, rssTitle)` with `today` the clock's date. */
  function WeChatText(newsContent: string, rssTitle: string, today: Date): string
    requires ValidDate(today)
  {
    HeaderLine(DateFromTitle(rssTitle, today)) + "\n" + Subtitle + "\n\n" + newsContent + Footer
  }

  /** The news text is framed, not altered: the message is the header line, the
      subtitle line and a blank line, then the news text verbatim, then the
      footer, so cutting the fixed frame off gives the news text back. */
  lemma WeChatTextFrame(newsContent: string, rssTitle: string, today: Date)
    requires ValidDate(today)
    ensures var text := WeChatText(newsContent, rssTitle, today);
      var head := HeaderLine(DateFromTitle(rssTitle, today)) + "\n" + Subtitle + "\n\n";
      && head <= text
      && text[|head|..|text| - |Footer|] == newsContent
      && text[|text| - |Footer|..] == Footer
  {
    var head := HeaderLine(DateFromTitle(rssTitle, today)) + "\n" + Subtitle + "\n\n";
    var text := WeChatText(newsContent, rssTitle, today);
    assert text == head + newsContent + Footer;
    assert text[..|head|] == head;
    assert text[|head|..|text| - |Footer|] == newsContent;
  }
}
