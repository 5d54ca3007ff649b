/** The RSS card script: `parseRSS` turns the feed into entries,
    `getDailyAIClues` takes the newest entry and its news list,
    `generateDailySummary` asks the model for a summary of the news titles, and
    `buildTemplateCard` lays the result out as a card. */
module RssFeed {
  import opened Wrappers
  import opened Text
  import opened Scan
  import opened NewsItems
  import opened Digest
  import opened Card

  /** One `<item>` of the feed as `parseRSS` records it. */
  datatype Entry = Entry(title: string, content: string, pubDate: string, link: string)

  /** `/<item>([\s\S]*?)<\/item>/g` */
  function ItemPattern(): Pattern
  {
    Delimited("<item>", false, "</item>", false, false)
  }

  /** `/<title><!\[CDATA\[(.*?)\]\]><\/title>/` */
  function TitlePattern(): Pattern
  {
    Delimited("<title><![CDATA[", false, "]]></title>", true, false)
  }

  /** `/<content:encoded><!\[CDATA\[([\s\S]*?)\]\]><\/content:encoded>/` */
  function ContentPattern(): Pattern
  {
    Delimited("<content:encoded><![CDATA[", false, "]]></content:encoded>", false, false)
  }

  /** `/<pubDate>(.*?)<\/pubDate>/` */
  function PubDatePattern(): Pattern
  {
    Delimited("<pubDate>", false, "</pubDate>", true, false)
  }

  /** `/<link>(.*?)<\/link>/` */
  function LinkPattern(): Pattern
  {
    Delimited("<link>", false, "</link>", true, false)
  }

  /** `m ? m[1] : ''` where `m = block.match(pat)`. */
  function Field(pat: Pattern, block: string): string
  {
    match FirstGroup(pat, block)
    case Some(g) => g
    case None => []
  }

  /** A field is empty when its pattern does not occur; otherwise it is group 1
      of the leftmost match, so it never holds its closing delimiter, and for a
      `.*?` pattern it lies on one line. */
  lemma FieldShape(pat: Pattern, block: string)
    ensures Find(pat, block, 0).None? ==> Field(pat, block) == []
    ensures Find(pat, block, 0).Some? ==> IsMatch(pat, block, Find(pat, block, 0).value.start, Find(pat, block, 0).value)
    ensures !pat.ignoreCase ==> !Contains(Field(pat, block), pat.close)
    ensures pat.sameLine ==> forall i :: 0 <= i < |Field(pat, block)| ==> !IsLineTerminator(Field(pat, block)[i])
  {
    match Find(pat, block, 0)
    case None =>
      AbsentFirstChar([], pat.close);
    case Some(sp) =>
      MatchAtIsMatch(pat, block, sp.start);
      GroupShape(pat, block, sp);
  }

  /** A link written as `<link>` + `x` + `</link>`, where `x` is one line holding
      no `</link>`, is read back as `x`. */
  lemma LinkFieldRoundTrip(x: string)
    requires forall j :: 0 <= j < |x| ==> !LitAt(x + "</link>", j, "</link>", false)
    requires forall j :: 0 <= j < |x| ==> !IsLineTerminator(x[j])
    ensures Field(LinkPattern(), "<link>" + x + "</link>") == x
  {
    FirstGroupOfWrapped(LinkPattern(), x);
  }

  /** The entry one `<item>` block yields: none when its content is empty. */
  function EntryOf(block: string): Option<Entry>
  {
    var content := Field(ContentPattern(), block);
    if content == [] then None
    else Some(Entry(Field(TitlePattern(), block), content, Field(PubDatePattern(), block), Field(LinkPattern(), block)))
  }

  /** The entries of the feed, in document order. */
  function EntriesOf(xml: string): seq<Entry>
  {
    Gather(EntryOf, Captures(ItemPattern(), xml, 0))
  }

  /** `parseRSS`: the `exec` loop over the `<item>` blocks, pushing an entry for
      every block with content. */
  method ParseRss(xml: string) returns (items: seq<Entry>)
    ensures items == EntriesOf(xml)
  {
    items := CollectMatches(ItemPattern(), xml, EntryOf);
  }

  /** The raw `<item>` blocks of the feed. */
  function Blocks(xml: string): seq<string>
  {
    Captures(ItemPattern(), xml, 0)
  }

  /** The entries are exactly those of the blocks whose CDATA content is not
      empty: every such block gives one entry made of its four fields, and no
      other entry appears. */
  lemma EntriesExactly(xml: string, e: Entry)
    ensures e in EntriesOf(xml) <==>
              exists i :: 0 <= i < |Blocks(xml)| && Field(ContentPattern(), Blocks(xml)[i]) != []
                && e == Entry(Field(TitlePattern(), Blocks(xml)[i]), Field(ContentPattern(), Blocks(xml)[i]),
                              Field(PubDatePattern(), Blocks(xml)[i]), Field(LinkPattern(), Blocks(xml)[i]))
  {
    GatherMembers(EntryOf, Blocks(xml), e);
  }

  /** Entries keep document order: of two blocks with content, the earlier
      block's entry comes first. */
  lemma EntriesInOrder(xml: string, i: nat, j: nat)
    requires i < j < |Blocks(xml)|
    requires Field(ContentPattern(), Blocks(xml)[i]) != [] && Field(ContentPattern(), Blocks(xml)[j]) != []
    ensures exists a, b :: 0 <= a < b < |EntriesOf(xml)|
              && EntriesOf(xml)[a] == EntryOf(Blocks(xml)[i]).value && EntriesOf(xml)[b] == EntryOf(Blocks(xml)[j]).value
  {
    var blocks := Blocks(xml);
    assert EntryOf(blocks[i]).Some? && EntryOf(blocks[j]).Some?;
    GatherOrder(EntryOf, blocks, i, j);
    var entries := Gather(EntryOf, blocks);
    assert entries == EntriesOf(xml);
    var a, b :| 0 <= a < b < |entries|
                && entries[a] == EntryOf(blocks[i]).value && entries[b] == EntryOf(blocks[j]).value;
    assert EntriesOf(xml)[a] == EntryOf(blocks[i]).value;
  }

  /** When every block has content, no block is dropped. */
  lemma EntriesAllKept(xml: string)
    requires forall i :: 0 <= i < |Blocks(xml)| ==> Field(ContentPattern(), Blocks(xml)[i]) != []
    ensures |EntriesOf(xml)| == |Blocks(xml)|
  {
    GatherTotal(EntryOf, Blocks(xml));
  }

  /** What every parsed entry holds: non-empty content without the closing
      `]]></content:encoded>`; a title, publication date and link that each sit
      on one line and hold no closing delimiter of their own. */
  lemma EntryFields(xml: string, k: nat)
    requires k < |EntriesOf(xml)|
    ensures var e := EntriesOf(xml)[k];
      && e.content != [] && !Contains(e.content, "]]></content:encoded>")
      && !Contains(e.title, "]]></title>") && (forall i :: 0 <= i < |e.title| ==> !IsLineTerminator(e.title[i]))
      && !Contains(e.pubDate, "</pubDate>") && (forall i :: 0 <= i < |e.pubDate| ==> !IsLineTerminator(e.pubDate[i]))
      && !Contains(e.link, "</link>") && (forall i :: 0 <= i < |e.link| ==> !IsLineTerminator(e.link[i]))
  {
    var e := EntriesOf(xml)[k];
    GatherMembers(EntryOf, Blocks(xml), e);
    var i :| 0 <= i < |Blocks(xml)| && EntryOf(Blocks(xml)[i]) == Some(e);
    var b := Blocks(xml)[i];
    FieldShape(ContentPattern(), b);
    FieldShape(TitlePattern(), b);
    FieldShape(PubDatePattern(), b);
    FieldShape(LinkPattern(), b);
  }

  // ---------------------------------------------------------------------------
  // getDailyAIClues

  /** What `getDailyAIClues` returns. */
  datatype DailyData = DailyData(date: string, rssTitle: string, link: string, sources: seq<NewsItem>)

  /** The completed HTTP response for the feed: `response.ok`, its status and body. */
  datatype Response = Response(ok: bool, status: nat, body: string)

  const NoEntries: string := "RSS 中没有找到任何条目"

  /** At most this many news items go into the daily data. */
  const MaxSources: nat := 10

  function FetchFailed(status: nat): string
  {
    "RSS 请求失败: " + NatToString(status)
  }

  /** The outcome of `getDailyAIClues` for a feed response; `today` stands for
      `new Date().toISOString().split('T')[0]`. */
  function DailyCluesOf(response: Response, today: string): Result<DailyData, string>
  {
    if !response.ok then Failure(FetchFailed(response.status))
    else
      var entries := EntriesOf(response.body);
      if entries == [] then Failure(NoEntries)
      else
        var latest := entries[0];
        Success(DailyData(today, latest.title, latest.link, Take(NewsItemsOf(latest.content), MaxSources)))
  }

  /** `getDailyAIClues`: parse the feed, take its first entry and extract that
      entry's news items. */
  method GetDailyAIClues(response: Response, today: string) returns (r: Result<DailyData, string>)
    ensures r == DailyCluesOf(response, today)
  {
    if !response.ok {
      return Failure(FetchFailed(response.status));
    }
    var items := ParseRss(response.body);
    if |items| == 0 {
      return Failure(NoEntries);
    }
    var latest := items[0];
    var newsItems := ExtractNewsItems(latest.content);
    r := Success(DailyData(today, latest.title, latest.link, Take(newsItems, MaxSources)));
  }

  /** The daily data fails exactly when the response is not OK or the feed has
      no entry with content; otherwise it describes the first entry and its
      sources are the first ten (at most) of that entry's news items, each with
      a title the filter accepts. */
  lemma DailyCluesShape(response: Response, today: string)
    ensures DailyCluesOf(response, today).Failure? <==> !response.ok || EntriesOf(response.body) == []
    ensures !response.ok ==> DailyCluesOf(response, today) == Failure(FetchFailed(response.status))
    ensures DailyCluesOf(response, today).Success? ==>
              var d := DailyCluesOf(response, today).value;
              var latest := EntriesOf(response.body)[0];
              && d.date == today && d.rssTitle == latest.title && d.link == latest.link
              && d.sources <= NewsItemsOf(latest.content)
              && |d.sources| == (if |NewsItemsOf(latest.content)| < MaxSources then |NewsItemsOf(latest.content)| else MaxSources)
              && forall x :: x in d.sources ==> Keep(x)
  {
    if response.ok && EntriesOf(response.body) != [] {
      NewsItemsFiltered(EntriesOf(response.body)[0].content);
    }
  }

  // ---------------------------------------------------------------------------
  // generateDailySummary

  /** `${i + 1}. ${s.title}` */
  function NumberedTitle(i: nat, title: string): string
  {
    NatToString(i + 1) + ". " + title
  }

  function NumberedTitles(sources: seq<NewsItem>): seq<string>
  {
    seq(|sources|, i requires 0 <= i < |sources| => NumberedTitle(i, sources[i].title))
  }

  /** The user prompt: the header, then one numbered title per line. */
  function UserPrompt(sources: seq<NewsItem>): string
  {
    PromptHeader + JoinWith(NumberedTitles(sources), "\n")
  }

  /** The prompt starts with the header and lists every source's title under
      its number. */
  lemma UserPromptListsTitles(sources: seq<NewsItem>, i: nat)
    requires i < |sources|
    ensures PromptHeader <= UserPrompt(sources)
    ensures Contains(UserPrompt(sources), NumberedTitle(i, sources[i].title))
  {
    var body := JoinWith(NumberedTitles(sources), "\n");
    PrefixOfConcat(PromptHeader, body);
    JoinWithContains(NumberedTitles(sources), "\n", i);
    assert UserPrompt(sources) == PromptHeader + body + [];
    ContainsInContext(PromptHeader, body, [], NumberedTitle(i, sources[i].title));
  }

  /** `generateDailySummary`: the model's reply to the prompt, cut to a hundred
      characters; `call` stands for the chat API. */
  function GenerateDailySummary(data: DailyData, apiKey: Option<string>, call: string -> Result<string, string>)
    : (r: Result<string, string>)
    ensures KeyMissing(apiKey) ==> r == Failure(MissingKey)
    ensures r.Failure? <==> KeyMissing(apiKey) || call(UserPrompt(data.sources)).Failure?
    ensures r.Success? ==>
              var reply := call(UserPrompt(data.sources)).value;
              && r.value <= reply && |r.value| <= 100
              && (|reply| <= 100 ==> r.value == reply)
              && (|reply| > 100 ==> |r.value| == 100)
  {
    Summary(UserPrompt(data.sources), apiKey, call)
  }

  // ---------------------------------------------------------------------------
  // buildTemplateCard

  /** Where the card leads when the entry has no link. */
  const FallbackUrl: string := "https://justlovemaki.github.io/CloudFlare-AI-Insight-Daily/"

  function LinkOf(item: NewsItem): Link
  {
    Link(item.title, item.url)
  }

  function LinksOf(items: seq<NewsItem>): seq<Link>
  {
    seq(|items|, i requires 0 <= i < |items| => LinkOf(items[i]))
  }

  /** `dailyData.link || FallbackUrl` */
  function CardTarget(data: DailyData): string
  {
    if data.link == [] then FallbackUrl else data.link
  }

  /** `buildTemplateCard(summary, dailyData)` for the date string `localeDate`. */
  function BuildTemplateCard(localeDate: string, summary: string, data: DailyData): TemplateCard
  {
    TemplateCardOf(localeDate, summary, LinksOf(data.sources), CardTarget(data))
  }

  /** The card shows the first `min(3, n)` sources in order, each with a title
      prefix of at most twenty characters and its URL unchanged, and both the
      jump entry and the card action lead to the entry's link, or to the
      fallback page when the link is empty. */
  lemma TemplateCardShape(localeDate: string, summary: string, data: DailyData)
    ensures var c := BuildTemplateCard(localeDate, summary, data);
      && c.subTitleText == summary
      && |c.horizontalContentList| == (if |data.sources| < MaxLinks then |data.sources| else MaxLinks)
      && (forall i :: 0 <= i < |c.horizontalContentList| ==>
            && c.horizontalContentList[i].keyname == Keyname(i)
            && c.horizontalContentList[i].value <= data.sources[i].title
            && |c.horizontalContentList[i].value| <= MaxValue
            && (|data.sources[i].title| <= MaxValue ==> c.horizontalContentList[i].value == data.sources[i].title)
            && (|data.sources[i].title| > MaxValue ==> |c.horizontalContentList[i].value| == MaxValue)
            && c.horizontalContentList[i].url == data.sources[i].url)
      && |c.jumpList| == 1
      && (data.link != [] ==> c.jumpList[0].url == data.link && c.cardAction.url == data.link)
      && (data.link == [] ==> c.jumpList[0].url == FallbackUrl && c.cardAction.url == FallbackUrl)
  {
    HorizontalItemsShape(LinksOf(data.sources));
    TemplateCardFrame(localeDate, summary, LinksOf(data.sources), CardTarget(data));
  }
}
