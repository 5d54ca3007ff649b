/** The real-data card script: news fetched from the aggregator when a list is
    configured and something came back, the three sample items otherwise; a
    model summary cut to a hundred characters; and the template card, which
    always leads to the project's repository. */
module NotifyReal {
  import opened Wrappers
  import opened Text
  import opened Digest
  import opened Card
  import Notify

  // ---------------------------------------------------------------------------
  // getDailyAIClues

  /** An item as the aggregator's fetcher returns it; `description` may be absent. */
  datatype FetchedItem = FetchedItem(title: string, url: string, description: Option<string>,
                                     publishedDate: string, source: string)

  /** A news entry of the daily data. */
  datatype NewsEntry = NewsEntry(title: string, url: string, summary: string,
                                 publishedDate: string, source: string)

  datatype DailyData = DailyData(date: string, sources: seq<NewsEntry>)

  /** `{ title, url, summary: description || '', published_date, source }` */
  function EntryOf(item: FetchedItem): (e: NewsEntry)
    ensures e.title == item.title && e.url == item.url
    ensures e.publishedDate == item.publishedDate && e.source == item.source
    ensures item.description.Some? ==> e.summary == item.description.value
    ensures item.description.None? ==> e.summary == []
  {
    var summary := match item.description case Some(d) => d case None => [];
    NewsEntry(item.title, item.url, summary, item.publishedDate, item.source)
  }

  /** `newsData.map(item => ...)`: one entry per fetched item, in order. */
  function EntriesOf(items: seq<FetchedItem>): (r: seq<NewsEntry>)
    ensures |r| == |items|
    ensures forall i :: 0 <= i < |items| ==> r[i] == EntryOf(items[i])
  {
    seq(|items|, i requires 0 <= i < |items| => EntryOf(items[i]))
  }

  const SampleSource: string := "示例数据"

  /** The three sample items of the mock-data script, stamped with the
      clock's ISO time `now` and marked as samples. */
  function SampleEntries(now: string): (r: seq<NewsEntry>)
    ensures |r| == |Notify.SampleSources()|
    ensures forall i :: 0 <= i < |r| ==>
              && r[i].title == Notify.SampleSources()[i].title
              && r[i].url == Notify.SampleSources()[i].url
              && r[i].summary == Notify.SampleSources()[i].summary
              && r[i].source == SampleSource && r[i].publishedDate == now
  {
    var samples := Notify.SampleSources();
    seq(|samples|, i requires 0 <= i < |samples| =>
      NewsEntry(samples[i].title, samples[i].url, samples[i].summary, now, SampleSource))
  }

  /** `getDailyAIClues()`. `listId` is `NEWS_AGGREGATOR_LIST_ID` (empty when
      unset); `fetched` is what the fetcher returned, `None` when it threw or
      returned nothing; `today` and `now` are the clock's ISO date and time. */
  function GetDailyAIClues(listId: string, fetched: Option<seq<FetchedItem>>, today: string, now: string)
    : (r: DailyData)
    ensures r.date == today
    ensures r.sources != []
    ensures listId != [] && fetched.Some? && fetched.value != [] ==> r.sources == EntriesOf(fetched.value)
    ensures listId == [] || fetched.None? || fetched.value == [] ==> r.sources == SampleEntries(now)
  {
    var news := if listId != [] && fetched.Some? && fetched.value != [] then EntriesOf(fetched.value) else [];
    DailyData(today, if news == [] then SampleEntries(now) else news)
  }

  // ---------------------------------------------------------------------------
  // generateDailySummary

  /** `${i + 1}. ${s.title}\n   ${s.summary}` */
  function NumberedEntry(i: nat, e: NewsEntry): string
  {
    NatToString(i + 1) + ". " + e.title + "\n   " + e.summary
  }

  function NumberedEntries(sources: seq<NewsEntry>): seq<string>
  {
    seq(|sources|, i requires 0 <= i < |sources| => NumberedEntry(i, sources[i]))
  }

  /** The user prompt: the header, then the numbered entries separated by blank lines. */
  function UserPrompt(sources: seq<NewsEntry>): string
  {
    PromptHeader + JoinWith(NumberedEntries(sources), "\n\n")
  }

  /** The prompt starts with the header and lists every source, numbered, with
      its title and summary. */
  lemma UserPromptListsSources(sources: seq<NewsEntry>, i: nat)
    requires i < |sources|
    ensures PromptHeader <= UserPrompt(sources)
    ensures Contains(UserPrompt(sources), NumberedEntry(i, sources[i]))
  {
    var body := JoinWith(NumberedEntries(sources), "\n\n");
    PrefixOfConcat(PromptHeader, body);
    JoinWithContains(NumberedEntries(sources), "\n\n", i);
    assert UserPrompt(sources) == PromptHeader + body + [];
    ContainsInContext(PromptHeader, body, [], NumberedEntry(i, sources[i]));
  }

  /** `generateDailySummary(dailyData)`: the model's reply cut to a hundred
      characters; `call` stands for the chat API. */
  function GenerateDailySummary(data: DailyData, apiKey: Option<string>, call: string -> Result<string, string>)
    : (r: Result<string, string>)
    ensures KeyMissing(apiKey) ==> r == Failure(MissingKey)
    ensures r.Failure? <==> KeyMissing(apiKey) || call(UserPrompt(data.sources)).Failure?
    ensures r.Success? ==>
              var reply := call(UserPrompt(data.sources)).value;
              && r.value <= reply && |r.value| <= 100
              && (|reply| <= 100 ==> r.value == reply)
              && (|reply| > 100 ==> |r.value| == 100)
  {
    Summary(UserPrompt(data.sources), apiKey, call)
  }

  // ---------------------------------------------------------------------------
  // buildTemplateCard

  /** Where both the jump entry and the card action lead. */
  const RepoUrl: string := "https://github.com/dumeym/CloudFlare-AI-Insight-Daily-dm"

  function LinksOf(sources: seq<NewsEntry>): seq<Link>
  {
    seq(|sources|, i requires 0 <= i < |sources| => Link(sources[i].title, sources[i].url))
  }

  /** `buildTemplateCard(summary, dailyData)` for the date string `localeDate`. */
  function BuildTemplateCard(localeDate: string, summary: string, data: DailyData): TemplateCard
  {
    TemplateCardOf(localeDate, summary, LinksOf(data.sources), RepoUrl)
  }

  /** The card shows the summary and the first `min(3, n)` sources in order,
      each with a title prefix of at most twenty characters and its URL; both
      the jump entry and the card action lead to the repository whatever the
      data, so two days' cards differ only in date, summary and news list. */
  lemma TemplateCardShape(localeDate: string, summary: string, data: DailyData, other: DailyData)
    ensures var c := BuildTemplateCard(localeDate, summary, data);
      && c.subTitleText == summary
      && c.mainTitle.title == localeDate + " AI 简讯"
      && |c.horizontalContentList| == (if |data.sources| < MaxLinks then |data.sources| else MaxLinks)
      && (forall i :: 0 <= i < |c.horizontalContentList| ==>
            && c.horizontalContentList[i].keyname == Keyname(i)
            && c.horizontalContentList[i].value <= data.sources[i].title
            && |c.horizontalContentList[i].value| <= MaxValue
            && (|data.sources[i].title| <= MaxValue ==> c.horizontalContentList[i].value == data.sources[i].title)
            && (|data.sources[i].title| > MaxValue ==> |c.horizontalContentList[i].value| == MaxValue)
            && c.horizontalContentList[i].url == data.sources[i].url)
      && |c.jumpList| == 1 && c.jumpList[0].url == RepoUrl && c.cardAction.url == RepoUrl
    ensures BuildTemplateCard(localeDate, summary, data).(horizontalContentList := [])
         == BuildTemplateCard(localeDate, summary, other).(horizontalContentList := [])
  {
    HorizontalItemsShape(LinksOf(data.sources));
    TemplateCardFrame(localeDate, summary, LinksOf(data.sources), RepoUrl);
  }
}
