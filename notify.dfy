/** The plain-text script: fixed sample news, a model reply read as JSON when
    it holds a brace-delimited object and as plain text otherwise, and a text
    message listing the first two sources. */
module Notify {
  import opened Wrappers
  import opened Text
  import opened Scan
  import opened NewsItems
  import opened Digest

  // ---------------------------------------------------------------------------
  // getDailyAIClues

  /** What `getDailyAIClues` returns. */
  datatype DailyData = DailyData(date: string, sources: seq<NewsItem>)

  /** The three sample news items the script always uses. */
  function SampleSources(): seq<NewsItem>
  {
    [ NewsItem("OpenAI 发布 GPT-4.5 预览版", "https://openai.com/blog/gpt-4-5-preview",
               "OpenAI 今日发布 GPT-4.5 预览版，在推理能力和安全性上都有显著提升。"),
      NewsItem("Google Gemini 2.0 性能突破", "https://blog.google/gemini-2-0",
               "Google 宣布 Gemini 2.0 在多项基准测试中超越 GPT-4，特别是在代码生成和多模态任务方面。"),
      NewsItem("DeepSeek 开源新模型", "https://github.com/deepseek-ai",
               "DeepSeek 发布开源大语言模型 DeepSeek-V3，在中文理解和推理任务上表现优异。") ]
  }

  /** `getDailyAIClues()`, with `today` for `new Date().toISOString().split('T')[0]`. */
  function GetDailyAIClues(today: string): (r: DailyData)
    ensures r.date == today && |r.sources| == 3
    ensures forall i :: 0 <= i < |r.sources| ==> r.sources[i].title != [] && r.sources[i].url != []
  {
    DailyData(today, SampleSources())
  }

  // ---------------------------------------------------------------------------
  // generateDailySummary

  /** The brief the model is asked for. */
  datatype Brief = Brief(title: string, summary: string)

  const FallbackTitle: string := "今日 AI 动态"
  /** The plain-text fallback keeps at most this many characters of the reply. */
  const FallbackLength: nat := 80

  /** `- ${s.title}: ${s.summary}` */
  function SourceLine(s: NewsItem): string
  {
    "- " + s.title + ": " + s.summary
  }

  function SourceLines(sources: seq<NewsItem>): seq<string>
  {
    seq(|sources|, i requires 0 <= i < |sources| => SourceLine(sources[i]))
  }

  const PromptOpening: string := "以下是今日的 AI 资讯，请按要求生成简讯：\n\n"
  const PromptClosing: string := "\n\n请生成一条简讯，字数控制在 80 字以内。"

  function UserPrompt(sources: seq<NewsItem>): string
  {
    PromptOpening + JoinWith(SourceLines(sources), "\n") + PromptClosing
  }

  /** The prompt lists every source with its title and summary. */
  lemma UserPromptListsSources(sources: seq<NewsItem>, i: nat)
    requires i < |sources|
    ensures Contains(UserPrompt(sources), SourceLine(sources[i]))
  {
    JoinWithContains(SourceLines(sources), "\n", i);
    ContainsInContext(PromptOpening, JoinWith(SourceLines(sources), "\n"), PromptClosing, SourceLine(sources[i]));
  }

  /** `s.lastIndexOf(c)`. */
  function LastIndexOfChar(s: string, c: char): (r: Option<nat>)
    ensures r.Some? ==> r.value < |s| && s[r.value] == c && forall k :: r.value < k < |s| ==> s[k] != c
    ensures r.None? ==> forall k :: 0 <= k < |s| ==> s[k] != c
    decreases |s|
  {
    if s == [] then None
    else if s[|s| - 1] == c then Some(|s| - 1)
    else LastIndexOfChar(s[..|s| - 1], c)
  }

  /** `result.match(/\{[\s\S]*\}/)`: the greedy match runs from the first `{`
      to the last `}`, provided that `}` comes after it. */
  function BraceSpan(s: string): Option<string>
  {
    match IndexOfChar(s, '{', 0)
    case None => None
    case Some(i) =>
      match LastIndexOfChar(s, '}')
      case None => None
      case Some(j) => if i < j then Some(s[i..j + 1]) else None
  }

  /** There is a brace span exactly when some `{` comes before some `}`; the
      span then starts at the first `{`, ends at the last `}`, and is the slice
      of the reply between them. */
  lemma BraceSpanShape(s: string)
    ensures BraceSpan(s).None? <==> forall a, b :: 0 <= a < b < |s| ==> !(s[a] == '{' && s[b] == '}')
    ensures BraceSpan(s).Some? ==>
              exists i, j :: 0 <= i < j < |s| && BraceSpan(s).value == s[i..j + 1]
                && s[i] == '{' && s[j] == '}'
                && (forall k :: 0 <= k < i ==> s[k] != '{')
                && (forall k :: j < k < |s| ==> s[k] != '}')
  {
    IndexOfCharFirst(s, '{', 0);
    match IndexOfChar(s, '{', 0)
    case None =>
    case Some(i) =>
      match LastIndexOfChar(s, '}')
      case None =>
      case Some(j) =>
        if i < j {
          assert s[i] == '{' && s[j] == '}';
        } else {
          forall a, b | 0 <= a < b < |s| ensures !(s[a] == '{' && s[b] == '}') {
            if s[a] == '{' {
              assert i <= a;
              assert j < b;
            }
          }
        }
  }

  /** The reply as a brief: the parsed object when the brace span parses, and
      otherwise the fixed title with the first eighty characters of the reply.
      `parse` stands for `JSON.parse`, with `None` for a parse error. */
  function BriefOf(result: string, parse: string -> Option<Brief>): (r: Brief)
    ensures BraceSpan(result).Some? && parse(BraceSpan(result).value).Some? ==>
              r == parse(BraceSpan(result).value).value
    ensures BraceSpan(result).None? || parse(BraceSpan(result).value).None? ==>
              && r.title == FallbackTitle
              && r.summary <= result
              && |r.summary| <= FallbackLength
              && (|result| <= FallbackLength ==> r.summary == result)
              && (|result| > FallbackLength ==> |r.summary| == FallbackLength)
  {
    match BraceSpan(result)
    case Some(t) => (match parse(t) case Some(b) => b case None => Brief(FallbackTitle, Take(result, FallbackLength)))
    case None => Brief(FallbackTitle, Take(result, FallbackLength))
  }

  /** `generateDailySummary(dailyData)`, with `call` for the chat API. */
  function GenerateDailySummary(sources: seq<NewsItem>, apiKey: Option<string>,
                                call: string -> Result<string, string>, parse: string -> Option<Brief>)
    : (r: Result<Brief, string>)
    ensures KeyMissing(apiKey) ==> r == Failure(MissingKey)
    ensures r.Failure? <==> KeyMissing(apiKey) || call(UserPrompt(sources)).Failure?
    ensures r.Success? ==> r.value == BriefOf(call(UserPrompt(sources)).value, parse)
  {
    match Ask(UserPrompt(sources), apiKey, call)
    case Failure(e) => Failure(e)
    case Success(result) => Success(BriefOf(result, parse))
  }

  // ---------------------------------------------------------------------------
  // formatMessage

  /** At most this many sources are listed. */
  const MaxListed: nat := 2

  /** `【${date} AI 简讯】\n\n` */
  function Opening(date: string): string
  {
    "【" + date + " AI 简讯】\n\n"
  }

  /** The opening, then `${title}\n${summary}\n\n`. */
  function MessageHead(date: string, brief: Brief): string
  {
    Opening(date) + brief.title + "\n" + brief.summary + "\n\n"
  }

  const SourcesLabel: string := "来源：\n"

  /** `${index + 1}. ${source.title}\n   ${source.url}\n` */
  function SourceEntry(index: nat, s: NewsItem): string
  {
    NatToString(index + 1) + ". " + s.title + "\n   " + s.url + "\n"
  }

  /** The entries for `sources`, numbered from `first + 1`. */
  function SourceEntries(sources: seq<NewsItem>, first: nat): string
    decreases |sources|
  {
    if sources == [] then [] else SourceEntry(first, sources[0]) + SourceEntries(sources[1..], first + 1)
  }

  /** The message `formatMessage` builds for the clock's date string `date`. */
  function MessageOf(date: string, brief: Brief, sources: seq<NewsItem>): string
  {
    MessageHead(date, brief) + (if sources == [] then [] else SourcesLabel + SourceEntries(Take(sources, MaxListed), 0))
  }

  /** Appending one more entry extends the numbered list by that entry. */
  lemma {:induction false} SourceEntriesSnoc(sources: seq<NewsItem>, first: nat, s: NewsItem)
    ensures SourceEntries(sources + [s], first) == SourceEntries(sources, first) + SourceEntry(first + |sources|, s)
    decreases |sources|
  {
    if sources == [] {
      assert [] + [s] == [s];
      assert [s][1..] == [];
    } else {
      assert (sources + [s])[1..] == sources[1..] + [s];
      SourceEntriesSnoc(sources[1..], first + 1, s);
    }
  }

  /** `formatMessage(summary, dailyData)`: the head, then, when there are
      sources, the `来源：` line and the entries of the first two. */
  method FormatMessage(date: string, brief: Brief, sources: seq<NewsItem>) returns (message: string)
    ensures message == MessageOf(date, brief, sources)
  {
    message := Opening(date);
    message := message + brief.title + "\n";
    message := message + brief.summary + "\n\n";
    assert message == MessageHead(date, brief);
    if |sources| > 0 {
      var top := Take(sources, MaxListed);
      message := message + SourcesLabel;
      message := AppendEntries(message, top);
    }
  }

  /** `topSources.forEach((source, index) => { message += ... })`: appends one
      numbered entry per source, in order. */
  method AppendEntries(message: string, top: seq<NewsItem>) returns (out: string)
    ensures out == message + SourceEntries(top, 0)
  {
    out := message;
    var index := 0;
    while index < |top|
      invariant 0 <= index <= |top|
      invariant out == message + SourceEntries(top[..index], 0)
    {
      SourceEntriesSnoc(top[..index], 0, top[index]);
      assert top[..index + 1] == top[..index] + [top[index]];
      out := out + SourceEntry(index, top[index]);
      index := index + 1;
    }
    assert top[..|top|] == top;
  }

  /** The numbered entries cover the listed sources: one per source, each an
      exact part of the list, numbered from `first + 1`. */
  lemma {:induction false} SourceEntriesContain(sources: seq<NewsItem>, first: nat, i: nat)
    requires i < |sources|
    ensures Contains(SourceEntries(sources, first), SourceEntry(first + i, sources[i]))
    decreases |sources|
  {
    var all := SourceEntries(sources, first);
    var head := SourceEntry(first, sources[0]);
    var tail := SourceEntries(sources[1..], first + 1);
    assert all == head + tail;
    if i == 0 {
      assert all[0..|head|] == head;
      assert OccursAt(all, head, 0);
    } else {
      SourceEntriesContain(sources[1..], first + 1, i - 1);
      assert sources[1..][i - 1] == sources[i];
      assert all == head + tail + [];
      ContainsInContext(head, tail, [], SourceEntry(first + i, sources[i]));
    }
  }

  /** The message starts with the dated head; with no sources it is the head
      alone; otherwise the `来源：` line follows and lists each of the first two
      sources under its number, and nothing beyond them: the message depends
      only on the first two sources. */
  lemma MessageShape(date: string, brief: Brief, sources: seq<NewsItem>, i: nat)
    ensures MessageHead(date, brief) <= MessageOf(date, brief, sources)
    ensures Opening(date) <= MessageOf(date, brief, sources)
    ensures sources == [] ==> MessageOf(date, brief, sources) == MessageHead(date, brief)
    ensures i < |sources| && i < MaxListed ==> Contains(MessageOf(date, brief, sources), SourceEntry(i, sources[i]))
    ensures sources != [] ==> Contains(MessageOf(date, brief, sources), SourcesLabel)
    ensures MessageOf(date, brief, sources) == MessageOf(date, brief, Take(sources, MaxListed))
  {
    var h := MessageHead(date, brief);
    var m := MessageOf(date, brief, sources);
    var rest := brief.title + "\n" + brief.summary + "\n\n";
    assert h == Opening(date) + rest;
    PrefixOfConcat(Opening(date), rest);
    var tail := if sources == [] then [] else SourcesLabel + SourceEntries(Take(sources, MaxListed), 0);
    assert m == h + tail;
    PrefixOfConcat(h, tail);
    if i < |sources| && i < MaxListed {
      var list := SourceEntries(Take(sources, MaxListed), 0);
      assert Take(sources, MaxListed)[i] == sources[i];
      SourceEntriesContain(Take(sources, MaxListed), 0, i);
      assert m == (h + SourcesLabel) + list + [];
      ContainsInContext(h + SourcesLabel, list, [], SourceEntry(i, sources[i]));
    }
    if sources != [] {
      var list := SourceEntries(Take(sources, MaxListed), 0);
      assert OccursAt(SourcesLabel, SourcesLabel, 0);
      assert m == h + SourcesLabel + list;
      ContainsInContext(h, SourcesLabel, list, SourcesLabel);
    }
    assert Take(Take(sources, MaxListed), MaxListed) == Take(sources, MaxListed);
  }
}
