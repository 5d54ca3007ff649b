# Daily AI brief: RSS to chat-message pipeline

This project is a Dafny model of the string pipeline behind the daily AI news
push scripts. The scripts take an RSS document, or a list of fetched news items,
and produce either a chat text message or a template card.

There are four scripts:

- **`scripts/daily-notify-rss.js`** (modules `RssFeed`, `Spam`, `NewsItems`,
  `Card`):
  - `parseRSS` walks every `<item>` of the feed.
  - `extractNewsItems` does four things:
    - blanks every line holding a promotional keyword;
    - reads the `<li>` fragments of the first entry's content;
    - strips their tags and decodes entities;
    - turns each fragment into a news item, from its link or from its first fifty characters.
  - `getDailyAIClues` keeps at most ten items.
  - The summary is cut to a hundred characters.
  - `buildTemplateCard` builds the card.
- **`scripts/daily-notify-rss-text.js`** (modules `RssText`, `Dates`):
  - `extractLatestItem` cuts out the first `<item>`. It cleans the item's title
    and content of CDATA markers and five entities.
  - `extractDateFromTitle` reads the first `YYYY-MM-DD` of the feed title, or
    falls back to yesterday.
  - `buildWeChatText` frames the news text with a dated header and a fixed footer.
- **`scripts/daily-notify.js`** (module `Notify`):
  - sample data;
  - a summary read from the first-`{`-to-last-`}` span of the model reply, with a
    fixed title and an eighty-character prefix as fallback;
  - `formatMessage`, which lists at most two sources.
- **`scripts/daily-notify-real.js`** (module `NotifyReal`):
  - fetched items mapped to news entries, or three sample entries when nothing
    came back;
  - a numbered prompt;
  - a hundred-character summary;
  - a card whose links always lead to the project's repository.

The modules shared by the scripts:

- **`Text`**:
  - prefix truncation (`substring(0, n)`);
  - global literal replacement, defined by scanning and proved equal to split-and-join;
  - JavaScript `trim`;
  - decimal digits and two-digit padding.
- **`Scan`** is an explicit scanner for the regular expressions of the form
  `open(lazy group)close`:
  - `.*?` stays on one line, while `[\s\S]*?` may cross lines;
  - `[^>]*` may follow the opening literal;
  - the `i` flag is supported.

  `MatchAt` is a match at one position, `Find` is the leftmost match, and
  `Captures` is a global `exec` loop. `CollectMatches` is that loop written
  imperatively and proved equal to the functional definition.
- **`Digest`**: the API-key check and the call to the chat model.
- **`Card`**: the template card shared by both card-building scripts.

Code that builds its result step by step becomes a method proved equal to a
specification function, and the properties are proved about those functions:

- `Scan.CollectMatches` is the `while (exec)` loop with `push`;
- `Spam.RemoveSpam` is the `forEach` over the keywords that reassigns the content;
- `Notify.FormatMessage` builds the message with `+=`;
- `Notify.AppendEntries` is the `forEach` loop over the listed sources that it calls.

The three loops carry invariants.

The chat model, the JSON parser, the fetcher and the clock are parameters:

- `call` maps a prompt to a reply or an error.
- `parse` maps a text to a brief or nothing.
- `fetched` and `response` are what the network returned.
- `today`, `now` and `localeDate` are clock readings.

## Model

| member | source | states |
|---|---|---|
| Text.Take | scripts/daily-notify-rss.js:213 | `substring(0, n)` is a prefix whose length is `n` or the whole text when shorter |
| Text.ReplaceAllIsSplitJoin | scripts/daily-notify-rss-text.js:88-91 | a global replacement of a literal equals splitting at its non-overlapping occurrences and joining with the replacement |
| Text.SplitPiecesAvoid | scripts/daily-notify-rss-text.js:88 | after a global removal no piece holds the pattern |
| Text.SplitJoinRoundTrip | scripts/daily-notify-rss-text.js:88 | splitting at a pattern and joining with it gives the text back |
| Text.ReplaceAllSelf | scripts/daily-notify-rss.js:97-100 | replacing a pattern by itself changes nothing |
| Text.ReplaceAllAbsent | scripts/daily-notify-rss-text.js:89-91 | a replacement whose pattern does not occur leaves the text unchanged |
| Text.ReplaceAllAfterPrefix | scripts/daily-notify-rss-text.js:89-91 | a prefix holding no occurrence passes through a replacement untouched |
| Text.ReplaceAllLeading | scripts/daily-notify-rss-text.js:88 | removing a leading marker that does not recur leaves the rest |
| Text.TrimStart | scripts/daily-notify-rss.js:102 | drops exactly the leading whitespace and line terminators |
| Text.TrimEnd | scripts/daily-notify-rss.js:102 | drops exactly the trailing whitespace and line terminators |
| Text.Trim | scripts/daily-notify-rss.js:102 | the result is a slice of the input with whitespace only outside it and none at either end |
| Text.TrimIdempotent | scripts/daily-notify-rss-text.js:85 | trimming twice is trimming once |
| Text.NatToString | scripts/daily-notify-rss-text.js:206-207 | decimal digits, with a leading zero only for zero |
| Text.NatToStringRoundTrip | scripts/daily-notify-rss-text.js:206-207 | reading the digits back gives the number |
| Text.DigitsRoundTrip | scripts/daily-notify-rss-text.js:129-132 | a digit string without a leading zero is what its value prints as |
| Text.NatToStringInjective | scripts/daily-notify-rss-text.js:206-207 | two numbers print alike if and only if they are equal |
| Text.PadStart2 | scripts/daily-notify-rss-text.js:206-207 | `padStart(2, '0')`: short strings get leading zeros up to two characters, longer ones are unchanged |
| Text.TwoDigitsRoundTrip | scripts/daily-notify-rss-text.js:129-132 | a two-digit field printed back and padded is the field itself |
| Text.JoinWithContains | scripts/daily-notify-rss.js:198 | a joined text contains every part |
| Text.CountCharConcat | scripts/daily-notify-rss.js:79-85 | line feeds of a concatenation add up |
| Scan.IndexOfChar | scripts/daily-notify-rss.js:105 | a found position holds the character |
| Scan.IndexOfCharFirst | scripts/daily-notify-rss.js:105 | a found position is the first one at or after the start, and none means nowhere |
| Scan.LazyClose | scripts/daily-notify-rss.js:32 | the lazy group ends at the first closing literal, or before the first line terminator for `.*?`; when there is none, every later closing literal lies past a line terminator |
| Scan.MatchAt | scripts/daily-notify-rss.js:32 | a match at `p` starts at `p` and ends inside the text |
| Scan.MatchAtIsMatch | scripts/daily-notify-rss.js:39 | a match at `p` consists of the opening literal, the lazy group and the closing literal, and the group holds no earlier closing literal |
| Scan.MatchAtComplete | scripts/daily-notify-rss.js:43 | for a pattern without the `[^>]*>` part, an opening literal followed by a closing one (on the same line for `.*?`) always yields a match, ending no later than that closing literal |
| Scan.LazyCloseReaches | scripts/daily-notify-rss.js:43 | the lazy group stops at a closing literal that has no earlier closing literal, and no earlier line terminator for `.*?`, before it |
| Scan.IsMatchIsMatchAt | scripts/daily-notify-rss.js:88 | for every pattern, `<li[^>]*>` included, a match that exists at `p` is exactly the one the engine finds there |
| Scan.Find | scripts/daily-notify-rss.js:39 | `String.match`: a found span is the match at its own start |
| Scan.FindIsLeftmost | scripts/daily-notify-rss.js:39 | no match starts before the one found, and nothing found means no match anywhere |
| Scan.FirstGroup | scripts/daily-notify-rss.js:39-40 | a first group exists exactly when a match exists |
| Scan.CapturesStep | scripts/daily-notify-rss.js:35-36 | the `exec` loop yields the first match's group, then carries on from the match's end |
| Scan.CaptureMatch | scripts/daily-notify-rss.js:35-36 | every captured group is the group of a match that starts at or after the loop's start |
| Scan.CapturesAreDelimited | scripts/daily-notify-rss.js:35-36 | every captured group sits between the opening and closing literals of a match |
| Scan.CollectMatches | scripts/daily-notify-rss.js:35-62 | the `while (exec)` loop with `push` equals the functional gathering over all captures |
| Scan.GatherMembers | scripts/daily-notify-rss.js:54-61 | an element is gathered if and only if some group yields it |
| Scan.GatherAppend | scripts/daily-notify-rss.js:54-61 | gathering distributes over concatenation |
| Scan.GatherOrder | scripts/daily-notify-rss.js:54-61 | gathered elements keep the order of their groups |
| Scan.GatherTotal | scripts/daily-notify-rss.js:54-61 | when every group yields, nothing is dropped |
| Scan.GroupShape | scripts/daily-notify-rss.js:39-52 | a case-sensitive group never holds its closing literal, and a `.*?` group holds no line terminator |
| Scan.WrappedMatchAt | scripts/daily-notify-rss.js:51 | text wrapped in the literals, with no closing literal inside, is matched exactly |
| Scan.FirstGroupOfWrapped | scripts/daily-notify-rss.js:51-52 | the group read from wrapped text is the text |
| Spam.SpamKeywordsWellFormed | scripts/daily-notify-rss.js:14-20 | the five keywords are non-empty and contain no line feed |
| Spam.LineEnd | scripts/daily-notify-rss.js:82 | `[^\n]*` stops at a line feed or the end |
| Spam.LineEndNoFeed | scripts/daily-notify-rss.js:82 | `[^\n]*` spans no line feed |
| Spam.ReplaceSpamPatternBlanksLines | scripts/daily-notify-rss.js:81-84 | the global `[^\n]*K[^\n]*` replacement blanks exactly the lines holding `K` |
| Spam.CopiesCleanLine | scripts/daily-notify-rss.js:81-84 | a line without the keyword is copied unchanged |
| Spam.BlankLinesCompose | scripts/daily-notify-rss.js:79-85 | one pass per keyword equals one pass over the keyword list |
| Spam.BlankLinesSpamFree | scripts/daily-notify-rss.js:79-85 | the cleaned content contains none of the keywords |
| Spam.BlankLinesPerLine | scripts/daily-notify-rss.js:79-85 | same number of lines; each line is blanked if it holds a keyword and is unchanged otherwise |
| Spam.BlankLinesKeepsLineFeeds | scripts/daily-notify-rss.js:79-85 | the number of line feeds is preserved |
| Spam.BlankLinesNone | scripts/daily-notify-rss.js:79-85 | no keywords, no change |
| Spam.RemoveSpam | scripts/daily-notify-rss.js:76-85 | the `forEach` reassigning `cleanedContent` equals blanking every keyword line |
| NewsItems.StripTags | scripts/daily-notify-rss.js:95 | tag removal only shortens and only keeps characters of the input |
| NewsItems.StripTagsTagFree | scripts/daily-notify-rss.js:95 | no `<…>` tag survives tag removal |
| NewsItems.StripTagsIdentity | scripts/daily-notify-rss.js:95 | text without tags is unchanged |
| NewsItems.DecodeEntitiesIdentity | scripts/daily-notify-rss.js:97-100 | text without `&` is unchanged by entity decoding |
| NewsItems.HrefRest | scripts/daily-notify-rss.js:105 | a link read after `href="` is non-empty and quote-free, and its caption is non-empty and free of `<` |
| NewsItems.HrefRestShape | scripts/daily-notify-rss.js:105 | the link sits as `href="url"`, later followed by `>`, the caption and `</a>` |
| NewsItems.HrefRestNeedsGt | scripts/daily-notify-rss.js:105 | without a later `>` no link is read |
| NewsItems.HrefRestNeedsTwoQuotes | scripts/daily-notify-rss.js:105 | without a closing quote no link is read |
| NewsItems.TryHrefSkips | scripts/daily-notify-rss.js:105 | backtracking over `[^>]+` passes positions where no link can be read |
| NewsItems.AnchorAt | scripts/daily-notify-rss.js:105 | an anchor match at `p` starts with `<a` |
| NewsItems.FindAnchorNone | scripts/daily-notify-rss.js:105-106 | no anchor at any position means no match |
| NewsItems.AnchorRoundTrip | scripts/daily-notify-rss.js:105-106 | `<a href="url">caption</a>` is read back as that link and caption |
| NewsItems.TagFreeNoAnchorAt | scripts/daily-notify-rss.js:95-106 | in tag-free text the anchor pattern finds nothing at any position |
| NewsItems.LiTextTagFree | scripts/daily-notify-rss.js:95-102 | a fragment without entities is tag-free after cleaning |
| NewsItems.AnchorNeedsEscapedMarkup | scripts/daily-notify-rss.js:95-106 | the link branch can only fire when the fragment held escaped markup (`&lt;a …&gt;`) |
| NewsItems.ItemOfPlainText | scripts/daily-notify-rss.js:114-120 | without an anchor, an item is made if and only if the text is longer than ten characters; it has an empty url, the text's first fifty characters as title and the whole text as summary |
| NewsItems.ItemOfAnchor | scripts/daily-notify-rss.js:108-113 | an anchor gives an item with its non-empty url, its trimmed caption as title and the whole text as summary |
| NewsItems.KeepItems | scripts/daily-notify-rss.js:125-130 | the filter keeps an order-preserving subsequence holding every copy of each item that passes and no copy of any item that fails |
| NewsItems.ExtractNewsItems | scripts/daily-notify-rss.js:72-131 | the loop equals cleaning, gathering the `<li>` items and filtering |
| NewsItems.NewsItemsFiltered | scripts/daily-notify-rss.js:125-130 | every returned title is longer than five characters and holds neither deny-listed phrase, and the items appear in the order of their `<li>` fragments |
| NewsItems.ElementsSpamFree | scripts/daily-notify-rss.js:79-91 | no `<li>` fragment read from the cleaned content holds a keyword |
| RssFeed.FieldShape | scripts/daily-notify-rss.js:39-52 | a missing field is `''`; a present one is the group of the leftmost match, without its closing tag and, for `.*?`, on one line |
| RssFeed.LinkFieldRoundTrip | scripts/daily-notify-rss.js:51-52 | a one-line `<link>x</link>` reads back as `x` |
| RssFeed.ParseRss | scripts/daily-notify-rss.js:27-65 | the `exec` loop equals the functional list of entries |
| RssFeed.EntriesExactly | scripts/daily-notify-rss.js:32-61 | an entry is returned if and only if it comes from an `<item>` block with non-empty CDATA content |
| RssFeed.EntriesInOrder | scripts/daily-notify-rss.js:32-61 | kept entries appear in document order |
| RssFeed.EntriesAllKept | scripts/daily-notify-rss.js:54-61 | when every block has content, none is dropped |
| RssFeed.EntryFields | scripts/daily-notify-rss.js:39-52 | content is non-empty; title, pubDate and link are single-line and hold no closing tag |
| RssFeed.GetDailyAIClues | scripts/daily-notify-rss.js:136-175 | the method equals the functional outcome of fetching and parsing |
| RssFeed.DailyCluesShape | scripts/daily-notify-rss.js:139-168 | fails exactly when the fetch failed or no entry was parsed; otherwise it carries the first entry's title and link and at most ten kept items, a prefix of the extracted list |
| RssFeed.UserPromptListsTitles | scripts/daily-notify-rss.js:196-198 | the prompt starts with its header and lists every title under its number |
| RssFeed.GenerateDailySummary | scripts/daily-notify-rss.js:200-216 | a missing key fails before any call; a failed call fails; the reply is cut to its first 100 characters: exactly 100 when longer, the whole reply otherwise |
| RssFeed.TemplateCardShape | scripts/daily-notify-rss.js:253-276 | summary; `min(3, n)` entries with numbered keynames, values that are the titles' first 20 characters (exactly 20 when longer, whole otherwise) and urls copied; both links use the feed link, or the fallback URL when it is empty |
| RssText.CleanIdentity | scripts/daily-notify-rss-text.js:88-91 | text without entities or CDATA markers is unchanged |
| RssText.LatestItemShape | scripts/daily-notify-rss-text.js:75-81 | fails with the no-item error exactly when no case-insensitive `<item>…</item>` exists; otherwise `raw` is the leftmost one |
| RssText.MissingTitle | scripts/daily-notify-rss-text.js:84-85 | no title gives `未知标题` |
| RssText.PresentTitle | scripts/daily-notify-rss-text.js:84-91 | a present title is trimmed, then cleaned; plain titles are only trimmed |
| RssText.ContentPrecedence | scripts/daily-notify-rss-text.js:94-105 | `content:encoded` wins over `description`; with neither, content is `''` |
| RssText.StripCDataUnwraps | scripts/daily-notify-rss-text.js:88 | a CDATA wrapper is removed |
| RssText.EscapedAmpersand | scripts/daily-notify-rss-text.js:89-91 | `&amp;` is decoded after `&lt;` and `&gt;`, so what follows it is decoded again for `&quot;` and `&#39;` only |
| RssText.DecodeAmpLt | scripts/daily-notify-rss-text.js:89-90 | `&amp;lt;` decodes to `&lt;` |
| RssText.DecodeAmpQuot | scripts/daily-notify-rss-text.js:90 | `&amp;quot;` decodes to `"` |
| RssText.WeChatTextFrame | scripts/daily-notify-rss-text.js:202-222 | header line, subtitle, the news text verbatim, then the fixed footer |
| Dates.DaysInMonth | scripts/daily-notify-rss-text.js:132 | every month has 28 to 31 days |
| Dates.NextDay | scripts/daily-notify-rss-text.js:132 | the day after a valid date is valid |
| Dates.PrevDay | scripts/daily-notify-rss-text.js:135-136 | the day before a valid date is valid |
| Dates.PrevNextInverse | scripts/daily-notify-rss-text.js:135-136 | going back a day and forward a day are inverse |
| Dates.MakeDay | scripts/daily-notify-rss-text.js:132 | a calendar day built from a day of month up to 31 is valid |
| Dates.MakeDayRollover | scripts/daily-notify-rss-text.js:132 | a day past the month's end rolls into the next month |
| Dates.IsoMoment | scripts/daily-notify-rss-text.js:132 | the ISO parse is invalid exactly when the month or day is out of range; in-range days are kept |
| Dates.FindDatePattern | scripts/daily-notify-rss-text.js:129 | `(\d{4})-(\d{2})-(\d{2})` is found at its leftmost position, or nowhere |
| Dates.DateFromTitleSources | scripts/daily-notify-rss-text.js:129-137 | without a date in the title the result is yesterday; with one, the clock does not matter |
| Dates.HeaderEchoesTitleDate | scripts/daily-notify-rss-text.js:205-212 | for a valid title date the header repeats the title's digits |
| Dates.HeaderOfInvalidDate | scripts/daily-notify-rss-text.js:205-212 | an out-of-range title date prints as `NaN年NaN月NaN日AI简讯` |
| Dates.HeaderLineDigits | scripts/daily-notify-rss-text.js:205-212 | the header holds the year, then the month and day as two-digit fields reading back as their values |
| Digest.Summary | scripts/daily-notify-real.js:154-170 | a missing key fails before any call; a failed call fails; a reply is cut to its first 100 characters: exactly 100 when longer, the whole reply otherwise |
| Notify.GetDailyAIClues | scripts/daily-notify.js:55-83 | today's date and the three sample sources, each with a title and a url |
| Notify.UserPromptListsSources | scripts/daily-notify.js:105-109 | every source appears as `- title: summary` |
| Notify.LastIndexOfChar | scripts/daily-notify.js:125 | the last occurrence of a character, or none at all |
| Notify.BraceSpanShape | scripts/daily-notify.js:125 | the candidate runs from the first `{` to the last `}`; it is missing exactly when no `{` precedes a `}` |
| Notify.BriefOf | scripts/daily-notify.js:124-137 | a parsed span is returned; otherwise the fixed title with the reply's first 80 characters: a prefix of exactly 80 characters, or the whole reply when shorter |
| Notify.GenerateDailySummary | scripts/daily-notify.js:111-141 | a missing key fails before any call; a failed call fails; otherwise the brief read from the reply |
| Notify.SourceEntriesSnoc | scripts/daily-notify.js:164-166 | appending a source appends its numbered entry |
| Notify.FormatMessage | scripts/daily-notify.js:149-170 | the message built with `+=` equals the specified message |
| Notify.AppendEntries | scripts/daily-notify.js:164-166 | the `forEach` appends the numbered entries of the listed sources |
| Notify.SourceEntriesContain | scripts/daily-notify.js:164-166 | every listed source appears as a numbered entry |
| Notify.MessageShape | scripts/daily-notify.js:156-167 | the message opens with the dated head line, title and summary; it ends there when there are no sources; otherwise it holds `来源：` and each of the first two sources' numbered entries, and it equals the message built from the first two sources alone |
| NotifyReal.EntryOf | scripts/daily-notify-real.js:82-88 | fields copied; a missing description becomes `''` |
| NotifyReal.EntriesOf | scripts/daily-notify-real.js:82-88 | one entry per fetched item, in order |
| NotifyReal.SampleEntries | scripts/daily-notify-real.js:99-124 | the three sample items, stamped with the clock time and marked as samples |
| NotifyReal.GetDailyAIClues | scripts/daily-notify-real.js:75-129 | fetched items when a list is configured and something came back, the samples otherwise; never empty |
| NotifyReal.UserPromptListsSources | scripts/daily-notify-real.js:150-152 | the prompt lists every source with its number, title and summary |
| NotifyReal.GenerateDailySummary | scripts/daily-notify-real.js:154-170 | a missing key fails before any call; a failed call fails; the reply is cut to its first 100 characters: exactly 100 when longer, the whole reply otherwise |
| NotifyReal.TemplateCardShape | scripts/daily-notify-real.js:207-230 | summary; `min(3, n)` entries with values that are the titles' first 20 characters (exactly 20 when longer, whole otherwise) and urls copied; both links lead to the repository whatever the data |
| Card.CardDateUnchanged | scripts/daily-notify-real.js:183-187 | replacing `/` by `/` leaves the date unchanged |
| Card.HorizontalItemsShape | scripts/daily-notify-real.js:210-215 | `slice(0, 3).map(…)`: at most three entries with distinct keynames; each value is its title's first 20 characters (exactly 20 when longer, the whole title otherwise) and each url is copied |
| Card.TemplateCardFrame | scripts/daily-notify-real.js:189-231 | card type, source block, dated main title with its fixed description, summary, URL-typed news entries, and one titled jump entry and the card action, both URL-typed and leading to the target |
| Text.ReplaceAll | scripts/daily-notify-rss-text.js:88-91 | the global literal `replace`; stated by `Text.ReplaceAllIsSplitJoin` and the `ReplaceAll…` lemmas |
| Spam.ReplaceSpamPattern | scripts/daily-notify-rss.js:81-84 | one keyword's `[^\n]*K[^\n]*` replacement; stated by `Spam.ReplaceSpamPatternBlanksLines` |
| Spam.BlankLines | scripts/daily-notify-rss.js:79-85 | every keyword line blanked; stated by `Spam.BlankLinesPerLine`, `Spam.BlankLinesSpamFree` and `Spam.BlankLinesKeepsLineFeeds` |
| NewsItems.FindAnchor | scripts/daily-notify-rss.js:105-106 | the leftmost anchor match, whose url and caption are well formed; stated further by `NewsItems.AnchorRoundTrip` and `NewsItems.FindAnchorNone` |
| NewsItems.ItemOf | scripts/daily-notify-rss.js:108-121 | the item pushed for one cleaned fragment; stated by `NewsItems.ItemOfAnchor` and `NewsItems.ItemOfPlainText` |
| RssFeed.EntryOf | scripts/daily-notify-rss.js:36-61 | the entry read from one `<item>` block, kept only with content; stated by `RssFeed.EntriesExactly` and `RssFeed.EntryFields` |
| RssFeed.BuildTemplateCard | scripts/daily-notify-rss.js:228-280 | the card; stated by `RssFeed.TemplateCardShape` and `Card.TemplateCardFrame` |
| RssText.ExtractLatestItem | scripts/daily-notify-rss-text.js:72-119 | the first item, cleaned; stated by `RssText.LatestItemShape`, `RssText.MissingTitle`, `RssText.PresentTitle` and `RssText.ContentPrecedence` |
| RssText.WeChatText | scripts/daily-notify-rss-text.js:202-222 | the text message; stated by `RssText.WeChatTextFrame` |
| Dates.DateFromTitle | scripts/daily-notify-rss-text.js:126-144 | the title's first date, or yesterday; stated by `Dates.DateFromTitleSources` and `Dates.HeaderEchoesTitleDate` |
| Dates.HeaderLine | scripts/daily-notify-rss-text.js:205-212 | the `YYYY年MM月DD日AI简讯` line; stated by `Dates.HeaderLineDigits` and `Dates.HeaderOfInvalidDate` |
| Notify.BraceSpan | scripts/daily-notify.js:125-126 | the first-`{`-to-last-`}` candidate; stated by `Notify.BraceSpanShape` |
| Notify.MessageOf | scripts/daily-notify.js:149-170 | the formatted message; stated by `Notify.MessageShape` |
| NotifyReal.BuildTemplateCard | scripts/daily-notify-real.js:182-234 | the card; stated by `NotifyReal.TemplateCardShape` and `Card.TemplateCardFrame` |

## Left out

- HTTP: fetching the feed, sending to the webhook and the fetch calls are not
  modelled. The completed response (`ok`, status, body) and the fetched item
  list are inputs. A fetch that rejects is treated like any failed fetch.
- The chat model (`callDeepSeekAPI`) and the aggregator fetcher
  (`fetchDataByCategory`) are not part of this model. They are the parameters
  `call` and `fetched`.
- The system prompts are constant text sent to the model and are not modelled.
- `JSON.parse` is the parameter `parse`. `JSON.stringify` and the logging that
  uses it are left out.
- The clock and the locale are inputs:
  - `new Date().toISOString()` gives `today` and `now`;
  - `toLocaleDateString('zh-CN', …)` gives `localeDate`;
  - the day for the yesterday fallback is a `Date` value;
  - `NotifyReal.SampleEntries` stamps all three samples with one time `now`,
    while the script reads the clock once per sample, so the model does not
    capture samples whose times differ by the moments between those readings.
- `getFullYear`, `getMonth` and `getDate` are read as UTC. In another time zone
  a title date at 00:00 UTC can print as the previous day; that is not
  modelled.
- `process.env`, `console`, `process.exit` and the `main` functions are
  configuration, logging and exit codes, and are not modelled.
- `generateNewsFromRSS` of the text-message script is only a model call with a
  fixed prompt, and is not modelled. `scripts/test-debug.js` is not part of this
  model.
- Lengths are counted in characters. JavaScript counts UTF-16 code units, so
  `substring(0, 20)`, `substring(0, 50)`, `substring(0, 100)` and
  `text.length > 10` differ from the model for characters outside the Basic
  Multilingual Plane.
- The `i` flag of the spam patterns is not modelled. None of the five
  keywords has a cased letter, so case folding changes nothing.
- `Date` parsing follows V8's reading of `YYYY-MM-DDT00:00:00Z`:
  - a month outside 01–12 or a day outside 01–31 is an invalid date, printed as `NaN`;
  - a day past the month's end rolls over into the next month;
  - years are read as the four digits given.
- Dates.HeaderLineDigits: requires only that the month and day are in range and
  the year is not negative, rather than a fully valid date. Every day the
  parser produces meets this.
- RssFeed.GenerateDailySummary, NotifyReal.GenerateDailySummary: a failed call
  is returned as its error. The rethrow and its log line are not modelled.
- Behaviour of the code that differs from the repository's own description:
  - a feed entry with no content gives content `''` and raises no error;
  - the JSON candidate is the greedy span from the first `{` to the last `}`,
    not a balanced object;
  - links are copied into the card without any validity check.
