/** The WeCom "text_notice" template card that both card-sending scripts build:
    a fixed source banner, a dated main title, the summary as sub-title, up to
    three news links, and one jump target. */
module Card {
  import opened Text

  datatype CardSource = CardSource(iconUrl: string, desc: string, descColor: nat)

  datatype MainTitle = MainTitle(title: string, desc: string)

  /** One entry of `horizontal_content_list`; `kind` is the card's `type` field. */
  datatype HorizontalItem = HorizontalItem(keyname: string, value: string, kind: nat, url: string)

  /** One entry of `jump_list`. */
  datatype JumpItem = JumpItem(kind: nat, url: string, title: string)

  datatype CardAction = CardAction(kind: nat, url: string)

  datatype TemplateCard = TemplateCard(
    cardType: string,
    source: CardSource,
    mainTitle: MainTitle,
    subTitleText: string,
    horizontalContentList: seq<HorizontalItem>,
    jumpList: seq<JumpItem>,
    cardAction: CardAction)

  /** A news source as the card sees it: a title and the URL it links to. */
  datatype Link = Link(title: string, url: string)

  const IconUrl: string := "https://wework.qpic.cn/wwpic/252813_jOfDHtcISzuodLa_1629280209/0"
  const SourceDesc: string := "AI 每日简讯"
  /** Green, in the card's colour codes. */
  const SourceColor: nat := 3
  const MainDesc: string := "每日 AI 行业动态精选"
  const JumpTitle: string := "查看全部"
  /** The `type` value that makes an entry a URL link. */
  const UrlKind: nat := 1
  /** At most this many news links are shown. */
  const MaxLinks: nat := 3
  /** A link's shown value is cut to this many characters. */
  const MaxValue: nat := 20

  /** `localeDate.replace(/\//g, '/')`: the date string the clock and locale
      produce, with every slash replaced by a slash. */
  function CardDate(localeDate: string): (r: string)
  {
    ReplaceAll(localeDate, "/", "/")
  }

  /** The replacement on the date changes nothing. */
  lemma CardDateUnchanged(localeDate: string)
    ensures CardDate(localeDate) == localeDate
  {
    ReplaceAllSelf(localeDate, "/");
  }

  /** `新闻${index + 1}`. */
  function Keyname(index: nat): string
  {
    "新闻" + NatToString(index + 1)
  }

  /** `sources.slice(0, 3).map((source, index) => ({ ... }))`. */
  function HorizontalItems(links: seq<Link>): seq<HorizontalItem>
  {
    var shown := Take(links, MaxLinks);
    seq(|shown|, i requires 0 <= i < |shown| =>
      HorizontalItem(Keyname(i), Take(shown[i].title, MaxValue), UrlKind, shown[i].url))
  }

  /** The news list shows the first `min(3, n)` links in order, each numbered
      from 1, valued by a prefix of at most twenty characters of its title and
      linking to its URL unchanged; the key names are pairwise distinct. */
  lemma HorizontalItemsShape(links: seq<Link>)
    ensures |HorizontalItems(links)| == if |links| < MaxLinks then |links| else MaxLinks
    ensures forall i :: 0 <= i < |HorizontalItems(links)| ==>
              && HorizontalItems(links)[i].value <= links[i].title
              && |HorizontalItems(links)[i].value| <= MaxValue
              && (|links[i].title| <= MaxValue ==> HorizontalItems(links)[i].value == links[i].title)
              && (|links[i].title| > MaxValue ==> |HorizontalItems(links)[i].value| == MaxValue)
              && HorizontalItems(links)[i].url == links[i].url
              && HorizontalItems(links)[i].kind == UrlKind
              && HorizontalItems(links)[i].keyname == Keyname(i)
    ensures forall i, j :: 0 <= i < j < |HorizontalItems(links)| ==>
              HorizontalItems(links)[i].keyname != HorizontalItems(links)[j].keyname
  {
    var h := HorizontalItems(links);
    forall i, j | 0 <= i < j < |h| ensures h[i].keyname != h[j].keyname {
      var p := "新闻";
      assert h[i].keyname[|p|..] == NatToString(i + 1);
      assert h[j].keyname[|p|..] == NatToString(j + 1);
      NatToStringInjective(i + 1, j + 1);
    }
  }

  /** The card every variant builds, with the jump target `target` used by both
      `jump_list` and `card_action`. */
  function TemplateCardOf(localeDate: string, summary: string, links: seq<Link>, target: string): TemplateCard
  {
    TemplateCard(
      "text_notice",
      CardSource(IconUrl, SourceDesc, SourceColor),
      MainTitle(CardDate(localeDate) + " AI 简讯", MainDesc),
      summary,
      HorizontalItems(links),
      [JumpItem(UrlKind, target, JumpTitle)],
      CardAction(UrlKind, target))
  }

  /** The card's fixed frame: the banner, the main title built on the date with
      its fixed description, the summary shown as is, URL-typed news entries,
      and one titled jump entry and the card action both leading to `target`. */
  lemma TemplateCardFrame(localeDate: string, summary: string, links: seq<Link>, target: string)
    ensures var c := TemplateCardOf(localeDate, summary, links, target);
      && c.cardType == "text_notice"
      && c.source == CardSource(IconUrl, SourceDesc, SourceColor)
      && c.mainTitle.title == localeDate + " AI 简讯"
      && c.mainTitle.desc == MainDesc
      && c.subTitleText == summary
      && (forall i :: 0 <= i < |c.horizontalContentList| ==> c.horizontalContentList[i].kind == UrlKind)
      && |c.jumpList| == 1
      && c.jumpList[0] == JumpItem(UrlKind, target, JumpTitle)
      && c.cardAction == CardAction(UrlKind, target)
  {
    CardDateUnchanged(localeDate);
  }
}
