/**
  What both scrapers read off a movie's detail page, and the record they build
  from it. The parsed page is abstracted to the two things the scrapers ask of
  it: the `src` of the poster image and the texts of the paragraphs in the
  facts section.
 */
module Extraction {
  import opened Wrappers
  import opened Strings
  import opened Rows
  import opened Cleaners

  /**
    A parsed detail page. `poster` is missing when there is no
    `img.poster.w-full` or it has no `src`; `facts` is missing when there is
    no `section.facts.left_column`.
   */
  datatype Page = Page(poster: Option<string>, facts: Option<seq<string>>)

  /** The three paragraph texts the cleaners are applied to. */
  datatype FactTexts = FactTexts(lang: string, budget: string, revenue: string)

  /**
    The positional rule: four paragraphs hold language, budget and revenue at
    1, 2 and 3; any other count holds them at 2, 3 and 4, and indexing fails
    when there are fewer than five.
   */
  function SelectFacts(ps: seq<string>): (r: Option<FactTexts>)
    ensures r.Some? <==> |ps| >= 4
    ensures r.Some? ==>
      var o := if |ps| == 4 then 1 else 2;
      r.value == FactTexts(ps[o], ps[o + 1], ps[o + 2])
  {
    if |ps| == 4 then Some(FactTexts(ps[1], ps[2], ps[3]))
    else if |ps| >= 5 then Some(FactTexts(ps[2], ps[3], ps[4]))
    else None
  }

  /** A page with one paragraph more in front of the four-paragraph layout yields the same texts. */
  lemma SelectFactsShifted(x: string, ps: seq<string>)
    requires |ps| == 4
    ensures SelectFacts([x] + ps) == SelectFacts(ps)
  {
  }

  /** Paragraphs after the fifth are never read. */
  lemma SelectFactsIgnoresTail(ps: seq<string>, extra: seq<string>)
    requires |ps| >= 5
    ensures SelectFacts(ps + extra) == SelectFacts(ps)
  {
  }

  /** The cleaned values: budget, revenue and language. */
  datatype Fields = Fields(budget: Option<real>, revenue: Option<real>, lang: string)

  /** The three cleaners applied to the selected texts; `.text` is always a string. */
  function CleanFacts(f: FactTexts): (r: Fields)
    ensures r.budget.Some? ==> CurrencyText(f.budget) != []
    ensures r.revenue.Some? ==> CurrencyText(f.revenue) != []
    ensures IsStripped(r.lang)
  {
    Fields(CurrencyCleaner(f.budget), CurrencyCleaner(f.revenue), LangCleaner(Text(f.lang)))
  }

  /** The cleaned fields of a page, missing where selecting its facts raises. */
  function PageFields(page: Page): (r: Option<Fields>)
    ensures r.Some? <==> page.facts.Some? && |page.facts.value| >= 4
  {
    match page.facts
    case None => None
    case Some(ps) =>
      match SelectFacts(ps)
      case None => None
      case Some(f) => Some(CleanFacts(f))
  }

  /** The dict a scraper returns, `original_index` included. `None` is NaN. */
  datatype Record = Record(originalIndex: int, imgLink: string, budget: Option<real>,
                           revenue: Option<real>, lang: string)

  /** The dict both scrapers start from: `''`, 0.0, 0.0, `''`. */
  function DefaultRecord(index: int): Record {
    Record(index, "", Some(0.0), Some(0.0), "")
  }

  /** The four assignments that complete a record. */
  function WithFields(rec: Record, img: string, f: Fields): Record {
    rec.(imgLink := img, budget := f.budget, revenue := f.revenue, lang := f.lang)
  }
}
