/** The `Paper` record every stage of the digest passes along. */
module Papers {

  /** One collected article. `publishedDate` is a UTC timestamp in whole seconds;
      the fields after `link` are derived by later stages and start at their defaults. */
  datatype Paper = Paper(
    title: string,
    abstractText: string,
    doi: string,
    authors: seq<string>,
    journal: string,
    publishedDate: int,
    link: string,
    keywords: seq<string>,
    relevanceScore: real,
    summary: string,
    novelty: string,
    tags: seq<string>,
    ppelScore: int,
    relevanceLabel: string)

  /** The derived fields hold the dataclass defaults. */
  predicate HasDefaults(p: Paper)
  {
    && p.keywords == [] && p.relevanceScore == 0.0 && p.summary == "" && p.novelty == ""
    && p.tags == [] && p.ppelScore == 0 && p.relevanceLabel == ""
  }

  /** The constructor call with only the collected fields given. */
  function NewPaper(title: string, abstractText: string, doi: string, authors: seq<string>,
                    journal: string, publishedDate: int, link: string): (p: Paper)
    ensures HasDefaults(p)
    ensures p.title == title && p.abstractText == abstractText && p.doi == doi && p.authors == authors
    ensures p.journal == journal && p.publishedDate == publishedDate && p.link == link
  {
    Paper(title, abstractText, doi, authors, journal, publishedDate, link, [], 0.0, "", "", [], 0, "")
  }
}
