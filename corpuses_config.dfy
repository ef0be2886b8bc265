/**
 * Which articles of a code are skipped when a legal PDF corpus is
 * processed (src/parsers/corpuses/corpuses_config.py): a year maps code
 * names to lists of article filters.
 */
module CorpusesConfig {
  import opened Wrappers

  /** An article, optionally narrowed to a paragraph and a point. */
  datatype ArticleFilter = ArticleFilter(article: string, paragraph: Option<string>, point: Option<string>)

  /** `ArticleFilter.matches`: only the article is compared; paragraph and point are ignored. */
  predicate Matches(filter: ArticleFilter, article: string, paragraph: Option<string>, point: Option<string>) {
    filter.article == article
  }

  /** A filter matches exactly its own article, whatever paragraph and point the query or the filter name. */
  lemma MatchesOnlyArticle(filter: ArticleFilter, article: string, paragraph: Option<string>, point: Option<string>,
                           paragraph': Option<string>, point': Option<string>)
    ensures Matches(filter, article, paragraph, point) <==> filter.article == article
    ensures Matches(filter, article, paragraph, point) == Matches(filter, article, paragraph', point')
    ensures Matches(filter, article, paragraph, point) ==
            Matches(ArticleFilter(filter.article, None, None), article, paragraph, point)
  {
  }

  type SkipConfig = map<int, map<string, seq<ArticleFilter>>>

  function Filter(article: string, paragraph: Option<string>, point: Option<string>): ArticleFilter {
    ArticleFilter(article, paragraph, point)
  }

  /** `ARTICLES_TO_SKIP`. */
  const ArticlesToSkip: SkipConfig := map[
    2025 := map[
      "kks" := [
        Filter("31", Some("6"), None),
        Filter("53", Some("30d"), None),
        Filter("56b", Some("2"), None),
        Filter("83", Some("1"), None)
      ],
      "kpc" := [
        Filter("477^8", Some("2"), Some("4b")),
        Filter("479^61", Some("1"), None),
        Filter("479^66a", Some("1"), None),
        Filter("479^57", None, Some("2")),
        Filter("479^58", Some("1"), None)
      ],
      "kpsw" := [Filter("96", Some("1a"), Some("2"))],
      "krio" := [
        Filter("99", None, None),
        Filter("99^1", None, None),
        Filter("99^2", None, None),
        Filter("99^2a", None, None),
        Filter("99^3", None, None),
        Filter("183", Some("1"), None),
        Filter("183", Some("1^1"), None),
        Filter("183", Some("1^2"), None),
        Filter("183", Some("1^3"), None),
        Filter("183", Some("1^4"), None)
      ],
      "kw" := [Filter("82b", None, None)]
    ]
  ]

  /** Some filter configured for the year and code matches. */
  predicate Skipped(config: SkipConfig, year: int, kodeksName: string,
                    article: string, paragraph: Option<string>, point: Option<string>) {
    year in config && kodeksName in config[year] &&
    exists i :: 0 <= i < |config[year][kodeksName]| && Matches(config[year][kodeksName][i], article, paragraph, point)
  }

  /**
   * `should_skip_article` over a configuration (the source reads
   * `ArticlesToSkip`): false for an unconfigured year or code, otherwise
   * true exactly when a filter of that code matches.
   */
  method ShouldSkipArticle(config: SkipConfig, year: int, kodeksName: string,
                           article: string, paragraph: Option<string>, point: Option<string>) returns (r: bool)
    ensures year !in config ==> !r
    ensures year in config && kodeksName !in config[year] ==> !r
    ensures r <==> Skipped(config, year, kodeksName, article, paragraph, point)
  {
    if year !in config {
      return false;
    }
    var yearConfig := config[year];
    if kodeksName !in yearConfig {
      return false;
    }
    var filters := yearConfig[kodeksName];
    var i := 0;
    while i < |filters|
      invariant i <= |filters|
      invariant forall j :: 0 <= j < i ==> !Matches(filters[j], article, paragraph, point)
    {
      if Matches(filters[i], article, paragraph, point) {
        return true;
      }
      i := i + 1;
    }
    return false;
  }

  /** Because only articles are compared, a skipped article is skipped in every paragraph and point. */
  lemma SkippedWholeArticle(config: SkipConfig, year: int, kodeksName: string, article: string,
                            paragraph: Option<string>, point: Option<string>,
                            paragraph': Option<string>, point': Option<string>)
    requires Skipped(config, year, kodeksName, article, paragraph, point)
    ensures Skipped(config, year, kodeksName, article, paragraph', point')
  {
    var i :| 0 <= i < |config[year][kodeksName]| && Matches(config[year][kodeksName][i], article, paragraph, point);
    assert Matches(config[year][kodeksName][i], article, paragraph', point');
  }

  /** Only the 2025 corpus has articles to skip, for five codes. */
  lemma ConfiguredCodes(year: int, kodeksName: string, article: string, paragraph: Option<string>, point: Option<string>)
    requires year != 2025 || kodeksName !in {"kks", "kpc", "kpsw", "krio", "kw"}
    ensures !Skipped(ArticlesToSkip, year, kodeksName, article, paragraph, point)
  {
  }

  /** The family code's article 183 is skipped in paragraph 5 too, though only paragraphs 1 to 1^4 are listed. */
  lemma FamilyCodeArticle183()
    ensures Skipped(ArticlesToSkip, 2025, "krio", "183", Some("5"), None)
  {
    assert Matches(ArticlesToSkip[2025]["krio"][5], "183", Some("5"), None);
  }
}
