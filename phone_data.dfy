/**
 * `fetch_phone_data_bs4` (scraper.py:113-140): fetch one product page,
 * apply every rule of the spec-definition table, walk the review, and
 * derive the review status; on a network error, mark every field failed.
 */
module PhoneData {
  import opened Text
  import opened Dom
  import opened Extractor
  import opened Review

  /** The value every field gets when the product page cannot be fetched. */
  const FetchFailedValue := "Veri Çekme Başarısız"

  /** The two review statuses (scraper.py:126-128). */
  const ReviewPresent := "Review Var"
  const ReviewAbsent := "Review Yok"

  /** The placeholder put where a processed review would go (scraper.py:130). */
  const ProcessedPlaceholder := "Gemini API HTTP"

  /** Both review contents after a network error (scraper.py:140). */
  const ErrorContent := "Hata oluştu"

  /** The status reported after a network error (scraper.py:134). */
  function NetworkErrorStatus(error: string): string {
    "Ağ Hatası (" + error + ")"
  }

  /** A Python dict from labels to values: its keys in insertion order, and
      the mapping. Assigning to a present key changes its value but not its
      place. */
  datatype Dict = Dict(order: seq<string>, values: map<string, string>) {

    /** Every listed key is mapped, every mapped key is listed, once. */
    ghost predicate Valid() {
      && (forall i :: 0 <= i < |order| ==> order[i] in values)
      && (forall k :: k in values ==> k in order)
      && (forall i, j :: 0 <= i < j < |order| ==> order[i] != order[j])
    }

    /** `d[key] = value`. */
    function Put(key: string, value: string): (d: Dict)
      ensures d.values == values[key := value]
      ensures d.order == if key in values then order else order + [key]
    {
      if key in values then Dict(order, values[key := value])
      else Dict(order + [key], values[key := value])
    }

    /** `d.get(key, default)`. */
    function Get(key: string, default: string): string {
      if key in values then values[key] else default
    }

    /** `d.items()`: the pairs in insertion order. */
    function Items(): (items: seq<(string, string)>)
      ensures |items| == |order|
    {
      seq(|order|, i requires 0 <= i < |order| => (order[i], Get(order[i], "")))
    }
  }

  const EmptyDict := Dict([], map[])

  /** `d[key] = value` keeps a well-formed dict well formed. */
  lemma PutKeepsValid(d: Dict, key: string, value: string)
    requires d.Valid()
    ensures d.Put(key, value).Valid()
  {
  }

  /** The labels of a rule list. */
  function Labels(rules: seq<Rule>): seq<string> {
    seq(|rules|, i requires 0 <= i < |rules| => rules[i].name)
  }

  /** No two rules share a label. */
  ghost predicate DistinctLabels(rules: seq<Rule>) {
    forall i, j :: 0 <= i < j < |rules| ==> rules[i].name != rules[j].name
  }

  /** `i` is the last rule labelled `key`. */
  ghost predicate LastWithLabel(rules: seq<Rule>, key: string, i: int) {
    0 <= i < |rules| && rules[i].name == key &&
    forall j :: i < j < |rules| ==> rules[j].name != key
  }

  /** The dict built by `d[rule.label] = valueOf(rule)` for each rule in
      order. */
  function BuildDict(rules: seq<Rule>, valueOf: Rule -> string): Dict
    decreases |rules|
  {
    if rules == [] then EmptyDict
    else
      var n := |rules| - 1;
      BuildDict(rules[..n], valueOf).Put(rules[n].name, valueOf(rules[n]))
  }

  /** The built dict is a well-formed dict. */
  lemma {:induction false} BuildDictValid(rules: seq<Rule>, valueOf: Rule -> string)
    ensures BuildDict(rules, valueOf).Valid()
    decreases |rules|
  {
    if rules != [] {
      var n := |rules| - 1;
      BuildDictValid(rules[..n], valueOf);
      PutKeepsValid(BuildDict(rules[..n], valueOf), rules[n].name, valueOf(rules[n]));
    }
  }

  /** One step of `BuildDict`: the last rule's assignment. */
  lemma BuildDictStep(rules: seq<Rule>, valueOf: Rule -> string)
    requires rules != []
    ensures var n := |rules| - 1;
      var prefix := BuildDict(rules[..n], valueOf);
      && BuildDict(rules, valueOf).values == prefix.values[rules[n].name := valueOf(rules[n])]
      && BuildDict(rules, valueOf).order == if rules[n].name in prefix.values then prefix.order else prefix.order + [rules[n].name]
  {
  }

  /** The keys of the built dict are exactly the labels of the rules. */
  lemma {:induction false} BuildDictKeys(rules: seq<Rule>, valueOf: Rule -> string)
    ensures forall k :: k in BuildDict(rules, valueOf).values <==> k in Labels(rules)
    decreases |rules|
  {
    if rules != [] {
      var n := |rules| - 1;
      BuildDictKeys(rules[..n], valueOf);
      BuildDictStep(rules, valueOf);
      assert Labels(rules) == Labels(rules[..n]) + [rules[n].name];
    }
  }

  /** Each key of the built dict holds the value of the last rule with that
      label: a later rule overwrites an earlier one. */
  lemma {:induction false} BuildDictLastWins(rules: seq<Rule>, valueOf: Rule -> string, key: string)
    requires key in BuildDict(rules, valueOf).values
    ensures exists i :: LastWithLabel(rules, key, i) && BuildDict(rules, valueOf).values[key] == valueOf(rules[i])
    decreases |rules|
  {
    assert rules != [];
    var n := |rules| - 1;
    var prefix := BuildDict(rules[..n], valueOf);
    var values := BuildDict(rules, valueOf).values;
    BuildDictStep(rules, valueOf);
    if key == rules[n].name {
      assert values[key] == valueOf(rules[n]);
      assert LastWithLabel(rules, key, n);
    } else {
      assert key in prefix.values && values[key] == prefix.values[key];
      BuildDictLastWins(rules[..n], valueOf, key);
      var i :| LastWithLabel(rules[..n], key, i) && prefix.values[key] == valueOf(rules[..n][i]);
      LastWithLabelExtends(rules, key, i);
      assert values[key] == valueOf(rules[i]);
    }
  }

  /** The last rule labelled `key` among all but the final rule stays the
      last one when the final rule has another label. */
  lemma LastWithLabelExtends(rules: seq<Rule>, key: string, i: int)
    requires rules != [] && rules[|rules| - 1].name != key
    requires LastWithLabel(rules[..|rules| - 1], key, i)
    ensures LastWithLabel(rules, key, i) && rules[..|rules| - 1][i] == rules[i]
  {
    var n := |rules| - 1;
    forall j | i < j < |rules| ensures rules[j].name != key {
      if j < n {
        assert rules[..n][j] == rules[j];
      }
    }
  }

  /** With distinct labels, the dict lists every rule's label once, in rule
      order. */
  lemma {:induction false} BuildDictInRuleOrder(rules: seq<Rule>, valueOf: Rule -> string)
    requires DistinctLabels(rules)
    ensures BuildDict(rules, valueOf).order == Labels(rules)
    decreases |rules|
  {
    if rules != [] {
      var n := |rules| - 1;
      var prefix := BuildDict(rules[..n], valueOf);
      BuildDictInRuleOrder(rules[..n], valueOf);
      BuildDictKeys(rules[..n], valueOf);
      BuildDictStep(rules, valueOf);
      assert Labels(rules) == Labels(rules[..n]) + [rules[n].name];
      assert rules[n].name !in prefix.values;
    }
  }

  /** With distinct labels, each rule's label holds that rule's value. */
  lemma BuildDictHoldsEachRule(rules: seq<Rule>, valueOf: Rule -> string, i: int)
    requires DistinctLabels(rules)
    requires 0 <= i < |rules|
    ensures BuildDict(rules, valueOf).Get(rules[i].name, "") == valueOf(rules[i])
  {
    var key := rules[i].name;
    BuildDictKeys(rules, valueOf);
    assert Labels(rules)[i] == key;
    BuildDictLastWins(rules, valueOf, key);
    var j :| LastWithLabel(rules, key, j) && BuildDict(rules, valueOf).values[key] == valueOf(rules[j]);
    assert i == j;
  }

  /** Each rule's label paired with its value, in rule order. */
  function RulePairs(rules: seq<Rule>, valueOf: Rule -> string): seq<(string, string)> {
    seq(|rules|, i requires 0 <= i < |rules| => (rules[i].name, valueOf(rules[i])))
  }

  /** With distinct labels, `items()` of the built dict is each rule's label
      and value, in rule order. */
  lemma ItemsFollowRules(rules: seq<Rule>, valueOf: Rule -> string)
    requires DistinctLabels(rules)
    ensures BuildDict(rules, valueOf).Items() == RulePairs(rules, valueOf)
  {
    var d := BuildDict(rules, valueOf);
    BuildDictInRuleOrder(rules, valueOf);
    forall i | 0 <= i < |rules| ensures d.Items()[i] == RulePairs(rules, valueOf)[i] {
      assert d.order[i] == rules[i].name;
      BuildDictHoldsEachRule(rules, valueOf, i);
    }
  }

  /** The dict of the failure path (scraper.py:139). */
  function FailedSpecs(rules: seq<Rule>): Dict {
    BuildDict(rules, _ => FetchFailedValue)
  }

  /** The failure dict has every label of the table as a key, each mapped
      to the failure value. */
  lemma FailedSpecsMarkEveryLabel(rules: seq<Rule>)
    ensures forall k :: k in FailedSpecs(rules).values <==> k in Labels(rules)
    ensures forall k :: k in FailedSpecs(rules).values ==> FailedSpecs(rules).values[k] == FetchFailedValue
  {
    BuildDictKeys(rules, _ => FetchFailedValue);
    forall k | k in FailedSpecs(rules).values ensures FailedSpecs(rules).values[k] == FetchFailedValue {
      BuildDictLastWins(rules, _ => FetchFailedValue, k);
    }
  }

  /** The value every rule gets from page `page`. */
  function FieldValues(page: Page): Rule -> string {
    rule => ExtractField(page, rule)
  }

  /** The review status: absent exactly when the raw review text mentions
      one of the walker's two "no review" phrases (scraper.py:126-128). */
  function ReviewStatus(rawReview: string): (status: string)
    ensures status == ReviewAbsent <==> Contains(rawReview, NoReviewPhrase) || Contains(rawReview, NotFoundPhrase)
    ensures status == ReviewAbsent || status == ReviewPresent
  {
    if Contains(rawReview, NoReviewPhrase) || Contains(rawReview, NotFoundPhrase) then ReviewAbsent
    else ReviewPresent
  }

  /** The four results of `fetch_phone_data_bs4`. */
  datatype Scraped = Scraped(specs: Dict, reviewStatus: string, processedReview: string, rawReview: string)

  /** What `fetch_phone_data_bs4(session, url, rules)` returns, given the
      response to its request for `url` and the responses the review walker
      gets for its own requests. */
  function ScrapedData(detail: Response<Page>, fetch: string -> Response<ReviewPage>,
                       join: (string, string) -> string, url: string, rules: seq<Rule>): Scraped
  {
    match detail
    case Failed(e) => Scraped(FailedSpecs(rules), NetworkErrorStatus(e), ErrorContent, ErrorContent)
    case Ok(page) =>
      var raw := ReviewText(fetch, join, url);
      Scraped(BuildDict(rules, FieldValues(page)), ReviewStatus(raw), ProcessedPlaceholder, raw)
  }

  /** Whether the product page was fetched or not, the specs dict returned
      is a well-formed dict. */
  lemma ScrapedSpecsValid(detail: Response<Page>, fetch: string -> Response<ReviewPage>,
                          join: (string, string) -> string, url: string, rules: seq<Rule>)
    ensures ScrapedData(detail, fetch, join, url, rules).specs.Valid()
  {
    match detail
    case Failed(_) => BuildDictValid(rules, _ => FetchFailedValue);
    case Ok(page) => BuildDictValid(rules, FieldValues(page));
  }

  /** `fetch_phone_data_bs4`: the loop filling `specs_data_dict`, then the
      review walk and the status. */
  method FetchPhoneData(detail: Response<Page>, fetch: string -> Response<ReviewPage>,
                        join: (string, string) -> string, url: string, rules: seq<Rule>)
    returns (data: Scraped)
    ensures data == ScrapedData(detail, fetch, join, url, rules)
    ensures data.specs.Valid()
  {
    ScrapedSpecsValid(detail, fetch, join, url, rules);
    if detail.Failed? {
      return Scraped(FailedSpecs(rules), NetworkErrorStatus(detail.error), ErrorContent, ErrorContent);
    }
    var page := detail.page;
    var specs := EmptyDict;
    for i := 0 to |rules|
      invariant specs == BuildDict(rules[..i], FieldValues(page))
    {
      assert rules[..i + 1][..i] == rules[..i];
      specs := specs.Put(rules[i].name, ExtractField(page, rules[i]));
    }
    assert rules[..|rules|] == rules;
    var raw, _ := FetchReviewText(fetch, join, url);
    data := Scraped(specs, ReviewStatus(raw), ProcessedPlaceholder, raw);
  }

  /** Each of the walker's "no review" results yields status "Review Yok". */
  lemma SentinelsMeanNoReview(error: string)
    ensures ReviewStatus(MainPageFailedText(error)) == ReviewAbsent
    ensures ReviewStatus(NoReviewLinkText) == ReviewAbsent
    ensures ReviewStatus(NoParagraphsText) == ReviewAbsent
  {
    StartsWithContains(MainPageFailedText(error), NoReviewPhrase);
    StartsWithContains(NoReviewLinkText, NoReviewPhrase);
    StartsWithContains(NoParagraphsText, NotFoundPhrase);
  }

  /** "Review Var" is only reported when the walker collected paragraphs,
      and the raw review is then those paragraphs separated by blank lines. */
  lemma ReviewPresentMeansParagraphs(fetch: string -> Response<ReviewPage>, join: (string, string) -> string, url: string)
    requires ReviewStatus(ReviewText(fetch, join, url)) == ReviewPresent
    ensures fetch(url).Ok? && fetch(url).page.reviewHref.Some?
    ensures var w := Walk(fetch, join, url, FirstReviewUrl(fetch, join, url), MaxReviewPages);
      w.paragraphs != [] && ReviewText(fetch, join, url) == Join(w.paragraphs, ParagraphSeparator)
  {
    SentinelsMeanNoReview(if fetch(url).Failed? then fetch(url).error else "");
  }

  /** The status looks at the text, not at whether paragraphs were found: a
      review whose first paragraph opens with "İnceleme Metni Yok" is
      reported as "Review Yok". */
  lemma ParagraphCanHideReview(fetch: string -> Response<ReviewPage>, join: (string, string) -> string, url: string)
    requires fetch(url).Ok? && fetch(url).page.reviewHref.Some?
    requires var w := Walk(fetch, join, url, FirstReviewUrl(fetch, join, url), MaxReviewPages);
      w.paragraphs != [] && StartsWith(w.paragraphs[0], NoReviewPhrase)
    ensures ReviewStatus(ReviewText(fetch, join, url)) == ReviewAbsent
  {
    var w := Walk(fetch, join, url, FirstReviewUrl(fetch, join, url), MaxReviewPages);
    var text := Join(w.paragraphs, ParagraphSeparator);
    assert StartsWith(text, w.paragraphs[0]);
    assert text[..|NoReviewPhrase|] == w.paragraphs[0][..|NoReviewPhrase|];
    StartsWithContains(text, NoReviewPhrase);
  }

  /** After a network error every field holds the failure value, the
      status names the error and both review contents are the error text. */
  lemma NetworkErrorMarksEveryField(error: string, fetch: string -> Response<ReviewPage>,
                                    join: (string, string) -> string, url: string, rules: seq<Rule>)
    ensures var data := ScrapedData(Failed(error), fetch, join, url, rules);
      && (forall k :: k in data.specs.values <==> k in Labels(rules))
      && (forall i :: 0 <= i < |rules| ==> data.specs.Get(rules[i].name, "") == FetchFailedValue)
      && data.reviewStatus == NetworkErrorStatus(error)
      && data.rawReview == ErrorContent
  {
    var d := FailedSpecs(rules);
    FailedSpecsMarkEveryLabel(rules);
    forall i | 0 <= i < |rules| ensures d.Get(rules[i].name, "") == FetchFailedValue {
      assert Labels(rules)[i] == rules[i].name;
    }
  }
}
