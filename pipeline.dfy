/**
 * `process_url_wrapper` (scraper.py:162-198): normalise the URL, scrape the
 * product, and submit a record to the storage endpoint only when a usable
 * model name was scraped.
 */
module Pipeline {
  import opened Wrappers
  import opened Text
  import opened Dom
  import opened Extractor
  import opened Review
  import opened PhoneData

  const Http := "http://"
  const Https := "https://"

  /** Labels the record carries in fields of their own, not in `specs`. */
  const ModelNameLabel := "Model Adı"
  const ImageLabel := "Resim URL"

  /** Defaults and sentinels of the record assembly (scraper.py:176-185). */
  const UnknownModel := "Bilinmeyen Model"
  const NoModelName := "Model Adı Yok"
  const NoBrand := "Marka Yok"
  const NoImage := "Resim Yok"

  predicate HasScheme(url: string) {
    StartsWith(url, Http) || StartsWith(url, Https)
  }

  /** The URL, stripped, with `https://` put in front unless it already
      starts with `http://` or `https://` (scraper.py:169-171). */
  function NormalizeUrl(url: string): (r: string)
    ensures HasScheme(r) && IsStripped(r)
    ensures r == Strip(url) <==> HasScheme(Strip(url))
    ensures r != Strip(url) ==> r == Https + Strip(url)
  {
    var s := Strip(url);
    if HasScheme(s) then s
    else
      WithHttps(s);
      Https + s
  }

  /** Putting `https://` in front of a stripped string gives a stripped
      string with a scheme, different from the one it started from. */
  lemma WithHttps(s: string)
    requires IsStripped(s)
    ensures HasScheme(Https + s) && IsStripped(Https + s) && Https + s != s
  {
    var r := Https + s;
    assert r[..|Https|] == Https;
    assert r[0] == 'h';
    assert r[|r| - 1] == if s == [] then '/' else s[|s| - 1];
    assert |r| == |s| + |Https|;
  }

  /** Normalising a normalised URL changes nothing. */
  lemma NormalizeIdempotent(url: string)
    ensures NormalizeUrl(NormalizeUrl(url)) == NormalizeUrl(url)
  {
  }

  /** The model-name gate (scraper.py:177): the name is non-empty, is not
      the title rule's default, and does not carry the network-failure
      value. */
  predicate ModelNameUsable(name: string) {
    !Contains(name, FetchFailedValue) && name != [] && name != NoModelName
  }

  /** The brand (scraper.py:181): the text before the first space of the
      model name, or "Marka Yok" when the name mentions "Bilinmeyen Model". */
  function Brand(name: string): (brand: string)
    ensures Contains(name, UnknownModel) ==> brand == NoBrand
    ensures !Contains(name, UnknownModel) ==>
      StartsWith(name, brand) && ' ' !in brand && (|brand| < |name| ==> name[|brand|] == ' ')
  {
    if Contains(name, UnknownModel) then NoBrand else FirstToken(name)
  }

  /** For a name `word + " " + rest`, the brand is `word`. */
  lemma BrandIsFirstWord(word: string, rest: string)
    requires ' ' !in word
    requires !Contains(word + " " + rest, UnknownModel)
    ensures Brand(word + " " + rest) == word
  {
    var name := word + " " + rest;
    var b := Brand(name);
    assert name[|word|] == ' ';
    assert b == name[..|b|] == word;
  }

  /** A field of `specs`. */
  datatype Spec = Spec(name: string, value: string)

  predicate OwnField(name: string) {
    name == ModelNameLabel || name == ImageLabel
  }

  /** The `specs` list comprehension (scraper.py:188): every item whose
      label is neither "Model Adı" nor "Resim URL", in order. */
  function RecordSpecs(items: seq<(string, string)>): (specs: seq<Spec>)
    ensures |specs| <= |items|
    ensures forall i :: 0 <= i < |specs| ==> !OwnField(specs[i].name)
    ensures forall i :: 0 <= i < |items| && !OwnField(items[i].0) ==> Spec(items[i].0, items[i].1) in specs
    ensures forall s :: s in specs ==> (s.name, s.value) in items
  {
    if items == [] then []
    else
      var rest := RecordSpecs(items[1..]);
      assert forall i :: 1 <= i < |items| ==> items[i] == items[1..][i - 1];
      if OwnField(items[0].0) then rest else [Spec(items[0].0, items[0].1)] + rest
  }

  /** The comprehension distributes over concatenation, so the order of the
      items is kept. */
  lemma {:induction false} RecordSpecsAppend(a: seq<(string, string)>, b: seq<(string, string)>)
    ensures RecordSpecs(a + b) == RecordSpecs(a) + RecordSpecs(b)
    decreases |a|
  {
    if a == [] {
      assert a + b == b;
    } else {
      assert (a + b)[1..] == a[1..] + b;
      RecordSpecsAppend(a[1..], b);
    }
  }

  /** The record sent to the storage endpoint (scraper.py:182-189). */
  datatype Record = Record(
    url: string,
    modelName: string,
    brand: string,
    imageUrl: string,
    reviewStatus: string,
    processedReviewContent: string,
    rawReviewContent: string,
    specs: seq<Spec>)

  /** `specs_dict.get("Model Adı", "Bilinmeyen Model")`. */
  function ModelName(specs: Dict): string {
    specs.Get(ModelNameLabel, UnknownModel)
  }

  /** The record for a scraped product, or None when the gate stops it. */
  function RecordFor(url: string, data: Scraped): (r: Option<Record>)
    ensures r.None? <==> !ModelNameUsable(ModelName(data.specs))
    ensures r.Some? ==>
      && r.value.url == url
      && r.value.modelName == ModelName(data.specs)
      && r.value.modelName != [] && r.value.modelName != NoModelName
      && !Contains(r.value.modelName, FetchFailedValue)
      && r.value.brand == Brand(r.value.modelName)
      && r.value.imageUrl == data.specs.Get(ImageLabel, NoImage)
      && r.value.reviewStatus == data.reviewStatus
      && r.value.processedReviewContent == data.processedReview
      && r.value.rawReviewContent == data.rawReview
      && r.value.specs == RecordSpecs(data.specs.Items())
  {
    var name := ModelName(data.specs);
    if !ModelNameUsable(name) then None
    else Some(Record(url, name, Brand(name), data.specs.Get(ImageLabel, NoImage), data.reviewStatus,
                     data.processedReview, data.rawReview, RecordSpecs(data.specs.Items())))
  }

  /** The storage endpoint (`save_data_to_php`, scraper.py:142-160): it logs
      every record it is sent, and whether it reports success is an input. */
  class Sink {
    const accepts: Record -> bool
    var received: seq<Record>

    constructor (accepts: Record -> bool)
      ensures this.accepts == accepts && received == []
    {
      this.accepts := accepts;
      received := [];
    }

    method Save(record: Record) returns (saved: bool)
      modifies this
      ensures received == old(received) + [record]
      ensures saved == accepts(record)
    {
      received := received + [record];
      saved := accepts(record);
    }
  }

  /** `process_url_wrapper`: the product page request goes to `detailOf`,
      the review walker's requests to `fetch`. */
  method ProcessUrl(url: string, rules: seq<Rule>, detailOf: string -> Response<Page>,
                    fetch: string -> Response<ReviewPage>, join: (string, string) -> string, sink: Sink)
    returns (success: bool, currentUrl: string)
    modifies sink
    ensures currentUrl == NormalizeUrl(url)
    ensures var record := RecordFor(currentUrl, ScrapedData(detailOf(currentUrl), fetch, join, currentUrl, rules));
      && (record.None? ==> sink.received == old(sink.received) && !success)
      && (record.Some? ==> sink.received == old(sink.received) + [record.value] && success == sink.accepts(record.value))
  {
    currentUrl := NormalizeUrl(url);
    var data := FetchPhoneData(detailOf(currentUrl), fetch, join, currentUrl, rules);
    var record := RecordFor(currentUrl, data);
    if record.None? {
      return false, currentUrl;
    }
    success := sink.Save(record.value);
  }

  /** A name shorter than a phrase does not contain it. */
  lemma {:induction false} ShortNeverContains(s: string, sub: string)
    requires |s| < |sub|
    ensures !Contains(s, sub)
    decreases |s|
  {
    if |s| > 0 {
      ShortNeverContains(s[1..], sub);
    }
  }

  /** When the product page cannot be fetched and the table has a title
      rule, nothing is submitted. */
  lemma NetworkErrorNeverSubmits(error: string, fetch: string -> Response<ReviewPage>,
                                 join: (string, string) -> string, url: string, rules: seq<Rule>)
    requires exists i :: 0 <= i < |rules| && rules[i].name == ModelNameLabel
    ensures RecordFor(url, ScrapedData(Failed(error), fetch, join, url, rules)).None?
  {
    var i :| 0 <= i < |rules| && rules[i].name == ModelNameLabel;
    FailedSpecsMarkEveryLabel(rules);
    assert Labels(rules)[i] == ModelNameLabel;
    StartsWithContains(FetchFailedValue, FetchFailedValue);
  }

  /** "Bilinmeyen Model" passes the gate and gives brand "Marka Yok". */
  lemma UnknownModelPassesGate()
    ensures ModelNameUsable(UnknownModel)
    ensures Brand(UnknownModel) == NoBrand
  {
    ShortNeverContains(UnknownModel, FetchFailedValue);
    StartsWithContains(UnknownModel, UnknownModel);
    assert UnknownModel[0] != NoModelName[0];
  }

  /** Without a title rule the model name falls back to "Bilinmeyen Model",
      which passes the gate, so a record with brand "Marka Yok" is
      submitted even after a network error. */
  lemma MissingTitleRuleSubmitsUnknown(error: string, fetch: string -> Response<ReviewPage>,
                                       join: (string, string) -> string, url: string, rules: seq<Rule>)
    requires forall i :: 0 <= i < |rules| ==> rules[i].name != ModelNameLabel
    ensures var r := RecordFor(url, ScrapedData(Failed(error), fetch, join, url, rules));
      r.Some? && r.value.modelName == UnknownModel && r.value.brand == NoBrand
  {
    var data := ScrapedData(Failed(error), fetch, join, url, rules);
    FailedSpecsMarkEveryLabel(rules);
    assert ModelNameLabel !in data.specs.values;
    assert ModelName(data.specs) == UnknownModel;
    UnknownModelPassesGate();
  }
}
