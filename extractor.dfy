/**
 * The field extractor, `get_element_text_bs4` (scraper.py:48-73): one
 * declarative rule applied to one parsed page gives one string, the rule's
 * default whenever nothing usable is found or anything goes wrong.
 */
module Extractor {
  import opened Wrappers
  import opened Text
  import opened Dom

  /** The value `get_element_text_bs4` falls back on when a rule names no
      `default_value` (scraper.py:48, 123). */
  const InfoMissing := "Bilgi Yok"

  /** One entry of the spec-definition table; `name` is its `label` key and
      `value` the CSS selector;
      a rule with `findSiblingAfterText` uses the sibling-anchor strategy
      instead. `attribute` and `processAsHtml` choose what is read from the
      element found; an empty attribute name counts as no attribute, as
      Python's truthiness test does. */
  datatype Rule = Rule(
    name: string,
    value: string,
    findSiblingAfterText: Option<string>,
    attribute: Option<string>,
    processAsHtml: bool,
    defaultValue: Option<string>)

  function DefaultOf(rule: Rule): string {
    rule.defaultValue.GetOr(InfoMissing)
  }

  /** `spec_info.get("attribute")` is truthy. */
  predicate ReadsAttribute(rule: Rule) {
    rule.attribute.Some? && rule.attribute.value != []
  }

  /** The separator `get_text` is called with in the rule's text mode. */
  function Separator(rule: Rule): string {
    if rule.processAsHtml then "\n" else ""
  }

  /** The anchor test: a `td` whose stripped text contains the phrase,
      ignoring case. */
  predicate IsAnchor(n: Node, phrase: string) {
    n.element.name == "td" && Contains(Lower(GetText(n.element, "")), Lower(phrase))
  }

  /** The target of `find_next_sibling('td', class_='nfo')`. */
  predicate IsInfoCell(e: Element) {
    e.name == "td" && HasClass(e, "nfo")
  }

  /** The anchor test as a value, for the search below. */
  function AnchorTest(phrase: string): Node -> bool {
    n => IsAnchor(n, phrase)
  }

  /** `i` is the first index of `xs` whose element passes `test`. */
  ghost predicate FirstWhere<T>(xs: seq<T>, test: T -> bool, i: int) {
    0 <= i < |xs| && test(xs[i]) &&
    forall j :: 0 <= j < i ==> !test(xs[j])
  }

  /** `i` is the first anchor of the document. */
  ghost predicate FirstAnchorAt(tags: seq<Node>, phrase: string, i: int) {
    FirstWhere(tags, AnchorTest(phrase), i)
  }

  /** `k` is the first info cell among the following siblings. */
  ghost predicate FirstInfoCellAt(following: seq<Element>, k: int) {
    FirstWhere(following, IsInfoCell, k)
  }

  /** The scan behind `soup.find(test)` over the document's tags and
      `find_next_sibling(test)` over a tag's following siblings: the index
      of the first element at or after `from` that passes `test`, if any. */
  function FindFirst<T>(xs: seq<T>, test: T -> bool, from: nat): (r: Option<nat>)
    requires from <= |xs|
    requires forall j :: 0 <= j < from ==> !test(xs[j])
    ensures r.Some? ==> FirstWhere(xs, test, r.value)
    ensures r.None? ==> forall j :: 0 <= j < |xs| ==> !test(xs[j])
    decreases |xs| - from
  {
    if from == |xs| then None
    else if test(xs[from]) then Some(from)
    else FindFirst(xs, test, from + 1)
  }

  /** Where the lookup of a rule ends: an element, nothing, or an exception
      (caught by the extractor). */
  datatype Located = Found(element: Element) | Missing | Raised

  /** The element a rule designates (scraper.py:52-62): the selector's first
      match for a plain rule; for a sibling-anchor rule, the first info cell
      after the first anchor. A sibling-anchor rule never consults the
      selector engine and so never raises. */
  function Locate(page: Page, rule: Rule): (r: Located)
    ensures rule.findSiblingAfterText.None? ==>
      && (r.Found? <==> page.selectOne(rule.value).Match?)
      && (r.Found? ==> r.element == page.selectOne(rule.value).element)
      && (r.Raised? <==> page.selectOne(rule.value).SelectorError?)
    ensures rule.findSiblingAfterText.Some? ==> !r.Raised?
    ensures rule.findSiblingAfterText.Some? && r.Found? ==>
      exists i, k :: FirstAnchorAt(page.tags, rule.findSiblingAfterText.value, i)
        && FirstInfoCellAt(page.tags[i].following, k)
        && page.tags[i].following[k] == r.element
    ensures rule.findSiblingAfterText.Some? && r.Missing? ==>
      var phrase := rule.findSiblingAfterText.value;
      || (forall j :: 0 <= j < |page.tags| ==> !IsAnchor(page.tags[j], phrase))
      || (exists i :: FirstAnchorAt(page.tags, phrase, i)
            && forall k :: 0 <= k < |page.tags[i].following| ==> !IsInfoCell(page.tags[i].following[k]))
  {
    match rule.findSiblingAfterText
    case None =>
      (match page.selectOne(rule.value)
       case Match(e) => Found(e)
       case NoMatch => Missing
       case SelectorError(_) => Raised)
    case Some(phrase) =>
      match FindFirst(page.tags, AnchorTest(phrase), 0)
      case None => Missing
      case Some(i) =>
        match FindFirst(page.tags[i].following, IsInfoCell, 0)
        case None => Missing
        case Some(k) => Found(page.tags[i].following[k])
  }

  /** The value of attribute `name` when it is a single string. A list
      value (a multi-valued attribute) has no `strip` and raises. */
  function AttrText(e: Element, name: string): Option<string> {
    if name in e.attrs && e.attrs[name].Single? then Some(e.attrs[name].text) else None
  }

  /** `get_element_text_bs4(soup, rule, default)` (scraper.py:48-73). */
  function ExtractField(page: Page, rule: Rule): (r: string)
    // nothing located, or the lookup raised: the default
    ensures !Locate(page, rule).Found? ==> r == DefaultOf(rule)
    // attribute mode: the stripped value when the attribute is a non-empty
    // string, otherwise the default
    ensures Locate(page, rule).Found? && ReadsAttribute(rule) ==>
      var text := AttrText(Locate(page, rule).element, rule.attribute.value);
      && (text.Some? && text.value != [] ==> r == Strip(text.value))
      && (text.None? || text.value == [] ==> r == DefaultOf(rule))
    // text modes: the element's stripped text strings, joined by a newline
    // in block mode and by nothing otherwise; the default when there are none
    ensures Locate(page, rule).Found? && !ReadsAttribute(rule) ==>
      var kept := KeptStrings(Locate(page, rule).element.strings);
      && (kept == [] ==> r == DefaultOf(rule))
      && (kept != [] ==> r == Join(kept, Separator(rule)) && r != [])
    // whatever happens, the result is the default or a stripped string
    ensures r == DefaultOf(rule) || IsStripped(r)
  {
    match Locate(page, rule)
    case Missing => DefaultOf(rule)
    case Raised => DefaultOf(rule)
    case Found(e) =>
      if ReadsAttribute(rule) then
        (match AttrText(e, rule.attribute.value)
         case Some(text) => if text != [] then Strip(text) else DefaultOf(rule)
         case None => DefaultOf(rule))
      else
        var text := GetText(e, Separator(rule));
        if text != [] then text else DefaultOf(rule)
  }

  /** The lookup strategy depends only on whether the rule has
      `findSiblingAfterText`: a plain rule reads nothing but the selector
      engine's answer, and a sibling-anchor rule nothing but the tags. */
  lemma StrategyDispatch(page: Page, rule: Rule, tags: seq<Node>, selectOne: string -> SelectOutcome)
    ensures rule.findSiblingAfterText.None? ==>
      ExtractField(page.(tags := tags), rule) == ExtractField(page, rule)
    ensures rule.findSiblingAfterText.Some? ==>
      ExtractField(page.(selectOne := selectOne), rule) == ExtractField(page, rule)
  {
  }

  /** In a text mode the result is never empty unless the default is. */
  lemma TextModeNonEmpty(page: Page, rule: Rule)
    requires !ReadsAttribute(rule) && DefaultOf(rule) != []
    ensures ExtractField(page, rule) != []
  {
  }

  /** A block-mode rule keeps the element's text strings on separate lines,
      where a single-line rule runs them together. */
  lemma BlockModeKeepsLines(rule: Rule, e: Element, first: string, second: string)
    requires rule.findSiblingAfterText.None? && !ReadsAttribute(rule)
    requires e.strings == [first, second]
    requires first != [] && IsStripped(first) && second != [] && IsStripped(second)
    ensures ExtractField(Page(_ => Match(e), []), rule)
         == if rule.processAsHtml then first + "\n" + second else first + second
  {
    var page := Page(_ => Match(e), []);
    var sep := Separator(rule);
    assert Locate(page, rule) == Found(e);
    KeptStrippedPair(first, second);
    JoinPair(first, second, sep);
    var text := GetText(e, sep);
    assert text == first + sep + second;
    assert text != [];
    assert ExtractField(page, rule) == text;
    if !rule.processAsHtml {
      assert sep == [];
      assert first + sep == first;
    }
  }

  lemma KeptStrippedPair(first: string, second: string)
    requires first != [] && IsStripped(first) && second != [] && IsStripped(second)
    ensures KeptStrings([first, second]) == [first, second]
  {
    KeptStringsOfStripped([first, second]);
  }

  lemma JoinPair(first: string, second: string, sep: string)
    ensures Join([first, second], sep) == first + sep + second
  {
    assert [first, second][1..] == [second];
  }

  /** The sibling-anchor strategy takes the first `td.nfo` after the first
      anchor, skipping any other cell in between. */
  lemma SiblingAnchorSkipsPlainCells(rule: Rule, anchor: Element, other: Element, info: Element, text: string)
    requires rule.findSiblingAfterText.Some? && !ReadsAttribute(rule)
    requires anchor.name == "td"
    requires Contains(Lower(GetText(anchor, "")), Lower(rule.findSiblingAfterText.value))
    requires !IsInfoCell(other) && IsInfoCell(info)
    requires info.strings == [text] && text != [] && IsStripped(text)
    ensures ExtractField(Page(_ => NoMatch, [Node(anchor, [other, info])]), rule) == text
  {
    var page := Page(_ => NoMatch, [Node(anchor, [other, info])]);
    SiblingAnchorLocates(page, rule, anchor, other, info);
    SingleStringText(info, text, Separator(rule));
    assert ExtractField(page, rule) == GetText(info, Separator(rule));
  }

  lemma SingleStringText(e: Element, text: string, sep: string)
    requires e.strings == [text] && text != [] && IsStripped(text)
    ensures GetText(e, sep) == text
  {
    KeptStringsOfStripped(e.strings);
    assert Join([text], sep) == text;
  }

  lemma SiblingAnchorLocates(page: Page, rule: Rule, anchor: Element, other: Element, info: Element)
    requires rule.findSiblingAfterText.Some? && page.tags == [Node(anchor, [other, info])]
    requires IsAnchor(page.tags[0], rule.findSiblingAfterText.value)
    requires !IsInfoCell(other) && IsInfoCell(info)
    ensures Locate(page, rule) == Found(info)
  {
    FirstTagIsAnchor(page.tags, rule.findSiblingAfterText.value);
    SecondIsInfoCell(other, info);
  }

  lemma FirstTagIsAnchor(tags: seq<Node>, phrase: string)
    requires |tags| > 0 && IsAnchor(tags[0], phrase)
    ensures FindFirst(tags, AnchorTest(phrase), 0) == Some(0)
  {
  }

  lemma SecondIsInfoCell(other: Element, info: Element)
    requires !IsInfoCell(other) && IsInfoCell(info)
    ensures FindFirst([other, info], IsInfoCell, 0) == Some(1)
  {
    assert FindFirst([other, info], IsInfoCell, 1) == Some(1);
  }

  /** The anchor test ignores case on both sides: two cells whose texts
      agree once lower-cased, and two phrases that agree once lower-cased,
      give the same answer. */
  lemma AnchorIgnoresCase(a: Node, b: Node, phrase: string, other: string)
    requires a.element.name == b.element.name
    requires Lower(GetText(a.element, "")) == Lower(GetText(b.element, ""))
    requires Lower(phrase) == Lower(other)
    ensures IsAnchor(a, phrase) <==> IsAnchor(b, other)
  {
  }

  /** Lower-casing the phrase first changes nothing: a phrase matches a cell
      exactly when its lower-case form does. */
  lemma AnchorPhraseLowered(n: Node, phrase: string)
    ensures IsAnchor(n, phrase) <==> IsAnchor(n, Lower(phrase))
  {
    LowerIdempotent(phrase);
  }

  /** An instance: the rule phrase "3.5mm jack" matches a cell reading
      "3.5MM Jack". */
  lemma AnchorIgnoresCaseExample()
    ensures Contains(Lower("3.5MM Jack"), Lower("3.5mm jack"))
  {
    assert Lower("3.5MM Jack") == "3.5mm jack";
    assert Lower("3.5mm jack") == "3.5mm jack";
    assert StartsWith("3.5mm jack", "3.5mm jack");
  }

  /** In attribute mode, a non-empty string attribute gives "" exactly when
      it is all whitespace: it passes the truthiness test and is then
      stripped, so such a field is empty rather than the default. */
  lemma BlankAttributeGivesEmpty(page: Page, rule: Rule, e: Element, text: string)
    requires Locate(page, rule) == Found(e) && ReadsAttribute(rule)
    requires AttrText(e, rule.attribute.value) == Some(text) && text != []
    ensures ExtractField(page, rule) == [] <==> forall k :: 0 <= k < |text| ==> IsSpace(text[k])
  {
    StripEmptyIffBlank(text);
  }

  /** An instance: an `img` whose `src` is a single space gives "" and not
      the default. */
  lemma BlankAttributeExample(rule: Rule)
    requires rule.findSiblingAfterText.None? && rule.attribute == Some("src")
    ensures
      var img := Element("img", map["src" := Single(" ")], []);
      ExtractField(Page(_ => Match(img), []), rule) == ""
  {
    var img := Element("img", map["src" := Single(" ")], []);
    var page := Page(_ => Match(img), []);
    assert Locate(page, rule) == Found(img);
    assert ReadsAttribute(rule);
    assert AttrText(img, "src") == Some(" ");
    assert Strip(" ") == "" by {
      assert IsSpace(' ');
      assert StripLeft(" ") == "";
    }
    assert ExtractField(page, rule) == Strip(" ");
  }
}
