/**
 * What the scraper sees of a fetched and parsed HTML page. The HTML parser
 * and the CSS-selector engine are not modelled: a page carries the answers
 * they give, as data and as a query function.
 */
module Dom {
  import opened Text

  /** An attribute as the parser returns it: one string, or a list of
      strings for the multi-valued attributes such as `class`. */
  datatype AttrValue = Single(text: string) | Multi(items: seq<string>)

  /** One tag: its name, its attributes and the text strings below it in
      document order (the strings `get_text` concatenates). */
  datatype Element = Element(name: string, attrs: map<string, AttrValue>, strings: seq<string>)

  /** A tag together with the tags that follow it under the same parent,
      nearest first (what `find_next_sibling` scans). */
  datatype Node = Node(element: Element, following: seq<Element>)

  /** The answer of `select_one(css)`: the first match, no match, or an
      exception raised by the selector engine (a malformed selector). */
  datatype SelectOutcome = Match(element: Element) | NoMatch | SelectorError(message: string)

  /** A parsed page: the selector engine as a function, and every tag of
      the document in document order (what `find` with a predicate scans). */
  datatype Page = Page(selectOne: string -> SelectOutcome, tags: seq<Node>)

  /** The outcome of one GET with `raise_for_status`: the parsed body, or
      the text of the `RequestException` that was raised. */
  datatype Response<T> = Ok(page: T) | Failed(error: string)

  /** The tag carries CSS class `c` (`class_='nfo'` in a bs4 query). */
  predicate HasClass(e: Element, c: string) {
    "class" in e.attrs &&
    match e.attrs["class"]
    case Multi(classes) => c in classes
    case Single(text) => text == c
  }

  /** `[s.strip() for s in strings if s.strip()]`: the stripped strings,
      empty ones dropped, in order. */
  function KeptStrings(strings: seq<string>): seq<string>
  {
    if strings == [] then []
    else
      var s := Strip(strings[0]);
      var rest := KeptStrings(strings[1..]);
      if s == [] then rest else [s] + rest
  }

  /** Keeping the stripped non-empty strings gives at most as many strings,
      each non-empty and stripped. */
  lemma {:induction false} KeptStringsStripped(strings: seq<string>)
    ensures var r := KeptStrings(strings);
      && |r| <= |strings|
      && forall i :: 0 <= i < |r| ==> r[i] != [] && IsStripped(r[i])
  {
    if strings != [] {
      KeptStringsStripped(strings[1..]);
      var s := Strip(strings[0]);
      if s != [] {
        ConsKept(s, KeptStrings(strings[1..]));
      }
    }
  }

  lemma ConsKept(s: string, rest: seq<string>)
    requires s != [] && IsStripped(s)
    requires forall i :: 0 <= i < |rest| ==> rest[i] != [] && IsStripped(rest[i])
    ensures forall i :: 0 <= i < |[s] + rest| ==> ([s] + rest)[i] != [] && IsStripped(([s] + rest)[i])
  {
    var r := [s] + rest;
    forall i | 0 <= i < |r| ensures r[i] != [] && IsStripped(r[i]) {
      if i > 0 {
        assert r[i] == rest[i - 1];
      }
    }
  }

  /** `KeptStrings` distributes over concatenation: it keeps the order of
      the strings it keeps. */
  lemma {:induction false} KeptStringsAppend(a: seq<string>, b: seq<string>)
    ensures KeptStrings(a + b) == KeptStrings(a) + KeptStrings(b)
  {
    if a == [] {
      assert a + b == b;
    } else {
      assert (a + b)[1..] == a[1..] + b;
      KeptStringsAppend(a[1..], b);
    }
  }

  /** Strings that are already stripped and non-empty are all kept, as
      they are. */
  lemma {:induction false} KeptStringsOfStripped(strings: seq<string>)
    requires forall i :: 0 <= i < |strings| ==> strings[i] != [] && IsStripped(strings[i])
    ensures KeptStrings(strings) == strings
    decreases |strings|
  {
    if strings != [] {
      var head, tail := strings[0], strings[1..];
      assert strings == [head] + tail;
      assert forall i :: 0 <= i < |tail| ==> tail[i] == strings[i + 1];
      KeptStringsOfStripped(tail);
      StrippedIsFixed(head);
      KeptStringsCons(head, tail);
    }
  }

  /** One step of `KeptStrings` on a string that strips to something. */
  lemma KeptStringsCons(s: string, rest: seq<string>)
    requires Strip(s) != []
    ensures KeptStrings([s] + rest) == [Strip(s)] + KeptStrings(rest)
  {
    assert ([s] + rest)[1..] == rest;
  }

  lemma StrippedIsFixed(s: string)
    requires IsStripped(s)
    ensures Strip(s) == s
  {
  }

  /** bs4's `get_text(separator, strip=True)`: the stripped non-empty text
      strings of the tag joined by `separator`. The result is itself
      stripped, and empty exactly when the tag holds no visible text. */
  function GetText(e: Element, separator: string): (r: string)
    ensures IsStripped(r)
    ensures r == [] <==> KeptStrings(e.strings) == []
  {
    KeptStringsStripped(e.strings);
    JoinStripped(KeptStrings(e.strings), separator);
    Join(KeptStrings(e.strings), separator)
  }
}
