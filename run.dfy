/**
 * The run bookkeeping of the main block: which lines of the URL list are
 * processed (scraper.py:277), and how finished tasks are sorted into the
 * successful and failed lists (scraper.py:289-307).
 */
module Run {
  import opened Text
  import opened Pipeline

  const CommentMarker := "#"

  /** A line of the URL list is processed when, stripped, it is non-empty
      and does not start with `#`. */
  predicate Listed(line: string) {
    Strip(line) != [] && !StartsWith(Strip(line), CommentMarker)
  }

  /** The entries of a list comprehension that yields zero or more
      entries per element, in order. */
  function FlatMap<T, U>(xs: seq<T>, f: T -> seq<U>): seq<U>
  {
    if xs == [] then [] else f(xs[0]) + FlatMap(xs[1..], f)
  }

  lemma {:induction false} FlatMapAppend<T, U>(a: seq<T>, b: seq<T>, f: T -> seq<U>)
    ensures FlatMap(a + b, f) == FlatMap(a, f) + FlatMap(b, f)
    decreases |a|
  {
    if a == [] {
      assert a + b == b;
    } else {
      assert (a + b)[1..] == a[1..] + b;
      FlatMapAppend(a[1..], b, f);
      AppendAssoc(f(a[0]), FlatMap(a[1..], f), FlatMap(b, f));
    }
  }

  /** An entry is in the result exactly when some element yields it. */
  lemma {:induction false} FlatMapMembers<T, U>(xs: seq<T>, f: T -> seq<U>, u: U)
    ensures u in FlatMap(xs, f) <==> exists i :: 0 <= i < |xs| && u in f(xs[i])
    decreases |xs|
  {
    if xs != [] {
      FlatMapMembers(xs[1..], f, u);
      if u in FlatMap(xs[1..], f) {
        var k :| 0 <= k < |xs[1..]| && u in f(xs[1..][k]);
        assert u in f(xs[k + 1]);
      }
      if exists i :: 0 <= i < |xs| && u in f(xs[i]) {
        var i :| 0 <= i < |xs| && u in f(xs[i]);
        if i > 0 {
          assert xs[i] == xs[1..][i - 1];
        }
      }
    }
  }

  /** When each element yields at most one entry, there are at most as
      many entries as elements. */
  lemma {:induction false} FlatMapAtMostOne<T, U>(xs: seq<T>, f: T -> seq<U>)
    requires forall i :: 0 <= i < |xs| ==> |f(xs[i])| <= 1
    ensures |FlatMap(xs, f)| <= |xs|
    decreases |xs|
  {
    if xs != [] {
      assert forall i :: 0 <= i < |xs[1..]| ==> xs[1..][i] == xs[i + 1];
      FlatMapAtMostOne(xs[1..], f);
    }
  }

  /** What one line of the list yields: its stripped text when it is
      listed, nothing otherwise. */
  function LineUrls(line: string): seq<string> {
    if Listed(line) then [Strip(line)] else []
  }

  /** The URLs read from the list: the stripped listed lines, in file
      order (scraper.py:277). */
  function UrlsToProcess(lines: seq<string>): seq<string> {
    FlatMap(lines, LineUrls)
  }

  /** Every URL read is non-empty, stripped and not a comment, and comes
      from a listed line; there are at most as many as lines. */
  lemma UrlsAreListedLines(lines: seq<string>)
    ensures var urls := UrlsToProcess(lines);
      && |urls| <= |lines|
      && (forall i :: 0 <= i < |urls| ==> urls[i] != [] && IsStripped(urls[i]) && !StartsWith(urls[i], CommentMarker))
      && (forall u :: u in urls ==> exists i :: 0 <= i < |lines| && Listed(lines[i]) && u == Strip(lines[i]))
  {
    var urls := UrlsToProcess(lines);
    FlatMapAtMostOne(lines, LineUrls);
    forall u | u in urls
      ensures exists i :: 0 <= i < |lines| && Listed(lines[i]) && u == Strip(lines[i])
    {
      FlatMapMembers(lines, LineUrls, u);
      var i :| 0 <= i < |lines| && u in LineUrls(lines[i]);
      assert Listed(lines[i]) && u == Strip(lines[i]);
    }
    forall k | 0 <= k < |urls|
      ensures urls[k] != [] && IsStripped(urls[k]) && !StartsWith(urls[k], CommentMarker)
    {
      assert urls[k] in urls;
    }
  }

  /** Every listed line is read, stripped. */
  lemma ListedLinesAreUrls(lines: seq<string>)
    ensures forall i :: 0 <= i < |lines| && Listed(lines[i]) ==> Strip(lines[i]) in UrlsToProcess(lines)
  {
    forall i | 0 <= i < |lines| && Listed(lines[i])
      ensures Strip(lines[i]) in UrlsToProcess(lines)
    {
      FlatMapMembers(lines, LineUrls, Strip(lines[i]));
      assert Strip(lines[i]) in LineUrls(lines[i]);
    }
  }

  /** The filter keeps file order: it distributes over concatenation. */
  lemma UrlsToProcessAppend(a: seq<string>, b: seq<string>)
    ensures UrlsToProcess(a + b) == UrlsToProcess(a) + UrlsToProcess(b)
  {
    FlatMapAppend(a, b, LineUrls);
  }

  /** What `future.result()` gave: the wrapper's pair, or an exception. */
  datatype TaskResult = Returned(success: bool, processedUrl: string) | Raised(error: string)

  /** A finished task: the URL it was submitted with, and its result. */
  datatype Completion = Completion(originalUrl: string, result: TaskResult)

  predicate Succeeded(c: Completion) {
    c.result.Returned? && c.result.success
  }

  /** The URL a finished task is recorded under: the one the wrapper
      returned, or the submitted one when the task raised. */
  function ReportedUrl(c: Completion): string {
    match c.result
    case Returned(_, processedUrl) => processedUrl
    case Raised(_) => c.originalUrl
  }

  function ReportedUrls(cs: seq<Completion>): seq<string> {
    seq(|cs|, i requires 0 <= i < |cs| => ReportedUrl(cs[i]))
  }

  /** `successful_urls` after the tasks `cs` finished, in that order. */
  function SucceededUrls(cs: seq<Completion>): seq<string>
    decreases |cs|
  {
    if cs == [] then []
    else
      var n := |cs| - 1;
      SucceededUrls(cs[..n]) + if Succeeded(cs[n]) then [ReportedUrl(cs[n])] else []
  }

  /** `failed_urls` after the tasks `cs` finished, in that order. */
  function FailedUrls(cs: seq<Completion>): seq<string>
    decreases |cs|
  {
    if cs == [] then []
    else
      var n := |cs| - 1;
      FailedUrls(cs[..n]) + if Succeeded(cs[n]) then [] else [ReportedUrl(cs[n])]
  }

  /** Every successful URL is the URL reported by a task that returned
      success. */
  lemma {:induction false} SucceededUrlsAreReported(cs: seq<Completion>)
    ensures forall u :: u in SucceededUrls(cs) ==> exists i :: 0 <= i < |cs| && Succeeded(cs[i]) && ReportedUrl(cs[i]) == u
    decreases |cs|
  {
    if cs != [] {
      var n := |cs| - 1;
      SucceededUrlsAreReported(cs[..n]);
      forall u | u in SucceededUrls(cs)
        ensures exists i :: 0 <= i < |cs| && Succeeded(cs[i]) && ReportedUrl(cs[i]) == u
      {
        if u in SucceededUrls(cs[..n]) {
          var k :| 0 <= k < n && Succeeded(cs[..n][k]) && ReportedUrl(cs[..n][k]) == u;
          assert cs[..n][k] == cs[k];
        } else {
          assert Succeeded(cs[n]) && ReportedUrl(cs[n]) == u;
        }
      }
    }
  }

  /** Every failed URL is the URL reported by a task that returned failure
      or raised. */
  lemma {:induction false} FailedUrlsAreReported(cs: seq<Completion>)
    ensures forall u :: u in FailedUrls(cs) ==> exists i :: 0 <= i < |cs| && !Succeeded(cs[i]) && ReportedUrl(cs[i]) == u
    decreases |cs|
  {
    if cs != [] {
      var n := |cs| - 1;
      FailedUrlsAreReported(cs[..n]);
      forall u | u in FailedUrls(cs)
        ensures exists i :: 0 <= i < |cs| && !Succeeded(cs[i]) && ReportedUrl(cs[i]) == u
      {
        if u in FailedUrls(cs[..n]) {
          var k :| 0 <= k < n && !Succeeded(cs[..n][k]) && ReportedUrl(cs[..n][k]) == u;
          assert cs[..n][k] == cs[k];
        } else {
          assert !Succeeded(cs[n]) && ReportedUrl(cs[n]) == u;
        }
      }
    }
  }

  /** The completion loop (scraper.py:289-307), over the tasks in the order
      they finished. */
  method CollectResults(completions: seq<Completion>) returns (successful: seq<string>, failed: seq<string>)
    ensures successful == SucceededUrls(completions)
    ensures failed == FailedUrls(completions)
  {
    successful := [];
    failed := [];
    for i := 0 to |completions|
      invariant successful == SucceededUrls(completions[..i])
      invariant failed == FailedUrls(completions[..i])
    {
      assert completions[..i + 1][..i] == completions[..i];
      var c := completions[i];
      match c.result {
        case Returned(success, processedUrl) =>
          if success {
            successful := successful + [processedUrl];
          } else {
            failed := failed + [processedUrl];
          }
        case Raised(_) =>
          failed := failed + [c.originalUrl];
      }
    }
    assert completions[..|completions|] == completions;
  }

  /** Every finished task lands in exactly one of the two lists: together
      they are a permutation of the reported URLs. */
  lemma {:induction false} PartitionIsPermutation(cs: seq<Completion>)
    ensures multiset(SucceededUrls(cs)) + multiset(FailedUrls(cs)) == multiset(ReportedUrls(cs))
    ensures |SucceededUrls(cs)| + |FailedUrls(cs)| == |cs|
    decreases |cs|
  {
    if cs != [] {
      var n := |cs| - 1;
      var prefix := cs[..n];
      var last := ReportedUrl(cs[n]);
      PartitionIsPermutation(prefix);
      PartitionSnoc(cs);
      ReportedUrlsSnoc(cs);
      SplitSnoc(SucceededUrls(prefix), FailedUrls(prefix), ReportedUrls(prefix), last);
    }
  }

  /** The last task to finish adds its URL to exactly one of the lists. */
  lemma PartitionSnoc(cs: seq<Completion>)
    requires cs != []
    ensures var n := |cs| - 1;
      var good, bad, last := SucceededUrls(cs[..n]), FailedUrls(cs[..n]), ReportedUrl(cs[n]);
      if Succeeded(cs[n]) then SucceededUrls(cs) == good + [last] && FailedUrls(cs) == bad
      else SucceededUrls(cs) == good && FailedUrls(cs) == bad + [last]
  {
  }

  lemma ReportedUrlsSnoc(cs: seq<Completion>)
    requires cs != []
    ensures ReportedUrls(cs) == ReportedUrls(cs[..|cs| - 1]) + [ReportedUrl(cs[|cs| - 1])]
  {
  }

  /** Adding an element to one part of a split adds it to the whole. */
  lemma SplitSnoc<T>(left: seq<T>, right: seq<T>, whole: seq<T>, x: T)
    requires multiset(left) + multiset(right) == multiset(whole)
    ensures multiset(left + [x]) + multiset(right) == multiset(whole + [x])
    ensures multiset(left) + multiset(right + [x]) == multiset(whole + [x])
  {
    assert multiset(left + [x]) == multiset(left) + multiset{x};
    assert multiset(right + [x]) == multiset(right) + multiset{x};
    assert multiset(whole + [x]) == multiset(whole) + multiset{x};
  }

  /** The submitted URLs of a run. */
  function OriginalUrls(cs: seq<Completion>): seq<string> {
    seq(|cs|, i requires 0 <= i < |cs| => cs[i].originalUrl)
  }

  /** `cs` are the finished tasks of a run over `urls`: one per submitted
      URL, in any order, and each task that returned reports its URL
      normalised, as `process_url_wrapper` does. */
  ghost predicate RunOver(urls: seq<string>, cs: seq<Completion>) {
    && multiset(OriginalUrls(cs)) == multiset(urls)
    && forall i :: 0 <= i < |cs| && cs[i].result.Returned? ==> cs[i].result.processedUrl == NormalizeUrl(cs[i].originalUrl)
  }

  /** After a run, each URL of the list is counted once, and every
      successful URL carries a scheme. */
  lemma RunReportsEveryUrlOnce(urls: seq<string>, cs: seq<Completion>)
    requires RunOver(urls, cs)
    ensures |SucceededUrls(cs)| + |FailedUrls(cs)| == |urls|
    ensures forall u :: u in SucceededUrls(cs) ==> HasScheme(u)
  {
    PartitionIsPermutation(cs);
    SucceededUrlsAreReported(cs);
    assert |multiset(OriginalUrls(cs))| == |multiset(urls)|;
  }
}
