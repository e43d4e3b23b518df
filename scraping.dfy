/** The control logic of the article scraper: retrying page downloads,
    reading the number of the last page from the pagination, turning each
    article entry into a (title, summary, article URL, image URL) record and
    visiting the pages 1..last in order.

    The network and the HTML parser are outside the model. The page that
    `requests.get(url)` returns on its k-th attempt is `net(url)(k)`, already
    parsed into a `Document`, and every `time.sleep(t)` is recorded as an
    entry `t` of a sleep log. */
module Scraping {
  import opened Text

  // ---------------------------------------------------------------------
  // Data
  // ---------------------------------------------------------------------

  /** One article entry of a listing page: the text of its title heading, the
      text of its summary paragraph, the attributes of the link inside the
      title and the attributes of its image. */
  datatype Entry = Entry(
    titleText: string,
    bodyText: string,
    link: map<string, string>,
    img: map<string, string>)

  /** A parsed listing page: the link texts of the pagination items, in
      document order, and the article entries, in document order. */
  datatype Document = Document(paginationLinks: seq<string>, entries: seq<Entry>)

  /** The scraped tuple (title, summary, url, image_url). */
  datatype Record = Record(title: string, summary: string, articleUrl: string, imageUrl: string)

  /** What one call of requests.get followed by raise_for_status produces. */
  datatype FetchOutcome = Success(response: Document) | Failure(error: RequestError)

  /** A requests.exceptions.RequestException, identified by its message. */
  datatype RequestError = RequestError(detail: string)

  /** The exceptions the scraper lets escape. `TypeError` is what Python
      raises for `raise None`, which happens when no attempt was made. */
  datatype Error =
    | RequestFailed(cause: RequestError)
    | TypeError
    | KeyError(key: string)
    | IndexError
    | ValueError(text: string)

  datatype Result<T> = Ok(value: T) | Err(error: Error)

  // ---------------------------------------------------------------------
  // Retry schedule
  // ---------------------------------------------------------------------

  /** The number of attempts the retry loop may make: max_retries, or none at
      all when it is not positive. */
  function AttemptBound(maxRetries: int): (b: nat)
    ensures b == 0 <==> maxRetries <= 0
    ensures maxRetries > 0 ==> b == maxRetries
  {
    if maxRetries < 0 then 0 else maxRetries
  }

  /** The number of consecutive failed attempts from attempt k on, counting
      no further than attempt `bound`. */
  function FailedRun(attempts: nat -> FetchOutcome, k: nat, bound: nat): (n: nat)
    requires k <= bound
    ensures k + n <= bound
    ensures forall j :: k <= j < k + n ==> attempts(j).Failure?
    ensures k + n < bound ==> attempts(k + n).Success?
    decreases bound - k
  {
    if k == bound || attempts(k).Success? then 0 else 1 + FailedRun(attempts, k + 1, bound)
  }

  /** The run of failures is determined by where the first success is. */
  lemma FailedRunIs(attempts: nat -> FetchOutcome, bound: nat, i: nat)
    requires i <= bound
    requires forall j :: 0 <= j < i ==> attempts(j).Failure?
    requires i < bound ==> attempts(i).Success?
    ensures FailedRun(attempts, 0, bound) == i
  {
  }

  /** n waits of t seconds each. */
  function Repeat(t: int, n: nat): (s: seq<int>)
    ensures |s| == n
    ensures forall k :: 0 <= k < n ==> s[k] == t
  {
    seq(n, _ => t)
  }

  /** Total time slept over a sleep log. */
  function Sum(s: seq<int>): int {
    if s == [] then 0 else Sum(s[..|s| - 1]) + s[|s| - 1]
  }

  /** The waiting a fixed retry interval adds up to: failures times interval,
      with no growth from one retry to the next. */
  lemma {:induction false} SumRepeat(t: int, n: nat)
    ensures Sum(Repeat(t, n)) == n * t
  {
    if n > 0 {
      assert Repeat(t, n)[..n - 1] == Repeat(t, n - 1);
      SumRepeat(t, n - 1);
      assert (n - 1) * t + t == n * t;
    }
  }

  /** Sleeps split over concatenated logs. */
  lemma {:induction false} SumAppend(s: seq<int>, u: seq<int>)
    ensures Sum(s + u) == Sum(s) + Sum(u)
    decreases |u|
  {
    if u == [] {
      assert s + u == s;
    } else {
      assert (s + u)[..|s + u| - 1] == s + u[..|u| - 1];
      SumAppend(s, u[..|u| - 1]);
    }
  }

  // ---------------------------------------------------------------------
  // Pure helpers of the scraper
  // ---------------------------------------------------------------------

  /** range(start, last + 1): the integers start..last, ascending. */
  function PageRange(last: int, start: int := 1): (r: seq<int>)
    ensures |r| == if last < start then 0 else last - start + 1
    ensures forall k :: 0 <= k < |r| ==> r[k] == start + k
    decreases last - start + 1
  {
    if last < start then [] else [start] + PageRange(last, start + 1)
  }

  /** The range holds exactly start..last, in strictly ascending order, and is
      empty precisely when last < start. */
  lemma PageRangeMembers(last: int, start: int, p: int)
    ensures p in PageRange(last, start) <==> start <= p <= last
    ensures PageRange(last, start) == [] <==> last < start
    ensures forall i, j :: 0 <= i < j < |PageRange(last, start)| ==> PageRange(last, start)[i] < PageRange(last, start)[j]
  {
    var r := PageRange(last, start);
    if start <= p <= last {
      assert r[p - start] == p;
    }
  }

  /** A range splits at any k in between. */
  lemma PageRangeSplit(last: int, start: int, k: int)
    requires start - 1 <= k <= last
    ensures PageRange(last, start) == PageRange(k, start) + PageRange(last, k + 1)
  {
    var r, a, b := PageRange(last, start), PageRange(k, start), PageRange(last, k + 1);
    assert |r| == |a| + |b|;
    forall j | 0 <= j < |r|
      ensures r[j] == (a + b)[j]
    {
      if j >= |a| {
        assert (a + b)[j] == b[j - |a|];
      }
    }
  }

  /** The URL of listing page `page`: the base URL with query ?p1400=<page>. */
  function PageUrl(baseUrl: string, page: int): string {
    baseUrl + "?p1400=" + ShowInt(page)
  }

  /** The page number can be read back from its URL, so distinct pages have
      distinct URLs. */
  lemma PageUrlReadBack(baseUrl: string, page: nat)
    ensures |PageUrl(baseUrl, page)| > |baseUrl| + 7
    ensures ParseDecimal(PageUrl(baseUrl, page)[|baseUrl| + 7..]) == Some(page)
  {
    assert PageUrl(baseUrl, page)[|baseUrl| + 7..] == ShowNat(page);
    ParseShow(page);
  }

  lemma PageUrlInjective(baseUrl: string, p: int, q: int)
    requires PageUrl(baseUrl, p) == PageUrl(baseUrl, q)
    ensures p == q
  {
    var u := PageUrl(baseUrl, p);
    assert u[|baseUrl| + 7..] == ShowInt(p);
    assert PageUrl(baseUrl, q)[|baseUrl| + 7..] == ShowInt(q);
    ShowIntInjective(p, q);
  }

  /** Each string of xs stripped, in order (the comprehension of line 54). */
  function StripAll(xs: seq<string>): (ys: seq<string>)
    ensures |ys| == |xs|
    ensures forall i :: 0 <= i < |xs| ==> ys[i] == Strip(xs[i])
  {
    seq(|xs|, i requires 0 <= i < |xs| => Strip(xs[i]))
  }

  /** The image URL of an img element: its src attribute, otherwise the first
      space-separated token of the first stripped comma-separated candidate of
      data-srcset; KeyError when neither attribute is there. */
  function ImageUrl(img: map<string, string>): (r: Result<string>)
    ensures "src" in img ==> r == Ok(img["src"])
    ensures "src" !in img ==> (r.Err? <==> "data-srcset" !in img)
    ensures r.Err? ==> r.error == KeyError("data-srcset")
    ensures "src" !in img && r.Ok? ==> ' ' !in r.value
  {
    if "src" in img then Ok(img["src"])
    else if "data-srcset" !in img then Err(KeyError("data-srcset"))
    else
      var candidates := StripAll(Split(img["data-srcset"], ','));
      Ok(Split(candidates[0], ' ')[0])
  }

  /** The first comma-separated candidate of w + u + rest is w + u + c, where
      c is empty or starts with a space. */
  lemma FirstCandidate(w: string, u: string, rest: string) returns (c: string)
    requires ',' !in w + u
    requires rest == [] || rest[0] == ' ' || rest[0] == ','
    ensures Split(w + u + rest, ',')[0] == w + (u + c)
    ensures c == [] || c[0] == ' '
  {
    c := Split(rest, ',')[0];
    SplitHead(w + u, rest, ',');
    if rest != [] && rest[0] == ' ' {
      SplitHead([' '], rest[1..], ',');
      assert [' '] + rest[1..] == rest;
    }
  }

  /** A candidate w + u + c (leading whitespace w, a URL u free of whitespace,
      c empty or starting with a space) strips to a string whose first
      space-separated token is u. */
  lemma CandidateUrl(w: string, u: string, c: string)
    requires AllSpace(w)
    requires u != [] && forall k :: 0 <= k < |u| ==> !IsSpace(u[k])
    requires c == [] || c[0] == ' '
    ensures Split(Strip(w + (u + c)), ' ')[0] == u
  {
    StripStartOf(w, u + c);
    var v := StripEnd(u + c);
    StripEndSpec(u + c);
    assert (u + c)[|u| - 1] == u[|u| - 1];
    assert |v| >= |u|;
    assert v == u + c[..|v| - |u|];
    var c' := c[..|v| - |u|];
    assert c' == [] || c'[0] == ' ';
    SplitHead(u, c', ' ');
    SplitHeadEmpty(c', ' ');
    assert Split(v, ' ')[0] == u + "" == u;
  }

  /** A data-srcset "u w, ..." (u free of whitespace and commas, possibly
      preceded by whitespace) yields u. */
  lemma ImageUrlFromSrcset(img: map<string, string>, w: string, u: string, rest: string)
    requires "src" !in img && "data-srcset" in img
    requires img["data-srcset"] == w + u + rest
    requires AllSpace(w)
    requires u != [] && forall k :: 0 <= k < |u| ==> !IsSpace(u[k]) && u[k] != ','
    requires rest == [] || rest[0] == ' ' || rest[0] == ','
    ensures ImageUrl(img) == Ok(u)
  {
    assert ',' !in w + u;
    var c := FirstCandidate(w, u, rest);
    CandidateUrl(w, u, c);
    assert StripAll(Split(img["data-srcset"], ','))[0] == Strip(w + (u + c));
  }

  /** An example: "b.jpg 100w, c.jpg 200w" gives "b.jpg". */
  lemma ImageUrlExample()
    ensures ImageUrl(map["data-srcset" := "b.jpg 100w, c.jpg 200w"]) == Ok("b.jpg")
  {
    var img := map["data-srcset" := "b.jpg 100w, c.jpg 200w"];
    assert img["data-srcset"] == "" + "b.jpg" + " 100w, c.jpg 200w";
    ImageUrlFromSrcset(img, "", "b.jpg", " 100w, c.jpg 200w");
  }

  /** The record of one entry: stripped title and summary, the href of the
      title link (KeyError without one) and the image URL. */
  function RecordOf(e: Entry): (r: Result<Record>)
    ensures r.Ok? <==> "href" in e.link && ImageUrl(e.img).Ok?
    ensures r.Ok? ==> r.value == Record(Strip(e.titleText), Strip(e.bodyText), e.link["href"], ImageUrl(e.img).value)
    ensures "href" !in e.link ==> r == Err(KeyError("href"))
  {
    var title := Strip(e.titleText);
    var summary := Strip(e.bodyText);
    if "href" !in e.link then Err(KeyError("href"))
    else
      match ImageUrl(e.img)
      case Err(err) => Err(err)
      case Ok(imgUrl) => Ok(Record(title, summary, e.link["href"], imgUrl))
  }

  /** int(text.strip()) of the last pagination link: IndexError when there
      are no links, ValueError when the stripped text is not a number. */
  function ParsePageCount(links: seq<string>): (r: Result<int>)
    ensures r == Err(IndexError) <==> links == []
    ensures links != [] ==> (r.Ok? <==> ParseDecimal(Strip(links[|links| - 1])).Some?)
    ensures links != [] && r.Err? ==> r.error == ValueError(Strip(links[|links| - 1]))
    ensures r.Ok? ==> r.value >= 0
  {
    if links == [] then Err(IndexError)
    else
      var text := Strip(links[|links| - 1]);
      match ParseDecimal(text)
      case None => Err(ValueError(text))
      case Some(n) => Ok(n)
  }

  /** Whatever number the last pagination link shows, surrounded by any
      whitespace, is the page count read. */
  lemma ParsePageCountLast(links: seq<string>, lead: string, n: nat, trail: string)
    requires AllSpace(lead) && AllSpace(trail)
    ensures ParsePageCount(links + [lead + ShowNat(n) + trail]) == Ok(n)
  {
    var s := ShowNat(n);
    ShowNatDigits(n);
    assert !IsSpace(s[0]) && !IsSpace(s[|s| - 1]);
    StripSurrounded(lead, s, trail);
    ParseShow(n);
  }

  /** Combining a prefix's outcome with the rest's: the first error wins. */
  function Then<T>(a: Result<seq<T>>, b: Result<seq<T>>): Result<seq<T>> {
    match a
    case Err(e) => Err(e)
    case Ok(xs) =>
      match b
      case Err(e) => Err(e)
      case Ok(ys) => Ok(xs + ys)
  }

  lemma ThenAssoc<T>(a: Result<seq<T>>, b: Result<seq<T>>, c: Result<seq<T>>)
    ensures Then(Then(a, b), c) == Then(a, Then(b, c))
  {
    if a.Ok? && b.Ok? && c.Ok? {
      assert a.value + b.value + c.value == a.value + (b.value + c.value);
    }
  }

  lemma ThenOkEmptyLeft<T>(a: Result<seq<T>>)
    ensures Then(Ok([]), a) == a
  {
    if a.Ok? {
      assert [] + a.value == a.value;
    }
  }

  lemma ThenOkEmpty<T>(a: Result<seq<T>>)
    ensures Then(a, Ok([])) == a
  {
    if a.Ok? {
      assert a.value + [] == a.value;
    }
  }

  // ---------------------------------------------------------------------
  // Extracting every entry of a page
  // ---------------------------------------------------------------------

  /** f applied to each of xs in order: all the results, or the error of
      the first element f fails on. */
  function MapAll<A, B>(xs: seq<A>, f: A -> Result<B>): Result<seq<B>> {
    if xs == [] then Ok([])
    else
      match MapAll(xs[..|xs| - 1], f)
      case Err(err) => Err(err)
      case Ok(ys) =>
        match f(xs[|xs| - 1])
        case Err(err) => Err(err)
        case Ok(y) => Ok(ys + [y])
  }

  /** On success there is one result per element, in order. */
  lemma {:induction false} MapAllOk<A, B>(xs: seq<A>, f: A -> Result<B>)
    ensures MapAll(xs, f).Ok? ==>
      |MapAll(xs, f).value| == |xs| && forall i :: 0 <= i < |xs| ==> f(xs[i]) == Ok(MapAll(xs, f).value[i])
  {
    if xs != [] && MapAll(xs, f).Ok? {
      var init := xs[..|xs| - 1];
      MapAllOk(init, f);
      var ys := MapAll(init, f).value;
      var all := MapAll(xs, f).value;
      assert all == ys + [f(xs[|xs| - 1]).value];
      forall i | 0 <= i < |xs|
        ensures f(xs[i]) == Ok(all[i])
      {
        if i < |init| {
          assert xs[i] == init[i] && all[i] == ys[i];
        }
      }
    }
  }

  /** MapAll fails exactly when f fails on some element, and then with the
      error of the first such element. */
  lemma {:induction false} MapAllFails<A, B>(xs: seq<A>, f: A -> Result<B>)
    ensures MapAll(xs, f).Err? <==> exists i :: 0 <= i < |xs| && f(xs[i]).Err?
    ensures MapAll(xs, f).Err? ==>
              exists i :: 0 <= i < |xs| && f(xs[i]) == Err(MapAll(xs, f).error)
                          && forall j :: 0 <= j < i ==> f(xs[j]).Ok?
  {
    if xs != [] {
      var init := xs[..|xs| - 1];
      var n := |xs| - 1;
      MapAllFails(init, f);
      assert forall i :: 0 <= i < |init| ==> init[i] == xs[i];
      if MapAll(init, f).Err? {
        var i :| 0 <= i < |init| && f(init[i]) == Err(MapAll(init, f).error)
                 && forall j :: 0 <= j < i ==> f(init[j]).Ok?;
        assert f(xs[i]) == Err(MapAll(xs, f).error);
      } else if f(xs[n]).Err? {
        MapAllOk(init, f);
        assert forall j :: 0 <= j < n ==> f(xs[j]).Ok?;
      }
    }
  }

  /** Mapping a concatenation: the first error wins. */
  lemma {:induction false} MapAllAppend<A, B>(a: seq<A>, b: seq<A>, f: A -> Result<B>)
    ensures MapAll(a + b, f) == Then(MapAll(a, f), MapAll(b, f))
    decreases |b|
  {
    if b == [] {
      assert a + b == a;
      ThenOkEmpty(MapAll(a, f));
    } else {
      var init := b[..|b| - 1];
      var last := b[|b| - 1];
      assert (a + b)[..|a + b| - 1] == a + init;
      assert (a + b)[|a + b| - 1] == last;
      MapAllAppend(a, init, f);
      var one: Result<seq<B>> := if f(last).Ok? then Ok([f(last).value]) else Err(f(last).error);
      assert MapAll(b, f) == Then(MapAll(init, f), one);
      assert MapAll(a + b, f) == Then(MapAll(a + init, f), one);
      ThenAssoc(MapAll(a, f), MapAll(init, f), one);
    }
  }

  /** Mapping element i after xs[..i]: on success its result is appended. */
  lemma MapAllNext<A, B>(xs: seq<A>, i: nat, f: A -> Result<B>, acc: seq<B>)
    requires i < |xs| && MapAll(xs[..i], f) == Ok(acc) && f(xs[i]).Ok?
    ensures MapAll(xs[..i + 1], f) == Ok(acc + [f(xs[i]).value])
  {
    var upto := xs[..i + 1];
    assert upto[..|upto| - 1] == xs[..i] && upto[|upto| - 1] == xs[i];
  }

  /** Mapping element i after xs[..i] fails: its error is the outcome for
      all of xs. */
  lemma MapAllStop<A, B>(xs: seq<A>, i: nat, f: A -> Result<B>, acc: seq<B>)
    requires i < |xs| && MapAll(xs[..i], f) == Ok(acc) && f(xs[i]).Err?
    ensures MapAll(xs, f) == Err(f(xs[i]).error)
  {
    var upto := xs[..i + 1];
    assert upto[..|upto| - 1] == xs[..i] && upto[|upto| - 1] == xs[i];
    assert MapAll(upto, f) == Err(f(xs[i]).error);
    assert xs == upto + xs[i + 1..];
    MapAllAppend(upto, xs[i + 1..], f);
  }

  // ---------------------------------------------------------------------
  // Visiting pages in order
  // ---------------------------------------------------------------------

  /** The outcome of visiting `pages` in order when page p yields page(p):
      the records of all pages concatenated in visiting order, or the first
      error. */
  function Collect<T>(pages: seq<int>, page: int -> Result<seq<T>>): Result<seq<T>> {
    if pages == [] then Ok([]) else Then(page(pages[0]), Collect(pages[1..], page))
  }

  /** The sleeps of visiting `pages` in order: the retry waits of each page
      visited, each page that was scraped followed by one `pause`; nothing
      after the first page that failed. */
  function CollectSleeps<T>(pages: seq<int>, page: int -> Result<seq<T>>, waits: int -> seq<int>, pause: int): seq<int> {
    if pages == [] then []
    else if page(pages[0]).Err? then waits(pages[0])
    else waits(pages[0]) + [pause] + CollectSleeps(pages[1..], page, waits, pause)
  }

  /** Visiting p then q is visiting p, and then q unless p failed. */
  lemma {:induction false} CollectAppend<T>(p: seq<int>, q: seq<int>, page: int -> Result<seq<T>>)
    ensures Collect(p + q, page) == Then(Collect(p, page), Collect(q, page))
  {
    if p == [] {
      assert p + q == q;
      ThenOkEmptyLeft(Collect(q, page));
    } else {
      assert (p + q)[0] == p[0] && (p + q)[1..] == p[1..] + q;
      CollectAppend(p[1..], q, page);
      ThenAssoc(page(p[0]), Collect(p[1..], page), Collect(q, page));
    }
  }

  /** The sleeps of visiting p then q: p's, then q's unless p failed. */
  lemma {:induction false} CollectSleepsAppend<T>(p: seq<int>, q: seq<int>, page: int -> Result<seq<T>>, waits: int -> seq<int>, pause: int)
    ensures CollectSleeps(p + q, page, waits, pause)
            == CollectSleeps(p, page, waits, pause) + (if Collect(p, page).Ok? then CollectSleeps(q, page, waits, pause) else [])
  {
    if p == [] {
      assert p + q == q;
      assert [] + CollectSleeps(q, page, waits, pause) == CollectSleeps(q, page, waits, pause);
    } else {
      var x := p[0];
      assert (p + q)[0] == x && (p + q)[1..] == p[1..] + q;
      if page(x).Err? {
        assert CollectSleeps(p, page, waits, pause) + [] == CollectSleeps(p, page, waits, pause);
      } else {
        CollectSleepsAppend(p[1..], q, page, waits, pause);
        var w := waits(x) + [pause];
        var r := CollectSleeps(p[1..], page, waits, pause);
        var rest: seq<int> := if Collect(p[1..], page).Ok? then CollectSleeps(q, page, waits, pause) else [];
        assert Collect(p, page).Ok? == Collect(p[1..], page).Ok?;
        assert w + (r + rest) == (w + r) + rest;
      }
    }
  }

  /** One page alone: its records; its retry waits and then one pause if it
      was scraped. */
  lemma CollectOne<T>(x: int, page: int -> Result<seq<T>>, waits: int -> seq<int>, pause: int)
    ensures Collect([x], page) == page(x)
    ensures CollectSleeps([x], page, waits, pause) == waits(x) + (if page(x).Ok? then [pause] else [])
  {
    assert [x][1..] == [];
    ThenOkEmpty(page(x));
    assert waits(x) + [pause] + [] == waits(x) + [pause];
  }

  /** Visiting one more page. */
  lemma CollectStep<T>(pages: seq<int>, i: nat, page: int -> Result<seq<T>>, waits: int -> seq<int>, pause: int)
    requires i < |pages|
    ensures Collect(pages[..i + 1], page) == Then(Collect(pages[..i], page), page(pages[i]))
    ensures CollectSleeps(pages[..i + 1], page, waits, pause)
            == if Collect(pages[..i], page).Err? then CollectSleeps(pages[..i], page, waits, pause)
               else CollectSleeps(pages[..i], page, waits, pause) + (waits(pages[i]) + (if page(pages[i]).Ok? then [pause] else []))
  {
    assert pages[..i + 1] == pages[..i] + [pages[i]];
    CollectAppend(pages[..i], [pages[i]], page);
    CollectSleepsAppend(pages[..i], [pages[i]], page, waits, pause);
    CollectOne(pages[i], page, waits, pause);
    assert CollectSleeps(pages[..i], page, waits, pause) + [] == CollectSleeps(pages[..i], page, waits, pause);
  }

  /** Once a page has failed, later pages change neither the outcome nor
      the sleeps. */
  lemma CollectFailed<T>(pages: seq<int>, k: nat, page: int -> Result<seq<T>>, waits: int -> seq<int>, pause: int)
    requires k <= |pages| && Collect(pages[..k], page).Err?
    ensures Collect(pages, page) == Collect(pages[..k], page)
    ensures CollectSleeps(pages, page, waits, pause) == CollectSleeps(pages[..k], page, waits, pause)
  {
    assert pages == pages[..k] + pages[k..];
    CollectAppend(pages[..k], pages[k..], page);
    CollectSleepsAppend(pages[..k], pages[k..], page, waits, pause);
    assert CollectSleeps(pages[..k], page, waits, pause) + [] == CollectSleeps(pages[..k], page, waits, pause);
  }

  /** Visiting page pages[i] after pages[..i]: on success its records and
      waits are appended, followed by one pause; on failure its error is the
      outcome of the whole visit and nothing follows its waits. */
  lemma CollectNext<T>(pages: seq<int>, i: nat, page: int -> Result<seq<T>>, waits: int -> seq<int>, pause: int,
                       acc: seq<T>, log: seq<int>)
    requires i < |pages|
    requires Collect(pages[..i], page) == Ok(acc)
    requires log == CollectSleeps(pages[..i], page, waits, pause)
    ensures page(pages[i]).Ok? ==>
      Collect(pages[..i + 1], page) == Ok(acc + page(pages[i]).value)
      && CollectSleeps(pages[..i + 1], page, waits, pause) == log + waits(pages[i]) + [pause]
    ensures page(pages[i]).Err? ==>
      Collect(pages, page) == page(pages[i])
      && CollectSleeps(pages, page, waits, pause) == log + waits(pages[i])
  {
    CollectStep(pages, i, page, waits, pause);
    if page(pages[i]).Err? {
      CollectFailed(pages, i + 1, page, waits, pause);
      assert log + (waits(pages[i]) + []) == log + waits(pages[i]);
    } else {
      assert log + (waits(pages[i]) + [pause]) == log + waits(pages[i]) + [pause];
    }
  }

  /** Visiting succeeds exactly when every page does. */
  lemma {:induction false} CollectOk<T>(pages: seq<int>, page: int -> Result<seq<T>>)
    ensures Collect(pages, page).Ok? <==> forall i :: 0 <= i < |pages| ==> page(pages[i]).Ok?
  {
    if pages != [] {
      CollectOk(pages[1..], page);
      assert forall i :: 1 <= i < |pages| ==> pages[1..][i - 1] == pages[i];
    }
  }

  /** The retry waits of all pages together. */
  function TotalWaits(pages: seq<int>, waits: int -> seq<int>): int {
    if pages == [] then 0 else Sum(waits(pages[0])) + TotalWaits(pages[1..], waits)
  }

  /** When every page succeeds, exactly one pause follows each page: the
      time slept is the pages' retry waits plus one pause per page. */
  lemma {:induction false} CollectSleepsAllOk<T>(pages: seq<int>, page: int -> Result<seq<T>>, waits: int -> seq<int>, pause: int)
    requires forall i :: 0 <= i < |pages| ==> page(pages[i]).Ok?
    ensures Sum(CollectSleeps(pages, page, waits, pause)) == TotalWaits(pages, waits) + |pages| * pause
  {
    if pages != [] {
      var x := pages[0];
      assert page(x).Ok?;
      assert forall i :: 0 <= i < |pages[1..]| ==> pages[1..][i] == pages[i + 1];
      CollectSleepsAllOk(pages[1..], page, waits, pause);
      var r := CollectSleeps(pages[1..], page, waits, pause);
      SumAppend(waits(x) + [pause], r);
      SumAppend(waits(x), [pause]);
      assert Sum([pause]) == pause by {
        assert [pause][..0] == [];
      }
      assert (|pages| - 1) * pause + pause == |pages| * pause;
    }
  }

  // ---------------------------------------------------------------------
  // The scraper
  // ---------------------------------------------------------------------

  class Scraper {
    const baseUrl: string
    const maxRetries: int
    const retryInterval: int
    const betweenReqWait: int

    constructor(baseUrl: string, maxRetries: int := 3, retryInterval: int := 5, betweenReqWait: int := 5)
      ensures this.baseUrl == baseUrl && this.maxRetries == maxRetries
      ensures this.retryInterval == retryInterval && this.betweenReqWait == betweenReqWait
    {
      this.baseUrl := baseUrl;
      this.maxRetries := maxRetries;
      this.retryInterval := retryInterval;
      this.betweenReqWait := betweenReqWait;
    }

    // ----- specification of the retry loop -----

    /** What _get_response yields for the given attempt outcomes: the page of
        the first successful attempt among the first max_retries, otherwise
        the exception of the last attempt, or TypeError when none was made. */
    function Retrieve(attempts: nat -> FetchOutcome): Result<Document> {
      var bound := AttemptBound(maxRetries);
      var n := FailedRun(attempts, 0, bound);
      if n < bound then Ok(attempts(n).response)
      else if n == 0 then Err(TypeError)
      else Err(RequestFailed(attempts(n - 1).error))
    }

    /** The sleeps _get_response performs: one retry interval per failed attempt. */
    function RetrySleeps(attempts: nat -> FetchOutcome): seq<int> {
      Repeat(retryInterval, FailedRun(attempts, 0, AttemptBound(maxRetries)))
    }

    /** The first success within max_retries attempts is returned, after one
        retry interval per earlier failure. */
    lemma RetrieveFirstSuccess(attempts: nat -> FetchOutcome, i: nat)
      requires i < maxRetries && attempts(i).Success?
      requires forall j :: 0 <= j < i ==> attempts(j).Failure?
      ensures Retrieve(attempts) == Ok(attempts(i).response)
      ensures RetrySleeps(attempts) == Repeat(retryInterval, i)
      ensures Sum(RetrySleeps(attempts)) == i * retryInterval
    {
      FailedRunIs(attempts, AttemptBound(maxRetries), i);
      SumRepeat(retryInterval, i);
    }

    /** When every one of the max_retries attempts fails, the last attempt's
        exception is raised after max_retries waits. */
    lemma RetrieveAllFail(attempts: nat -> FetchOutcome)
      requires maxRetries > 0
      requires forall j :: 0 <= j < maxRetries ==> attempts(j).Failure?
      ensures Retrieve(attempts) == Err(RequestFailed(attempts(maxRetries - 1).error))
      ensures RetrySleeps(attempts) == Repeat(retryInterval, maxRetries)
      ensures Sum(RetrySleeps(attempts)) == maxRetries * retryInterval
    {
      FailedRunIs(attempts, maxRetries, maxRetries);
      SumRepeat(retryInterval, maxRetries);
    }

    /** With max_retries <= 0 no request is made and `raise None` fails. */
    lemma RetrieveNoAttempt(attempts: nat -> FetchOutcome)
      requires maxRetries <= 0
      ensures Retrieve(attempts) == Err(TypeError)
      ensures RetrySleeps(attempts) == []
    {
    }

    /** Failed attempts plus the successful one never exceed max_retries. */
    lemma RetrieveBounded(attempts: nat -> FetchOutcome)
      ensures |RetrySleeps(attempts)| + (if Retrieve(attempts).Ok? then 1 else 0) <= AttemptBound(maxRetries)
      ensures Retrieve(attempts).Err? ==> |RetrySleeps(attempts)| == AttemptBound(maxRetries)
      ensures Sum(RetrySleeps(attempts)) == |RetrySleeps(attempts)| * retryInterval
    {
      SumRepeat(retryInterval, |RetrySleeps(attempts)|);
    }

    /** _get_response: retries until an attempt succeeds or max_retries
        attempts have failed, sleeping retry_interval after each failure. */
    method GetResponse(pageUrl: string, net: string -> nat -> FetchOutcome)
      returns (res: Result<Document>, sleeps: seq<int>)
      ensures res == Retrieve(net(pageUrl))
      ensures sleeps == RetrySleeps(net(pageUrl))
    {
      var attempts := net(pageUrl);
      var retryCounter := 0;
      var exception: Option<RequestError> := None;
      sleeps := [];
      while retryCounter < maxRetries
        invariant 0 <= retryCounter <= AttemptBound(maxRetries)
        invariant forall j :: 0 <= j < retryCounter ==> attempts(j).Failure?
        invariant exception == if retryCounter == 0 then None else Some(attempts(retryCounter - 1).error)
        invariant sleeps == Repeat(retryInterval, retryCounter)
        decreases maxRetries - retryCounter
      {
        match attempts(retryCounter)
        case Success(response) =>
          FailedRunIs(attempts, AttemptBound(maxRetries), retryCounter);
          res := Ok(response);
          return;
        case Failure(e) =>
          retryCounter := retryCounter + 1;
          sleeps := sleeps + [retryInterval];
          exception := Some(e);
      }
      FailedRunIs(attempts, AttemptBound(maxRetries), retryCounter);
      if exception.None? {
        res := Err(TypeError);
      } else {
        res := Err(RequestFailed(exception.value));
      }
    }

    // ----- one listing page -----

    /** What scrape_page yields for a page: the records of its entries, or
        the first exception raised on the way. */
    function PageResult(pageUrl: string, net: string -> nat -> FetchOutcome): Result<seq<Record>> {
      match Retrieve(net(pageUrl))
      case Err(e) => Err(e)
      case Ok(doc) => MapAll(doc.entries, RecordOf)
    }

    /** scrape_page: fetches the page and builds one record per entry, in
        document order. */
    method ScrapePage(pageUrl: string, net: string -> nat -> FetchOutcome)
      returns (res: Result<seq<Record>>, sleeps: seq<int>)
      ensures res == PageResult(pageUrl, net)
      ensures sleeps == RetrySleeps(net(pageUrl))
    {
      var response;
      response, sleeps := GetResponse(pageUrl, net);
      if response.Err? {
        res := Err(response.error);
        return;
      }
      var items := response.value.entries;
      var results: seq<Record> := [];
      for i := 0 to |items|
        invariant MapAll(items[..i], RecordOf) == Ok(results)
      {
        var r := RecordOf(items[i]);
        if r.Err? {
          MapAllStop(items, i, RecordOf, results);
          res := Err(r.error);
          return;
        }
        MapAllNext(items, i, RecordOf, results);
        results := results + [r.value];
      }
      assert items[..|items|] == items;
      res := Ok(results);
    }

    // ----- the last page number -----

    /** What _get_last_page_number yields: the number shown by the last
        pagination link of the base page. */
    function LastPage(net: string -> nat -> FetchOutcome): Result<int> {
      match Retrieve(net(baseUrl))
      case Err(e) => Err(e)
      case Ok(doc) => ParsePageCount(doc.paginationLinks)
    }

    /** _get_last_page_number: fetches the base page and reads the last
        pagination link as a number. */
    method GetLastPageNumber(net: string -> nat -> FetchOutcome)
      returns (res: Result<int>, sleeps: seq<int>)
      ensures res == LastPage(net)
      ensures sleeps == RetrySleeps(net(baseUrl))
    {
      var response;
      response, sleeps := GetResponse(baseUrl, net);
      if response.Err? {
        res := Err(response.error);
        return;
      }
      var links := response.value.paginationLinks;
      if |links| == 0 {
        res := Err(IndexError);
        return;
      }
      var text := Strip(links[|links| - 1]);
      var n := ParseDecimal(text);
      if n.None? {
        res := Err(ValueError(text));
      } else {
        res := Ok(n.value);
      }
    }

    // ----- all pages -----

    /** scrape_page's outcome for page p, fetched at PageUrl(baseUrl, p). */
    function PageOutcome(net: string -> nat -> FetchOutcome): int -> Result<seq<Record>> {
      p => PageResult(PageUrl(baseUrl, p), net)
    }

    /** The retry waits of scraping page p. */
    function PageWaits(net: string -> nat -> FetchOutcome): int -> seq<int> {
      p => RetrySleeps(net(PageUrl(baseUrl, p)))
    }

    /** What scrape_all_pages yields: the pages 1..last of the site visited in
        order, IndexError when the range is empty (page_range[-1]). */
    function AllPages(net: string -> nat -> FetchOutcome): Result<seq<Record>> {
      match LastPage(net)
      case Err(e) => Err(e)
      case Ok(last) =>
        if PageRange(last) == [] then Err(IndexError) else Collect(PageRange(last), PageOutcome(net))
    }

    /** The sleeps of scrape_all_pages. */
    function AllPagesSleeps(net: string -> nat -> FetchOutcome): seq<int> {
      RetrySleeps(net(baseUrl)) +
        match LastPage(net)
        case Err(_) => []
        case Ok(last) => CollectSleeps(PageRange(last), PageOutcome(net), PageWaits(net), betweenReqWait)
    }

    /** scrape_all_pages: reads the last page number and scrapes pages
        1..last in ascending order, waiting between_req_wait after each. */
    method ScrapeAllPages(net: string -> nat -> FetchOutcome)
      returns (res: Result<seq<Record>>, sleeps: seq<int>)
      ensures res == AllPages(net)
      ensures sleeps == AllPagesSleeps(net)
    {
      var last;
      last, sleeps := GetLastPageNumber(net);
      if last.Err? {
        res := Err(last.error);
        return;
      }
      var pageRange := PageRange(last.value);
      if |pageRange| == 0 {
        res := Err(IndexError);
        return;
      }
      var waits;
      res, waits := ScrapePages(pageRange, net);
      sleeps := sleeps + waits;
    }

    /** The page loop of scrape_all_pages: scrapes the given pages in order,
        extending the results by each page's records and waiting
        between_req_wait after each page; the first exception ends it. */
    method ScrapePages(pages: seq<int>, net: string -> nat -> FetchOutcome)
      returns (res: Result<seq<Record>>, sleeps: seq<int>)
      ensures res == Collect(pages, PageOutcome(net))
      ensures sleeps == CollectSleeps(pages, PageOutcome(net), PageWaits(net), betweenReqWait)
    {
      var allResults: seq<Record> := [];
      sleeps := [];
      for i := 0 to |pages|
        invariant Collect(pages[..i], PageOutcome(net)) == Ok(allResults)
        invariant sleeps == CollectSleeps(pages[..i], PageOutcome(net), PageWaits(net), betweenReqWait)
      {
        var page := pages[i];
        var pageResults, waits := ScrapePage(PageUrl(baseUrl, page), net);
        assert PageOutcome(net)(page) == pageResults && PageWaits(net)(page) == waits;
        CollectNext(pages, i, PageOutcome(net), PageWaits(net), betweenReqWait, allResults, sleeps);
        sleeps := sleeps + waits;
        if pageResults.Err? {
          res := Err(pageResults.error);
          return;
        }
        allResults := allResults + pageResults.value;
        sleeps := sleeps + [betweenReqWait];
      }
      assert pages[..|pages|] == pages;
      res := Ok(allResults);
    }

    /** With a readable page count n >= 1, the result is page 1's records,
        then page 2's, ..., then page n's, and page p is fetched at
        PageUrl(baseUrl, p). */
    lemma AllPagesInOrder(net: string -> nat -> FetchOutcome, n: int, k: int)
      requires LastPage(net) == Ok(n) && 1 <= k < n
      ensures AllPages(net) == Then(Collect(PageRange(k), PageOutcome(net)), Collect(PageRange(n, k + 1), PageOutcome(net)))
    {
      PageRangeSplit(n, 1, k);
      CollectAppend(PageRange(k), PageRange(n, k + 1), PageOutcome(net));
    }

    /** A readable page count below 1 fails with IndexError before any
        listing page is fetched. */
    lemma AllPagesEmptyRange(net: string -> nat -> FetchOutcome)
      requires LastPage(net) == Ok(0)
      ensures AllPages(net) == Err(IndexError)
      ensures AllPagesSleeps(net) == RetrySleeps(net(baseUrl))
    {
    }
  }
}
