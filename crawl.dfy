/**
 * Link discovery and the crawl frontier: the href filter of `process`, the two module-level
 * sets `visited` and `to_visit`, the drain loop of `take_screenshot` and the outer loop of
 * `process_url`.
 */
module Crawl {
  import opened Strings
  import Urls

  /** The hrefs `process` ignores; an href is dropped only when it EQUALS one of them. */
  const Denylist: seq<string> := [".css", ".js", ".zip", ".tar.gz", ".jar", ".txt", ".json"]

  /** The same-site test of `process`: the base URL occurs somewhere in the href. */
  predicate SameSite(baseUrl: string, href: string)
    ensures SameSite(baseUrl, href) <==> exists i :: OccursAt(href, baseUrl, i)
  {
    ContainsIffOccurs(href, baseUrl);
    Contains(href, baseUrl)
  }

  /**
   * The list comprehension of `process`: the extracted hrefs, in document order, without
   * those equal to a denylist entry.
   */
  function Candidates(hrefs: seq<string>): (urls: seq<string>)
    ensures |urls| <= |hrefs|
    ensures forall u :: u in urls <==> u in hrefs && u !in Denylist
    decreases |hrefs|
  {
    if hrefs == [] then []
    else if hrefs[0] in Denylist then Candidates(hrefs[1..])
    else [hrefs[0]] + Candidates(hrefs[1..])
  }

  /** The filter keeps document order: filtering a concatenation filters each part. */
  lemma {:induction false} CandidatesAppend(a: seq<string>, b: seq<string>)
    ensures Candidates(a + b) == Candidates(a) + Candidates(b)
    decreases |a|
  {
    if a == [] {
      assert a + b == b;
    } else {
      assert (a + b)[0] == a[0];
      assert (a + b)[1..] == a[1..] + b;
      CandidatesAppend(a[1..], b);
    }
  }

  /**
   * What a run of `process` over `hrefs` adds to `to_visit`: the hrefs that survive the
   * comprehension and then pass the same-site test of the loop.
   */
  function Accepted(baseUrl: string, hrefs: seq<string>): (accepted: set<string>)
    ensures accepted == set u | u in Candidates(hrefs) && SameSite(baseUrl, u)
  {
    set u | u in hrefs && u !in Denylist && SameSite(baseUrl, u)
  }

  /** The set of the elements of a sequence. */
  function Members(xs: seq<string>): set<string>
  {
    set x | x in xs
  }

  /** No element occurs twice. */
  predicate Distinct(xs: seq<string>)
  {
    forall i, j :: 0 <= i < j < |xs| ==> xs[i] != xs[j]
  }

  /**
   * `list(to_visit)`: every member of the set exactly once, in an order the model leaves
   * open (Python's set iteration order).
   */
  method Snapshot(s: set<string>) returns (xs: seq<string>)
    ensures Distinct(xs)
    ensures Members(xs) == s
    ensures |xs| == |s|
  {
    xs := [];
    var rest := s;
    while rest != {}
      invariant rest <= s
      invariant forall u :: u in xs <==> u in s && u !in rest
      invariant Distinct(xs)
      invariant |xs| + |rest| == |s|
      decreases |rest|
    {
      var u :| u in rest;
      xs := xs + [u];
      rest := rest - {u};
    }
  }

  /** The crawl state of one run: the two module-level sets, and the URLs shot so far. */
  class Frontier {
    /** URLs already screenshotted. */
    var visited: set<string>
    /** URLs discovered and not yet screenshotted. */
    var toVisit: set<string>
    /** Every URL handed to `save_screenshot`, in call order: a record kept for the proofs only. */
    ghost var attempts: seq<string>

    /** The empty sets a fresh run starts with. */
    constructor ()
      ensures visited == {} && toVisit == {} && attempts == []
    {
      visited, toVisit, attempts := {}, {}, [];
    }

    /** No URL is both pending and visited. */
    predicate Disjoint()
      reads this
    {
      visited !! toVisit
    }

    /**
     * `save_screenshot(driver, url)`: navigation and the file write are not modelled; the
     * call is recorded in `attempts` and the file name it would write is returned.
     */
    method SaveScreenshot(url: string) returns (fileName: string)
      modifies this`attempts
      ensures attempts == old(attempts) + [url]
      ensures fileName == Urls.FileName(url)
    {
      attempts := attempts + [url];
      fileName := Urls.FileName(url);
    }

    /**
     * `process(base_url)` with the hrefs of the fetched page given as `hrefs`: every href
     * that is not a denylist entry and contains `baseUrl` is added to `to_visit`; nothing
     * is removed and `visited` is untouched.
     */
    method Process(baseUrl: string, hrefs: seq<string>)
      modifies this`toVisit
      ensures toVisit == old(toVisit) + Accepted(baseUrl, hrefs)
      ensures forall u :: u in toVisit && u !in old(toVisit) ==> SameSite(baseUrl, u) && u !in Denylist
      ensures forall h :: h in hrefs && h !in Denylist && SameSite(baseUrl, h) ==> h in toVisit
    {
      var urls := Candidates(hrefs);
      var i := 0;
      while i < |urls|
        invariant 0 <= i <= |urls|
        invariant toVisit == old(toVisit) + (set u | u in urls[..i] && SameSite(baseUrl, u))
      {
        assert urls[..i + 1] == urls[..i] + [urls[i]];
        if SameSite(baseUrl, urls[i]) {
          toVisit := toVisit + {urls[i]};
        }
        i := i + 1;
      }
      assert urls[..i] == urls;
    }

    /**
     * The body of the loop in `take_screenshot()`: shoot `url`, add it to `visited`, remove
     * it from `to_visit`. It is called only on a pending URL, so `remove` cannot raise.
     */
    method Visit(url: string)
      requires url in toVisit
      modifies this`visited, this`toVisit, this`attempts
      ensures visited == old(visited) + {url}
      ensures toVisit == old(toVisit) - {url}
      ensures attempts == old(attempts) + [url]
      ensures url in visited && url !in toVisit
    {
      var _ := SaveScreenshot(url);
      visited := visited + {url};
      toVisit := toVisit - {url};
    }

    /**
     * `take_screenshot()`: over a snapshot of `to_visit`, each URL is shot, added to
     * `visited` and removed from `to_visit`. Afterwards nothing is pending, everything that
     * was pending is visited, and each pending URL was shot exactly once: `shot` lists
     * the screenshots of this call in order.
     */
    method TakeScreenshot() returns (ghost shot: seq<string>)
      modifies this`visited, this`toVisit, this`attempts
      ensures toVisit == {}
      ensures visited == old(visited) + old(toVisit)
      ensures attempts == old(attempts) + shot
      ensures Distinct(shot) && Members(shot) == old(toVisit) && |shot| == |old(toVisit)|
    {
      var urls := Snapshot(toVisit);
      DrainSnapshot(urls);
      shot := urls;
    }

    /**
     * The loop of `take_screenshot()` over the snapshot `urls` of `to_visit`. At every
     * iteration boundary the processed URLs are visited and no longer pending, and
     * `visited` together with `to_visit` is what it was before the loop.
     */
    method DrainSnapshot(urls: seq<string>)
      requires Distinct(urls) && Members(urls) == toVisit
      modifies this`visited, this`toVisit, this`attempts
      ensures toVisit == {}
      ensures visited == old(visited) + old(toVisit)
      ensures attempts == old(attempts) + urls
    {
      var i := 0;
      while i < |urls|
        invariant 0 <= i <= |urls|
        invariant visited == old(visited) + Members(urls[..i])
        invariant toVisit == old(toVisit) - Members(urls[..i])
        invariant visited + toVisit == old(visited) + old(toVisit)
        invariant old(visited) !! old(toVisit) ==> Disjoint()
        invariant attempts == old(attempts) + urls[..i]
      {
        DrainStep(old(visited), old(toVisit), urls, i);
        Visit(urls[i]);
        i := i + 1;
      }
      assert urls[..i] == urls;
    }

    /**
     * `process_url(url)`: discovery once, then `take_screenshot()` while anything is
     * pending. `passes` counts the drain calls: one when discovery left anything pending,
     * none otherwise; `shots` lists the screenshots of the whole call in order.
     */
    method ProcessUrl(url: string, hrefs: seq<string>) returns (ghost passes: nat, ghost shots: seq<string>)
      modifies this`visited, this`toVisit, this`attempts
      ensures toVisit == {}
      ensures visited == old(visited) + old(toVisit) + Accepted(url, hrefs)
      ensures passes == if old(toVisit) + Accepted(url, hrefs) == {} then 0 else 1
      ensures attempts == old(attempts) + shots
      ensures Distinct(shots) && Members(shots) == old(toVisit) + Accepted(url, hrefs)
    {
      Process(url, hrefs);
      ghost var pending := toVisit;
      passes, shots := 0, [];
      while toVisit != {}
        invariant passes <= 1
        invariant attempts == old(attempts) + shots
        invariant passes == 0 ==> toVisit == pending && visited == old(visited) && shots == []
        invariant passes == 1 ==> toVisit == {} && visited == old(visited) + pending && pending != {}
        invariant passes == 1 ==> Distinct(shots) && Members(shots) == pending
        decreases |toVisit|
      {
        shots := TakeScreenshot();
        passes := passes + 1;
      }
    }
  }

  /**
   * One step of the drain over a snapshot `urls` of the pending set `t0`: the next URL is
   * still pending, and moving it keeps the two sets in step with the processed prefix.
   */
  lemma DrainStep(v0: set<string>, t0: set<string>, urls: seq<string>, i: nat)
    requires Distinct(urls) && Members(urls) == t0
    requires i < |urls|
    ensures urls[..i + 1] == urls[..i] + [urls[i]]
    ensures urls[i] in t0 - Members(urls[..i])
    ensures v0 + Members(urls[..i]) + {urls[i]} == v0 + Members(urls[..i + 1])
    ensures t0 - Members(urls[..i]) - {urls[i]} == t0 - Members(urls[..i + 1])
    ensures Members(urls[..i + 1]) <= t0
    ensures (v0 + Members(urls[..i + 1])) + (t0 - Members(urls[..i + 1])) == v0 + t0
    ensures v0 !! t0 ==> (v0 + Members(urls[..i + 1])) !! (t0 - Members(urls[..i + 1]))
  {
    assert urls[..i + 1] == urls[..i] + [urls[i]];
    assert forall y :: y in urls[..i] + [urls[i]] <==> y in urls[..i] || y == urls[i];
    assert urls[i] in Members(urls);
  }

  /**
   * The `--url` flow on a fresh run: the module-level sets start empty, `process_url` runs,
   * and the screenshotted URLs are exactly the accepted links, each shot once.
   */
  method CrawlSite(url: string, hrefs: seq<string>) returns (captured: set<string>, ghost shots: seq<string>)
    ensures captured == Accepted(url, hrefs)
    ensures Distinct(shots) && Members(shots) == captured
  {
    var frontier := new Frontier();
    ghost var passes;
    passes, shots := frontier.ProcessUrl(url, hrefs);
    captured := frontier.visited;
  }
}

/** Properties of the href filter, stated over `Accepted`. */
module LinkFilter {
  import opened Strings
  import opened Crawl

  /** No denylist entry holds a '/', so no href with a '/' is ever dropped by the denylist. */
  lemma SlashedHrefNotDenied(u: string)
    requires '/' in u
    ensures u !in Denylist
  {
    forall d | d in Denylist ensures '/' !in d {
    }
  }

  /**
   * The denylist is whole-string equality: an href made of the base URL and a path with a
   * '/' is kept whatever its extension (".js", ".css", ...).
   */
  lemma SameSitePathKept(baseUrl: string, path: string, hrefs: seq<string>)
    requires baseUrl + path in hrefs
    requires '/' in path
    ensures baseUrl + path in Accepted(baseUrl, hrefs)
  {
    assert (baseUrl + path)[|baseUrl|..] == path;
    SlashedHrefNotDenied(baseUrl + path);
    assert StartsWith(baseUrl + path, baseUrl);
  }

  /** A relative href such as "/about" has no ':', so it never contains a base URL with a scheme. */
  lemma RelativeHrefDropped(baseUrl: string, href: string, hrefs: seq<string>)
    requires ':' in baseUrl && ':' !in href
    ensures href !in Accepted(baseUrl, hrefs)
  {
    var k :| 0 <= k < |baseUrl| && baseUrl[k] == ':';
    MissingCharNotContained(href, baseUrl, k);
  }

  /** The same-site test is a substring test: a foreign URL that merely mentions the base is kept. */
  lemma ForeignHrefMentioningBaseKept(baseUrl: string, prefix: string, hrefs: seq<string>)
    requires prefix + baseUrl in hrefs
    requires '/' in prefix
    ensures prefix + baseUrl in Accepted(baseUrl, hrefs)
  {
    assert (prefix + baseUrl)[..|prefix|] == prefix;
    SlashedHrefNotDenied(prefix + baseUrl);
    StartsWithContains(baseUrl, baseUrl);
    ContainsAppendLeft(prefix, baseUrl, baseUrl);
  }

  /**
   * A page with three links: of "BASE/x", "BASE/y.js" and a foreign URL lacking some
   * character of BASE, the first two are kept and the foreign one is dropped.
   */
  lemma ExtractionScenario(baseUrl: string, foreign: string, k: nat)
    requires k < |baseUrl| && baseUrl[k] !in foreign
    ensures Accepted(baseUrl, [baseUrl + "/x", baseUrl + "/y.js", foreign])
         == {baseUrl + "/x", baseUrl + "/y.js"}
  {
    var hrefs := [baseUrl + "/x", baseUrl + "/y.js", foreign];
    SameSitePathKept(baseUrl, "/x", hrefs);
    SameSitePathKept(baseUrl, "/y.js", hrefs);
    MissingCharNotContained(foreign, baseUrl, k);
  }

  /** The scenario on "http://a.test": "http://b.test/z" lacks the 'a' at index 7. */
  lemma ExtractionExample()
    ensures Accepted("http://a.test", ["http://a.test/x", "http://a.test/y.js", "http://b.test/z"])
         == {"http://a.test/x", "http://a.test/y.js"}
  {
    ExtractionScenario("http://a.test", "http://b.test/z", 7);
    assert "http://a.test" + "/x" == "http://a.test/x";
    assert "http://a.test" + "/y.js" == "http://a.test/y.js";
  }
}
