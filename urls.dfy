/** The URL normaliser `fix_url` and the screenshot file name computed in `save_screenshot`. */
module Urls {
  import opened Strings

  /** True when the substring test of `fix_url` finds a scheme anywhere in `u`. */
  predicate HasScheme(u: string)
    ensures HasScheme(u) <==> (exists i :: OccursAt(u, "http://", i)) || (exists i :: OccursAt(u, "https://", i))
  {
    ContainsIffOccurs(u, "http://");
    ContainsIffOccurs(u, "https://");
    Contains(u, "http://") || Contains(u, "https://")
  }

  /**
   * `fix_url`: a string in which neither "http://" nor "https://" occurs (anywhere, not only
   * at the front) gets "http://" put in front; any other string is returned as it is.
   */
  function FixUrl(u: string): (r: string)
    ensures HasScheme(r)
    ensures HasScheme(u) ==> r == u
    ensures !HasScheme(u) ==> r == "http://" + u && StartsWith(r, "http://")
  {
    if !HasScheme(u) then
      StartsWithContains("http://" + u, "http://");
      "http://" + u
    else
      u
  }

  /** Normalising twice is normalising once. */
  lemma FixUrlIdempotent(u: string)
    ensures FixUrl(FixUrl(u)) == FixUrl(u)
  {
  }

  /** `fix_url` changes its input exactly when no scheme occurs in it. */
  lemma FixUrlChangesIff(u: string)
    ensures FixUrl(u) != u <==> !HasScheme(u)
  {
    if !HasScheme(u) {
      assert |FixUrl(u)| == |u| + 7;
    }
  }

  /**
   * The scheme test is a substring test, so the result need not begin with a scheme: a
   * bare host whose query string mentions another URL is left alone.
   */
  lemma FixUrlNeedNotStartWithScheme()
    ensures FixUrl("a.test/?r=http://b") == "a.test/?r=http://b"
    ensures !StartsWith(FixUrl("a.test/?r=http://b"), "http://")
    ensures !StartsWith(FixUrl("a.test/?r=http://b"), "https://")
  {
    var u := "a.test/?r=http://b";
    assert u[10..] == "http://b";
    StartsWithContains(u[10..], "http://");
    ContainsAppendLeft(u[..10], u[10..], "http://");
    assert u[..10] + u[10..] == u;
    assert u[..7][0] != "http://"[0];
    assert u[..8][0] != "https://"[0];
  }

  /** The four chained substitutions of line 49, without the ".png" suffix. */
  function Stem(url: string): (stem: string)
    ensures |stem| <= |url|
  {
    var noScheme := Replace(url, "http://", "");
    var noSlash := Replace(noScheme, "/", "-");
    var noColon := Replace(noSlash, ":", "-");
    Replace(noColon, ".html", "")
  }

  /**
   * The screenshot file name for `url`: every "http://" removed, every '/' and ':' turned
   * into '-', every ".html" removed, then ".png" appended.
   */
  function FileName(url: string): (name: string)
    ensures EndsWith(name, ".png")
    ensures |name| <= |url| + 4
    ensures name[..|name| - 4] == Stem(url)
  {
    Stem(url) + ".png"
  }

  /** The part before ".png" holds no '/' and no ':'. */
  lemma FileNameHasNoSeparators(url: string)
    ensures forall i :: 0 <= i < |FileName(url)| - 4 ==> FileName(url)[i] != '/' && FileName(url)[i] != ':'
  {
    var noScheme := Replace(url, "http://", "");
    var noSlash := Replace(noScheme, "/", "-");
    var noColon := Replace(noSlash, ":", "-");
    var stem := Replace(noColon, ".html", "");
    ReplaceRemovesChar(noScheme, '/', "-");
    ReplaceRemovesChar(noSlash, ':', "-");
    if '/' in noColon {
      ReplaceCharsFrom(noSlash, ":", "-", '/');
    }
    if '/' in stem {
      ReplaceCharsFrom(noColon, ".html", "", '/');
    }
    if ':' in stem {
      ReplaceCharsFrom(noColon, ".html", "", ':');
    }
    assert FileName(url)[..|FileName(url)| - 4] == stem;
    forall i | 0 <= i < |FileName(url)| - 4
      ensures FileName(url)[i] != '/' && FileName(url)[i] != ':'
    {
      assert FileName(url)[i] == stem[i];
    }
  }

  /** A leading "http://" is dropped from the file name. */
  lemma FileNameDropsHttp(rest: string)
    ensures FileName("http://" + rest) == FileName(rest)
  {
    ReplaceLeading(rest, "http://", "");
    assert "" + Replace(rest, "http://", "") == Replace(rest, "http://", "");
  }

  /** "https://" is not stripped: it becomes "https---" at the front of the file name. */
  lemma FileNameKeepsHttps(rest: string)
    ensures FileName("https://" + rest) == "https---" + FileName(rest)
  {
    calc {
      FileName("https://" + rest);
      Stem("https://" + rest) + ".png";
      { StemKeepsHttps(rest); }
      ("https---" + Stem(rest)) + ".png";
      "https---" + (Stem(rest) + ".png");
      "https---" + FileName(rest);
    }
  }

  /** The four substitutions turn a leading "https://" into "https---" and leave the rest to themselves. */
  lemma StemKeepsHttps(rest: string)
    ensures Stem("https://" + rest) == "https---" + Stem(rest)
  {
    var a := Replace(rest, "http://", "");
    var b := Replace(a, "/", "-");
    var c := Replace(b, ":", "-");
    calc {
      Stem("https://" + rest);
      Replace(Replace(Replace(Replace("https://" + rest, "http://", ""), "/", "-"), ":", "-"), ".html", "");
      { HttpsSurvivesSchemeStrip(rest); }
      Replace(Replace(Replace("https://" + a, "/", "-"), ":", "-"), ".html", "");
      { HttpsSlashes(a); }
      Replace(Replace("https:--" + b, ":", "-"), ".html", "");
      { HttpsColon(b); }
      Replace("https---" + c, ".html", "");
      { ReplaceKeepsPrefix("https---", c, ".html", ""); }
      "https---" + Replace(c, ".html", "");
    }
  }

  /** No occurrence of "http://" starts inside a leading "https://". */
  lemma HttpsSurvivesSchemeStrip(rest: string)
    ensures Replace("https://" + rest, "http://", "") == "https://" + Replace(rest, "http://", "")
  {
    var s := ['h'] + ("ttps://" + rest);
    assert "https://" + rest == s;
    assert !StartsWith(s, "http://") by { assert |s| < 7 || s[..7][4] == 's'; }
    ReplaceSkipOne('h', "ttps://" + rest, "http://", "");
    ReplaceKeepsPrefix("ttps://", rest, "http://", "");
    assert ['h'] + ("ttps://" + Replace(rest, "http://", "")) == "https://" + Replace(rest, "http://", "");
  }

  /** The two slashes of "https://" become dashes. */
  lemma HttpsSlashes(a: string)
    ensures Replace("https://" + a, "/", "-") == "https:--" + Replace(a, "/", "-")
  {
    assert "https://" + a == "https:" + ("/" + ("/" + a));
    ReplaceKeepsPrefix("https:", "/" + ("/" + a), "/", "-");
    ReplaceLeading("/" + a, "/", "-");
    ReplaceLeading(a, "/", "-");
  }

  /** The colon of "https:--" becomes a dash. */
  lemma HttpsColon(b: string)
    ensures Replace("https:--" + b, ":", "-") == "https---" + Replace(b, ":", "-")
  {
    ColonOnce("https", "--", b);
    assert "https:--" + b == "https" + ":" + "--" + b;
    assert "https" + "-" + "--" == "https---";
  }

  /** A ':' between two colon-free texts becomes '-', and the scan goes on with what follows. */
  lemma ColonOnce(p: string, q: string, b: string)
    requires ':' !in p && ':' !in q
    ensures Replace(p + ":" + q + b, ":", "-") == p + "-" + q + Replace(b, ":", "-")
  {
    assert p + ":" + q + b == p + (":" + (q + b));
    ReplaceKeepsPrefix(p, ":" + (q + b), ":", "-");
    ReplaceLeading(q + b, ":", "-");
    ReplaceKeepsPrefix(q, b, ":", "-");
    assert p + ("-" + (q + Replace(b, ":", "-"))) == p + "-" + q + Replace(b, ":", "-");
  }

  /** The file name of the normalised URL does not depend on whether "http://" was added. */
  lemma FileNameOfFixUrl(u: string)
    requires !HasScheme(u)
    ensures FileName(FixUrl(u)) == FileName(u)
  {
    FileNameDropsHttp(u);
  }

  /** A string free of every substituted pattern keeps its text; only ".png" is appended. */
  lemma FileNameOfPlainName(url: string)
    requires !Contains(url, "http://") && '/' !in url && ':' !in url && !Contains(url, ".html")
    ensures FileName(url) == url + ".png"
  {
    ReplaceAbsent(url, "http://", "");
    MissingCharNotContained(url, "/", 0);
    ReplaceAbsent(url, "/", "-");
    MissingCharNotContained(url, ":", 0);
    ReplaceAbsent(url, ":", "-");
    ReplaceAbsent(url, ".html", "");
  }

  /**
   * A page URL "http://HOST/PAGE.html" becomes "HOST-PAGE.png" when neither part holds a
   * separator or an 'h' (so no other pattern occurrence can start inside them).
   */
  lemma FileNameOfPage(host: string, page: string)
    requires '/' !in host && ':' !in host && 'h' !in host
    requires '/' !in page && ':' !in page && 'h' !in page
    ensures FileName("http://" + host + "/" + page + ".html") == host + "-" + page + ".png"
  {
    var x := host + "/" + page + ".html";
    var y := host + "-" + page + ".html";
    assert "http://" + host + "/" + page + ".html" == "http://" + x;
    FileNameDropsHttp(x);
    ReplaceMissingChar(x, "http://", "", 4);
    PageSlash(host, page);
    ReplaceMissingChar(y, ":", "-", 0);
    PageHtml(host + "-" + page);
  }

  /** The one '/' between host and page becomes '-'. */
  lemma PageSlash(host: string, page: string)
    requires '/' !in host && '/' !in page
    ensures Replace(host + "/" + page + ".html", "/", "-") == host + "-" + page + ".html"
  {
    var rest := page + ".html";
    assert '/' !in rest by {
      assert forall c :: c in rest ==> c in page || c in ".html";
    }
    SlashOnce(host, rest);
    assert host + "/" + page + ".html" == host + "/" + rest;
    assert host + "-" + page + ".html" == host + "-" + rest;
  }

  /** The one '/' between two slash-free texts becomes '-'. */
  lemma SlashOnce(a: string, b: string)
    requires '/' !in a && '/' !in b
    ensures Replace(a + "/" + b, "/", "-") == a + "-" + b
  {
    assert a + "/" + b == a + ("/" + b);
    ReplaceKeepsPrefix(a, "/" + b, "/", "-");
    ReplaceLeading(b, "/", "-");
    ReplaceMissingChar(b, "/", "-", 0);
    assert a + ("-" + b) == a + "-" + b;
  }

  /** Only the final ".html" is an occurrence when no 'h' comes before it. */
  lemma PageHtml(q: string)
    requires 'h' !in q
    ensures Replace(q + ".html", ".html", "") == q
  {
    NoHtmlStartsIn(q, ".html");
    ReplaceLeading("", ".html", "");
    assert q + "" == q;
  }

  /** No ".html" starts inside a text without 'h' that is followed by something not starting with 'h'. */
  lemma NoHtmlStartsIn(q: string, s: string)
    requires 'h' !in q
    requires |s| > 0 ==> s[0] != 'h'
    ensures Replace(q + s, ".html", "") == q + Replace(s, ".html", "")
  {
    NoHtmlAt(q, s);
    ReplaceKeepsClearPrefix(q, s, ".html", "");
  }

  /** Each position of such a text is followed by a character other than 'h', or by too little. */
  lemma NoHtmlAt(q: string, s: string)
    requires 'h' !in q
    requires |s| > 0 ==> s[0] != 'h'
    ensures forall i :: 0 <= i < |q| ==> !StartsWith((q + s)[i..], ".html")
  {
    forall i | 0 <= i < |q| ensures !StartsWith((q + s)[i..], ".html") {
      if i + 1 < |q| {
        assert (q + s)[i..][1] == q[i + 1];
      } else if |s| > 0 {
        assert (q + s)[i..][1] == s[0];
      }
    }
  }

  /** A page URL with a scheme, a slash and ".html": each is handled in turn. */
  lemma FileNameExample()
    ensures FileName("http://example.com/page.html") == "example.com-page.png"
  {
    FileNameOfPage("example.com", "page");
    ExamplePieces();
  }

  /**
   * The example URL and file name, assembled from their pieces, in a lemma of their own so
   * that the example's proof does not evaluate `FileName` on the literal.
   */
  lemma ExamplePieces()
    ensures "http://" + "example.com" + "/" + "page" + ".html" == "http://example.com/page.html"
    ensures "example.com" + "-" + "page" + ".png" == "example.com-page.png"
  {
  }

  /** A URL with the "https://" scheme and a bare host keeps the scheme letters. */
  lemma FileNameHttpsExample()
    ensures FileName("https://x") == "https---x.png"
  {
    FileNameOfHttpsHost("x");
    assert "https://" + "x" == "https://x";
    assert "https---" + "x" + ".png" == "https---x.png";
  }

  /** "https://HOST" keeps its scheme letters: the file name is "https---HOST.png". */
  lemma FileNameOfHttpsHost(host: string)
    requires '/' !in host && ':' !in host && 'h' !in host
    ensures FileName("https://" + host) == "https---" + host + ".png"
  {
    FileNameKeepsHttps(host);
    MissingCharNotContained(host, "http://", 0);
    MissingCharNotContained(host, ".html", 1);
    FileNameOfPlainName(host);
  }

  /**
   * Distinct URLs can share one file name, since '/' and ':' both become '-'; a later
   * screenshot then overwrites the earlier one.
   */
  lemma FileNameCollision(host: string, path: string)
    requires '/' !in host && ':' !in host && '/' !in path && ':' !in path
    ensures host + "/" + path != host + ":" + path
    ensures FileName(host + "/" + path) == FileName(host + ":" + path)
  {
    var slash := host + ("/" + path);
    var colon := host + (":" + path);
    assert host + "/" + path == slash && host + ":" + path == colon;
    assert slash[|host|] != colon[|host|];
    var dashed := host + ("-" + path);
    // host/path
    ReplaceMissingChar(slash, "http://", "", 4);
    ReplaceKeepsPrefix(host, "/" + path, "/", "-");
    ReplaceLeading(path, "/", "-");
    ReplaceMissingChar(path, "/", "-", 0);
    ReplaceMissingChar(dashed, ":", "-", 0);
    // host:path
    ReplaceMissingChar(colon, "http://", "", 5);
    ReplaceMissingChar(colon, "/", "-", 0);
    ReplaceKeepsPrefix(host, ":" + path, ":", "-");
    ReplaceLeading(path, ":", "-");
    ReplaceMissingChar(path, ":", "-", 0);
    assert Stem(slash) == Stem(colon);
  }

  /** Deleting ".html" in one pass can join two pieces into a new ".html". */
  lemma FileNameCanKeepHtml(host: string)
    requires '/' !in host && ':' !in host && 'h' !in host
    ensures FileName(host + ".ht.htmlml") == host + ".html.png"
    ensures Contains(FileName(host + ".ht.htmlml"), ".html")
  {
    var u := host + ".ht.htmlml";
    ReplaceMissingChar(u, "http://", "", 4);
    ReplaceMissingChar(u, "/", "-", 0);
    ReplaceMissingChar(u, ":", "-", 0);
    HtmlRejoins(host);
    var n := host + ".html.png";
    assert n[|host|..] == ".html" + ".png";
    StartsWithContains(n[|host|..], ".html");
    ContainsAppendLeft(n[..|host|], n[|host|..], ".html");
    assert n[..|host|] + n[|host|..] == n;
  }

  /** The one-pass scan over ".ht.htmlml" deletes the inner ".html" and leaves ".html". */
  lemma HtmlRejoins(host: string)
    requires 'h' !in host
    ensures Replace(host + ".ht.htmlml", ".html", "") == host + ".html"
  {
    var tail := "." + ("ht" + (".html" + "ml"));
    assert host + ".ht.htmlml" == host + tail;
    NoHtmlStartsIn(host, tail);
    HtmlRejoinsTail();
    assert "." + ("ht" + ("" + "ml")) == ".html";
  }

  /** The scan of ".ht.htmlml" on its own. */
  lemma HtmlRejoinsTail()
    ensures Replace("." + ("ht" + (".html" + "ml")), ".html", "") == "." + ("ht" + ("" + "ml"))
  {
    var tail := "." + ("ht" + (".html" + "ml"));
    assert tail[..5][3] != ".html"[3];
    ReplaceSkipOne('.', "ht" + (".html" + "ml"), ".html", "");
    ReplaceKeepsPrefix("ht", ".html" + "ml", ".html", "");
    ReplaceLeading("ml", ".html", "");
    ReplaceMissingChar("ml", ".html", "", 0);
  }
}
