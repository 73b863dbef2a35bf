/**
 * The ad blocker's request interceptor (`AdBlocker.interceptRequest`).
 * Every outbound request URL, as text, is blocked when it contains one of
 * fourteen fixed domain strings, or when the pattern
 * `\b(ad|track|analytics|advertisement|served)\b` matches it ignoring case.
 */
module RequestFilter {
  import opened Text

  datatype Decision = Allow | Block

  /** The blocklist, in the source's order. */
  const AdDomains: seq<string> := [
    "doubleclick.net", "googleadservices.com", "ads.youtube.com",
    "pagead2.googlesyndication.com", "adnxs.com", "trackcmp.net",
    "adroll.com", "googlesyndication.com", "securepubads.g.doubleclick.net",
    "ytads.youtube.com", "static.wolf-327b.com", "cdn.wolf-327b.com",
    "acdn.tsyndicate.com", "adservice.google.com"
  ]

  /** The alternatives of the keyword pattern, all lower case. */
  const Keywords: seq<string> := ["ad", "track", "analytics", "advertisement", "served"]

  // ---------------------------------------------------------------------
  // Substring containment: Python's `domain in url`
  // ---------------------------------------------------------------------

  /** `pat` occurs in `s` starting at index `i`. */
  predicate OccursAt(pat: string, s: string, i: nat) {
    i + |pat| <= |s| && s[i..i + |pat|] == pat
  }

  /** `pat` is a substring of `s`. */
  ghost predicate Occurs(pat: string, s: string) {
    exists i: nat :: OccursAt(pat, s, i)
  }

  /** Tries the start positions `i`, `i + 1`, ... of `s` in turn. */
  function ContainsFrom(pat: string, s: string, i: nat): (r: bool)
    decreases |s| - i
    ensures r <==> exists j: nat :: i <= j && OccursAt(pat, s, j)
  {
    if i + |pat| > |s| then false
    else if OccursAt(pat, s, i) then true
    else ContainsFrom(pat, s, i + 1)
  }

  /** `pat in s` for two strings. */
  function Contains(pat: string, s: string): (r: bool)
    ensures r <==> Occurs(pat, s)
  {
    ContainsFrom(pat, s, 0)
  }

  /** Being a substring is transitive. */
  lemma OccursTransitive(p: string, q: string, s: string)
    requires Occurs(p, q) && Occurs(q, s)
    ensures Occurs(p, s)
  {
    var i: nat :| OccursAt(p, q, i);
    var j: nat :| OccursAt(q, s, j);
    forall k | 0 <= k < |p|
      ensures s[j + i + k] == p[k]
    {
      assert s[j + i + k] == s[j..j + |q|][i + k];
      assert p[k] == q[i..i + |p|][k];
    }
    assert s[j + i..j + i + |p|] == p;
    assert OccursAt(p, s, j + i);
  }

  // ---------------------------------------------------------------------
  // The keyword pattern: re.search(r'\b(...)\b', url, re.IGNORECASE)
  // ---------------------------------------------------------------------

  /** `\b` at position `i`: the characters on the two sides differ in being
      word characters, the ends of the string counting as non-word. */
  predicate WordBoundary(s: string, i: nat)
    requires i <= |s|
  {
    (i > 0 && IsWordChar(s[i - 1])) != (i < |s| && IsWordChar(s[i]))
  }

  /** `t` spells the lower-case word `kw`, ignoring ASCII case. */
  predicate EqualsIgnoringCase(t: string, kw: string) {
    |t| == |kw| && forall k :: 0 <= k < |t| ==> LowerAscii(t[k]) == kw[k]
  }

  /** `\bkw\b` matches `s` at position `i`. */
  predicate WholeWordAt(s: string, kw: string, i: nat) {
    i + |kw| <= |s|
    && WordBoundary(s, i)
    && EqualsIgnoringCase(s[i..i + |kw|], kw)
    && WordBoundary(s, i + |kw|)
  }

  /** One of the alternatives matches at position `i`. */
  predicate KeywordAt(s: string, i: nat) {
    exists kw | kw in Keywords :: WholeWordAt(s, kw, i)
  }

  /** What `re.search` decides: a match starts somewhere in `s`. */
  ghost predicate KeywordPatternMatches(s: string) {
    exists i: nat :: KeywordAt(s, i)
  }

  /** The regex engine's scan: tries the start positions from `i` on. */
  function SearchFrom(s: string, i: nat): (r: bool)
    requires i <= |s|
    decreases |s| - i
    ensures r <==> exists j: nat :: i <= j && KeywordAt(s, j)
  {
    if KeywordAt(s, i) then true
    else if i == |s| then false
    else SearchFrom(s, i + 1)
  }

  // ---------------------------------------------------------------------
  // The decision
  // ---------------------------------------------------------------------

  /** The decision with a given blocklist (the source fixes it to AdDomains). */
  function Decide(domains: seq<string>, url: string): (d: Decision)
    ensures d == Block <==>
      (exists dom | dom in domains :: Occurs(dom, url)) || KeywordPatternMatches(url)
  {
    if (exists dom | dom in domains :: Contains(dom, url)) || SearchFrom(url, 0) then Block
    else Allow
  }

  /** `interceptRequest`: the request is blocked exactly when `Decide` says so. */
  function InterceptRequest(url: string): (d: Decision)
    ensures d == Block <==>
      (exists dom | dom in AdDomains :: Occurs(dom, url)) || KeywordPatternMatches(url)
  {
    Decide(AdDomains, url)
  }

  /** Every URL that contains a listed domain is blocked. */
  lemma ListedDomainBlocks(url: string, dom: string)
    requires dom in AdDomains && Occurs(dom, url)
    ensures InterceptRequest(url) == Block
  {
  }

  /** A URL with no listed domain is blocked exactly when a keyword occurs as a
      whole word, ignoring case. */
  lemma KeywordRuleDecides(url: string)
    requires forall dom | dom in AdDomains :: !Occurs(dom, url)
    ensures InterceptRequest(url) == Block <==>
      exists i: nat, kw | kw in Keywords :: WholeWordAt(url, kw, i)
  {
    if exists i: nat, kw | kw in Keywords :: WholeWordAt(url, kw, i) {
      var i: nat, kw :| kw in Keywords && WholeWordAt(url, kw, i);
      assert KeywordAt(url, i);
    }
  }

  /** The blocklist without the three entries that contain a shorter one. */
  const EssentialDomains: seq<string> := [
    "doubleclick.net", "googleadservices.com", "ads.youtube.com",
    "adnxs.com", "trackcmp.net", "adroll.com", "googlesyndication.com",
    "static.wolf-327b.com", "cdn.wolf-327b.com",
    "acdn.tsyndicate.com", "adservice.google.com"
  ]

  /** Three entries of the blocklist are redundant: "pagead2.googlesyndication.com",
      "securepubads.g.doubleclick.net" and "ytads.youtube.com" each contain a
      shorter entry, so dropping them changes no decision. */
  lemma RedundantDomainsChangeNothing(url: string)
    ensures InterceptRequest(url) == Decide(EssentialDomains, url)
  {
    if dom :| dom in AdDomains && Occurs(dom, url) {
      var i :| 0 <= i < |AdDomains| && AdDomains[i] == dom;
      var kept := Subsumer(i);
      if kept != dom {
        OccursTransitive(kept, dom, url);
      }
      assert kept in EssentialDomains && Occurs(kept, url);
    }
    forall dom | dom in EssentialDomains ensures dom in AdDomains {
    }
  }

  /** The entry of EssentialDomains that occurs in entry `i` of AdDomains. */
  function Subsumer(i: nat): (kept: string)
    requires i < |AdDomains|
    ensures kept in EssentialDomains
    ensures kept == AdDomains[i] || Occurs(kept, AdDomains[i])
  {
    if i == 3 then
      PageadOccurs(AdDomains[3], EssentialDomains[6]);
      EssentialDomains[6]
    else if i == 8 then
      SecurepubadsOccurs(AdDomains[8], EssentialDomains[0]);
      EssentialDomains[0]
    else if i == 9 then
      YtadsOccurs(AdDomains[9], EssentialDomains[2]);
      EssentialDomains[2]
    else
      var j := if i < 3 then i else if i < 8 then i - 1 else i - 3;
      assert AdDomains[i] == EssentialDomains[j];
      EssentialDomains[j]
  }

  /** "googlesyndication.com" ends "pagead2.googlesyndication.com". */
  lemma PageadOccurs(long: string, short: string)
    requires long == "pagead2.googlesyndication.com" && short == "googlesyndication.com"
    ensures Occurs(short, long)
  {
    SuffixOccurs(long, short, 8);
  }

  /** "doubleclick.net" ends "securepubads.g.doubleclick.net". */
  lemma SecurepubadsOccurs(long: string, short: string)
    requires long == "securepubads.g.doubleclick.net" && short == "doubleclick.net"
    ensures Occurs(short, long)
  {
    SuffixOccurs(long, short, 15);
  }

  /** "ads.youtube.com" ends "ytads.youtube.com". */
  lemma YtadsOccurs(long: string, short: string)
    requires long == "ytads.youtube.com" && short == "ads.youtube.com"
    ensures Occurs(short, long)
  {
    SuffixOccurs(long, short, 2);
  }

  /** A suffix of a string occurs in it, at the index where it starts. */
  lemma SuffixOccurs(s: string, suffix: string, i: nat)
    requires i <= |s| && s[i..] == suffix
    ensures OccursAt(suffix, s, i) && Occurs(suffix, s)
  {
    assert |suffix| == |s| - i;
    assert s[i..i + |suffix|] == suffix;
    assert OccursAt(suffix, s, i);
  }

  /** No listed domain fits in a URL shorter than nine characters. */
  lemma NoDomainInShortUrl(url: string)
    requires |url| < 9
    ensures forall dom | dom in AdDomains :: !Occurs(dom, url)
  {
    forall dom | dom in AdDomains ensures |dom| >= 9 {
    }
  }

  /** "ads" is not the word "ad": no boundary follows the "d". */
  lemma AdsIsAllowed()
    ensures InterceptRequest("ads") == Allow
  {
    var s := "ads";
    NoDomainInShortUrl(s);
    forall i: nat, kw | kw in Keywords
      ensures !WholeWordAt(s, kw, i)
    {
      if i + |kw| <= |s| {
        assert kw == "ad";
        assert i == 0 ==> !WordBoundary(s, 2);
        assert i == 1 ==> LowerAscii(s[1]) != 'a';
      }
    }
  }

  /** "pagead2" holds "ad" only inside a longer word. */
  lemma PageadIsAllowed()
    ensures InterceptRequest("pagead2") == Allow
  {
    var s := "pagead2";
    NoDomainInShortUrl(s);
    forall i: nat, kw | kw in Keywords
      ensures !WholeWordAt(s, kw, i)
    {
      if i + |kw| <= |s| && WordBoundary(s, i) {
        assert i == 0;
        assert LowerAscii(s[0]) != kw[0];
      }
    }
  }

  /** "ad" between slashes, or "TRACK" in capitals, is a whole keyword. */
  lemma WholeKeywordsAreBlocked()
    ensures InterceptRequest("x.io/ad/1") == Block
    ensures InterceptRequest("TRACK=1") == Block
  {
    assert WholeWordAt("x.io/ad/1", "ad", 5);
    assert KeywordAt("x.io/ad/1", 5);
    assert WholeWordAt("TRACK=1", "track", 0);
    assert KeywordAt("TRACK=1", 0);
  }
}
