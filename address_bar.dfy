/**
 * What the address bar does with the text the user submits
 * (`MainWindow.navigate_to_url`): strip surrounding white space, keep a URL
 * that already names http or https, prefix "https://" to anything that
 * looks like a host name, and turn everything else into a search query.
 */
module AddressBar {
  import opened Wrappers
  import opened Text
  import Utf8
  import PercentEncoding

  const SearchPrefix: string := "https://www.google.com/search?q="

  // ---------------------------------------------------------------------
  // str.strip()
  // ---------------------------------------------------------------------

  /** Python's `str.isspace` for one character. */
  predicate IsSpace(c: char) {
    var n := c as int;
    n == 0x20 || 0x09 <= n <= 0x0D || 0x1C <= n <= 0x1F
    || n == 0x85 || n == 0xA0 || n == 0x1680 || 0x2000 <= n <= 0x200A
    || n == 0x2028 || n == 0x2029 || n == 0x202F || n == 0x205F || n == 0x3000
  }

  predicate AllSpace(t: string) {
    forall i :: 0 <= i < |t| ==> IsSpace(t[i])
  }

  /** How many white-space characters `s` starts with. */
  function LeadingSpaces(s: string): (k: nat)
    ensures k <= |s| && AllSpace(s[..k])
    ensures k < |s| ==> !IsSpace(s[k])
  {
    if s != [] && IsSpace(s[0]) then
      var k := 1 + LeadingSpaces(s[1..]);
      assert forall i :: 1 <= i < k ==> s[..k][i] == s[1..][..k - 1][i - 1];
      k
    else 0
  }

  /** How many white-space characters `s` ends with. */
  function TrailingSpaces(s: string): (k: nat)
    ensures k <= |s| && AllSpace(s[|s| - k..])
    ensures k < |s| ==> !IsSpace(s[|s| - k - 1])
  {
    if s != [] && IsSpace(s[|s| - 1]) then
      var t := s[..|s| - 1];
      var k := 1 + TrailingSpaces(t);
      TrailingStep(s, t, k);
      k
    else 0
  }

  /** One more white-space character at the end extends the trailing run. */
  lemma TrailingStep(s: string, t: string, k: nat)
    requires s != [] && t == s[..|s| - 1] && IsSpace(s[|s| - 1]) && 1 <= k <= |s|
    requires AllSpace(t[|t| - (k - 1)..]) && (k < |s| ==> !IsSpace(t[|t| - k]))
    ensures AllSpace(s[|s| - k..]) && (k < |s| ==> !IsSpace(s[|s| - k - 1]))
  {
    var u, v := s[|s| - k..], t[|t| - (k - 1)..];
    forall i | 0 <= i < k ensures IsSpace(u[i]) {
      if i < k - 1 {
        assert u[i] == v[i];
      }
    }
    if k < |s| {
      assert s[|s| - k - 1] == t[|t| - k];
    }
  }

  /** `s.strip()`: `s` without its leading and trailing white space. */
  function Strip(s: string): (r: string)
    ensures r != [] ==> !IsSpace(r[0]) && !IsSpace(r[|r| - 1])
    ensures exists a :: SpaceAround(s, a, r)
  {
    var a := LeadingSpaces(s);
    var t := s[a..];
    var k := TrailingSpaces(t);
    var r := t[..|t| - k];
    StripParts(s, a, t, k, r);
    assert SpaceAround(s, a, r);
    r
  }

  /** `s` is `r` at position `a`, with only white space before and after. */
  ghost predicate SpaceAround(s: string, a: nat, r: string) {
    && a + |r| <= |s| && s[a..a + |r|] == r
    && AllSpace(s[..a]) && AllSpace(s[a + |r|..])
  }

  /** The piece `r` that `Strip` keeps between the spaces it cuts off. */
  lemma StripParts(s: string, a: nat, t: string, k: nat, r: string)
    requires a <= |s| && t == s[a..] && k <= |t| && r == t[..|t| - k]
    requires a < |s| ==> !IsSpace(s[a])
    requires AllSpace(t[|t| - k..]) && (k < |t| ==> !IsSpace(t[|t| - k - 1]))
    ensures r != [] ==> !IsSpace(r[0]) && !IsSpace(r[|r| - 1])
    ensures a + |r| <= |s| && s[a..a + |r|] == r && AllSpace(s[a + |r|..])
  {
    assert s[a + |r|..] == t[|t| - k..];
    if r != [] {
      assert r[0] == s[a];
      assert r[|r| - 1] == t[|t| - k - 1];
    }
  }

  /** A string with no white space at either end strips to itself. */
  lemma StripTrimmed(r: string)
    requires r != [] ==> !IsSpace(r[0]) && !IsSpace(r[|r| - 1])
    ensures Strip(r) == r
  {
    assert LeadingSpaces(r) == 0;
    assert TrailingSpaces(r) == 0;
    assert r[0..] == r;
  }

  /** Stripping twice strips nothing more. */
  lemma StripIdempotent(s: string)
    ensures Strip(Strip(s)) == Strip(s)
  {
    StripTrimmed(Strip(s));
  }

  // ---------------------------------------------------------------------
  // re.match(r'^[\w\-]+(\.[\w\-]+)+.*$', s)
  // ---------------------------------------------------------------------

  /** The class `[\w\-]`. */
  predicate IsHostChar(c: char) {
    IsWordChar(c) || c == '-'
  }

  /** `t` is matched in full by `[\w\-]+(\.[\w\-]+)+`: at least two
      non-empty runs of host characters joined by single dots. */
  ghost predicate HostPattern(t: string) {
    && |t| > 0
    && (forall i :: 0 <= i < |t| ==> IsHostChar(t[i]) || t[i] == '.')
    && IsHostChar(t[0]) && IsHostChar(t[|t| - 1])
    && (forall i :: 0 <= i < |t| - 1 && t[i] == '.' ==> IsHostChar(t[i + 1]))
    && '.' in t
  }

  /** `.*$` matches `t` in full: `.` does not match a line feed, and `$` also
      matches just before a line feed that ends the string. */
  predicate NoLineFeedBeforeEnd(t: string) {
    forall i :: 0 <= i < |t| && t[i] == '\n' ==> i == |t| - 1
  }

  /** What `re.match` decides for the whole pattern. */
  ghost predicate DomainPatternMatches(s: string) {
    exists n :: 0 <= n <= |s| && HostPattern(s[..n]) && NoLineFeedBeforeEnd(s[n..])
  }

  /** The length of the run of host characters that `s` starts with. */
  function HostRun(s: string): (k: nat)
    ensures k <= |s| && forall i :: 0 <= i < k ==> IsHostChar(s[i])
    ensures k < |s| ==> !IsHostChar(s[k])
  {
    if s != [] && IsHostChar(s[0]) then
      var k := 1 + HostRun(s[1..]);
      assert forall i :: 1 <= i < k ==> s[i] == s[1..][i - 1];
      k
    else 0
  }

  /** The test the source makes, decided directly: a host run, a dot, one
      more host character, and no line feed later except at the very end. */
  predicate IsDomainLike(s: string) {
    var k := HostRun(s);
    1 <= k && k + 2 <= |s| && s[k] == '.' && IsHostChar(s[k + 1])
    && NoLineFeedBeforeEnd(s[k + 2..])
  }

  /** The direct test agrees with the regular expression. */
  lemma DomainLikeIffPattern(s: string)
    ensures IsDomainLike(s) <==> DomainPatternMatches(s)
  {
    if IsDomainLike(s) {
      DomainLikeMatches(s);
    }
    if DomainPatternMatches(s) {
      var n :| 0 <= n <= |s| && HostPattern(s[..n]) && NoLineFeedBeforeEnd(s[n..]);
      MatchIsDomainLike(s, n);
    }
  }

  /** The direct test's host run, dot and next character form a match of
      `[\w\-]+(\.[\w\-]+)+`, and the rest is matched by `.*$`. */
  lemma DomainLikeMatches(s: string)
    requires IsDomainLike(s)
    ensures DomainPatternMatches(s)
  {
    var k := HostRun(s);
    var t := s[..k + 2];
    assert forall i :: 0 <= i < k ==> t[i] == s[i];
    assert t[k] == '.';
    assert HostPattern(t);
  }

  /** A match of the regular expression passes the direct test. */
  lemma MatchIsDomainLike(s: string, n: nat)
    requires n <= |s| && HostPattern(s[..n]) && NoLineFeedBeforeEnd(s[n..])
    ensures IsDomainLike(s)
  {
    var k := HostRun(s);
    RunEndsAtDot(s, n);
    var rest := s[k + 2..];
    forall i | 0 <= i < |rest| && rest[i] == '\n'
      ensures i == |rest| - 1
    {
      var p := k + 2 + i;
      assert s[p] == '\n';
      if p < n {
        assert false;
      }
      assert s[n..][p - n] == '\n';
    }
  }

  /** In a match of `[\w\-]+(\.[\w\-]+)+` the first host run ends at a dot
      that a host character follows. */
  lemma RunEndsAtDot(s: string, n: nat)
    requires n <= |s| && HostPattern(s[..n])
    ensures 1 <= HostRun(s) && HostRun(s) + 1 < n
    ensures s[HostRun(s)] == '.' && IsHostChar(s[HostRun(s) + 1])
  {
    var k := HostRun(s);
    var t := s[..n];
    assert s[0] == t[0];
    var d :| 0 <= d < |t| && t[d] == '.';
    assert s[d] == '.' && !IsHostChar(s[d]);
    assert k <= d;
    assert s[k] == t[k] && t[k] == '.';
    assert s[k + 1] == t[k + 1];
  }

  // ---------------------------------------------------------------------
  // navigate_to_url
  // ---------------------------------------------------------------------

  /** The query of a search URL reads back, through percent-decoding and
      UTF-8 decoding, as `text`. */
  predicate QueryDecodesTo(query: string, text: string) {
    match PercentEncoding.Decode(query)
    case Some(bytes) => Utf8.Decode(bytes) == Some(text)
    case None => false
  }

  predicate HasWebScheme(s: string) {
    StartsWith(s, "http://") || StartsWith(s, "https://")
  }

  /** The URL the current tab is sent to for the submitted `input`. */
  function Resolve(input: string): (url: string)
    ensures HasWebScheme(url)
    ensures url == Strip(input) || StartsWith(url, "https://")
  {
    var s := Strip(input);
    if HasWebScheme(s) then s
    else if IsDomainLike(s) then
      StartsWithAppend("https://", "https://", s);
      "https://" + s
    else SearchUrl(s)
  }

  /** The search URL for `text`: its UTF-8 bytes, percent-encoded, after
      the search prefix. */
  function SearchUrl(text: string): (url: string)
    ensures StartsWith(url, SearchPrefix) && StartsWith(url, "https://")
    ensures url[|SearchPrefix|..] == PercentEncoding.Encode(Utf8.Encode(text))
  {
    var query := PercentEncoding.Encode(Utf8.Encode(text));
    SearchPrefixIsHttps(SearchPrefix);
    StartsWithAppend(SearchPrefix, "https://", query);
    assert (SearchPrefix + query)[|SearchPrefix|..] == query;
    SearchPrefix + query
  }

  lemma SearchPrefixIsHttps(p: string)
    requires p == SearchPrefix
    ensures StartsWith(p, "https://")
  {
    assert p[..8] == "https://";
  }

  /** A string that starts with `h` still does after anything is appended. */
  lemma StartsWithAppend(p: string, h: string, q: string)
    requires StartsWith(p, h)
    ensures StartsWith(p + q, h) && StartsWith(p + q, p)
  {
    assert (p + q)[..|p|] == p;
    assert (p + q)[..|h|] == p[..|h|];
  }

  /** The submitted text resolves to exactly one of three forms. */
  lemma ResolveForms(input: string)
    ensures var s, url := Strip(input), Resolve(input);
      && (HasWebScheme(s) ==> url == s)
      && (!HasWebScheme(s) && DomainPatternMatches(s) ==> url == "https://" + s)
      && (!HasWebScheme(s) && !DomainPatternMatches(s) ==>
            url == SearchUrl(s) && StartsWith(url, SearchPrefix)
            && QueryDecodesTo(url[|SearchPrefix|..], s)
            && forall i :: |SearchPrefix| <= i < |url| ==> PercentEncoding.IsUrlSafe(url[i]))
  {
    var s := Strip(input);
    DomainLikeIffPattern(s);
    if !HasWebScheme(s) && !IsDomainLike(s) {
      SearchUrlReadsBack(s);
    }
  }

  /** The query of a search URL is URL-safe and decodes back to the text. */
  lemma SearchUrlReadsBack(s: string)
    ensures var url := SearchUrl(s);
      && QueryDecodesTo(url[|SearchPrefix|..], s)
      && forall i :: |SearchPrefix| <= i < |url| ==> PercentEncoding.IsUrlSafe(url[i])
  {
    QueryReadsBack(SearchPrefix, s);
  }

  /** After any prefix, the encoded text is URL-safe and decodes back. */
  lemma QueryReadsBack(prefix: string, s: string)
    ensures var url := prefix + PercentEncoding.Encode(Utf8.Encode(s));
      && QueryDecodesTo(url[|prefix|..], s)
      && forall i :: |prefix| <= i < |url| ==> PercentEncoding.IsUrlSafe(url[i])
  {
    var bytes := Utf8.Encode(s);
    var query := PercentEncoding.Encode(bytes);
    var url := prefix + query;
    assert url[|prefix|..] == query;
    PercentEncoding.DecodeEncode(bytes);
    Utf8.DecodeEncode(s);
    PercentEncoding.EncodedIsUrlSafe(bytes);
    forall i | |prefix| <= i < |url|
      ensures PercentEncoding.IsUrlSafe(url[i])
    {
      assert url[i] == query[i - |prefix|];
    }
  }

  /** The input "example.com" is a host name and gets "https://" in front.
      (The text is a parameter so that the verifier does not evaluate every
      branch of Resolve on the literal.) */
  lemma HostNameExample(s: string)
    requires s == "example.com"
    ensures Resolve(s) == "https://example.com"
  {
    assert "https://" + s == "https://example.com";
    StripTrimmed(s);
    NoWebScheme(s);
    ExampleIsDomainLike(s);
    ResolveHostName(s);
  }

  /** "example.com": the host run "example", a dot, then "com". */
  lemma ExampleIsDomainLike(s: string)
    requires s == "example.com"
    ensures IsDomainLike(s)
  {
    HostRunAt(s, 7);
    assert s[7] == '.' && IsHostChar(s[8]);
    assert s[9] == 'o' && s[10] == 'm';
    LineFeedFree(s, 9);
  }

  /** A stripped, host-name-like text without a web scheme gets "https://". */
  lemma ResolveHostName(s: string)
    requires Strip(s) == s && !HasWebScheme(s) && IsDomainLike(s)
    ensures Resolve(s) == "https://" + s
  {
  }

  /** No line feed from index `k` on. */
  lemma LineFeedFree(s: string, k: nat)
    requires k <= |s| && forall i :: k <= i < |s| ==> s[i] != '\n'
    ensures NoLineFeedBeforeEnd(s[k..])
  {
  }

  /** A string that starts with a letter other than "h" names no web scheme. */
  lemma NoWebScheme(s: string)
    requires s != [] && s[0] != 'h'
    ensures !HasWebScheme(s)
  {
    if StartsWith(s, "http://") || StartsWith(s, "https://") {
      assert false;
    }
  }

  /** The host run of `s` ends at `k` when `s[k]` is the first non-host character. */
  lemma HostRunAt(s: string, k: nat)
    requires k < |s| && !IsHostChar(s[k])
    requires forall i :: 0 <= i < k ==> IsHostChar(s[i])
    ensures HostRun(s) == k
  {
  }

  /** Words with a space between them become a percent-encoded search query. */
  lemma SearchExample(s: string)
    requires s == "boil eggs"
    ensures Resolve(s) == SearchPrefix + "boil%20eggs"
  {
    StripTrimmed(s);
    NoWebScheme(s);
    HostRunAt(s, 4);
    assert !IsDomainLike(s);
    BoilEggsBytes(s);
    EncodeExample(Utf8.Encode(s));
  }

  /** "boil eggs" is ASCII, so UTF-8 leaves one byte per character. */
  lemma BoilEggsBytes(s: string)
    requires s == "boil eggs"
    ensures Utf8.Encode(s) == [98, 111, 105, 108, 32, 101, 103, 103, 115]
  {
    Utf8.EncodeAscii(s);
  }

  /** The percent-encoding step of SearchExample: a space between two
      unreserved runs becomes "%20" and the runs stay as they are. */
  lemma EncodeExample(bytes: seq<Text.byte>)
    requires bytes == [98, 111, 105, 108, 32, 101, 103, 103, 115]
    ensures PercentEncoding.Encode(bytes) == "boil%20eggs"
  {
    var a, b := bytes[..4], bytes[5..];
    assert bytes == a + ([32] + b);
    EncodeWord(a, "boil");
    EncodeWord(b, "eggs");
    EncodeAroundSpace(a, b);
    assert "boil" + ("%20" + "eggs") == "boil%20eggs";
  }

  lemma EncodeAroundSpace(a: seq<Text.byte>, b: seq<Text.byte>)
    ensures PercentEncoding.Encode(a + ([32] + b)) == PercentEncoding.Encode(a) + ("%20" + PercentEncoding.Encode(b))
  {
    PercentEncoding.EncodeConcat(a, [32] + b);
    PercentEncoding.EncodeConcat([32], b);
    EncodeSpace([32]);
  }

  /** Four ASCII letters encode to themselves. */
  lemma EncodeWord(bs: seq<Text.byte>, w: string)
    requires |bs| == |w| == 4 && forall i :: 0 <= i < 4 ==> IsAsciiLetter(w[i]) && bs[i] == w[i] as int
    ensures PercentEncoding.Encode(bs) == w
  {
    PercentEncoding.EncodeUnreserved(bs);
  }

  /** A space is escaped as "%20". */
  lemma EncodeSpace(sp: seq<Text.byte>)
    requires sp == [32]
    ensures PercentEncoding.Encode(sp) == "%20"
  {
    assert PercentEncoding.Encode(sp) == PercentEncoding.EncodeByte(32) + PercentEncoding.Encode([]);
  }

  /** A letter outside ASCII is escaped byte by byte with upper-case hex:
      "é" (U+00E9, UTF-8 C3 A9) becomes "%C3%A9". */
  lemma AccentExample(s: string)
    requires |s| == 1 && s[0] as int == 0xE9
    ensures PercentEncoding.Encode(Utf8.Encode(s)) == "%C3%A9"
  {
    assert Utf8.Encode(s) == Utf8.EncodeChar(s[0]) + Utf8.Encode(s[1..]);
    TwoByteExample(Utf8.Encode(s));
  }

  /** The percent-encoding step of AccentExample. */
  lemma TwoByteExample(bytes: seq<Text.byte>)
    requires bytes == [0xC3, 0xA9]
    ensures PercentEncoding.Encode(bytes) == "%C3%A9"
  {
    assert PercentEncoding.Encode(bytes)
        == PercentEncoding.EncodeByte(bytes[0]) + (PercentEncoding.EncodeByte(bytes[1]) + PercentEncoding.Encode([]));
  }
}
