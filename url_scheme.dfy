/**
 * The lock icon in the address bar (`MainWindow.update_url_bar`): locked
 * when the URL's scheme is "https", unlocked otherwise. The scheme is the
 * one QUrl parses: the text before the first ":", when it is a valid scheme
 * name (a letter, then letters, digits, "+", "-" or "."), lower-cased;
 * otherwise there is no scheme. QUrl stops looking for that ":" at the first
 * "?" or "#"; the scan here also stops at "/", which changes no result,
 * since a "/" can never be part of a valid scheme name.
 */
module UrlScheme {
  import opened Wrappers
  import opened Text

  datatype LockIcon = Locked | Unlocked

  /** The index of the colon that ends a scheme, scanning from `i`. */
  function SchemeColon(url: string, i: nat): (r: Option<nat>)
    requires i <= |url|
    decreases |url| - i
    ensures r.Some? ==> i <= r.value < |url| && url[r.value] == ':'
    ensures r.Some? ==> forall j :: i <= j < r.value ==> url[j] !in ":/?#"
    ensures r.None? ==> forall j :: i <= j < |url| && url[j] == ':' ==>
                          exists k :: i <= k < j && url[k] in "/?#"
  {
    if i == |url| then None
    else if url[i] == ':' then Some(i)
    else if url[i] in "/?#" then None
    else SchemeColon(url, i + 1)
  }

  predicate IsSchemeName(name: string) {
    |name| > 0 && IsAsciiLetter(name[0])
    && forall j :: 1 <= j < |name| ==>
         IsAsciiLetter(name[j]) || IsAsciiDigit(name[j]) || name[j] in "+-."
  }

  /** `QUrl(url).scheme()`. */
  function Scheme(url: string): (scheme: string)
    ensures scheme != "" <==> exists c :: 0 < c < |url| && url[c] == ':' && IsSchemeName(url[..c])
    ensures scheme != "" ==>
      && |scheme| < |url| && url[|scheme|] == ':' && IsSchemeName(url[..|scheme|])
      && forall j :: 0 <= j < |scheme| ==> scheme[j] == LowerAscii(url[j])
  {
    match SchemeColon(url, 0)
    case Some(c) =>
      if IsSchemeName(url[..c]) then
        var lowered := seq(c, j requires 0 <= j < c => LowerAscii(url[j]));
        lowered
      else
        assert forall c' :: 0 < c' < |url| && url[c'] == ':' && IsSchemeName(url[..c']) ==> c' == c by {
          forall c' | 0 < c' < |url| && url[c'] == ':' && IsSchemeName(url[..c'])
            ensures c' == c
          {
            SchemeNameStops(url, c');
          }
        }
        ""
    case None =>
      assert forall c' :: 0 < c' < |url| && url[c'] == ':' ==> !IsSchemeName(url[..c']) by {
        forall c' | 0 < c' < |url| && url[c'] == ':'
          ensures !IsSchemeName(url[..c'])
        {
          var k :| 0 <= k < c' && url[k] in "/?#";
          assert url[..c'][k] == url[k];
        }
      }
      ""
  }

  /** A scheme name holds none of ":/?#", so the colon after it is the one
      the scan finds. */
  lemma SchemeNameStops(url: string, c: nat)
    requires 0 < c < |url| && url[c] == ':' && IsSchemeName(url[..c])
    ensures SchemeColon(url, 0) == Some(c)
  {
    forall j | 0 <= j < c ensures url[j] !in ":/?#" {
      assert url[..c][j] == url[j];
    }
  }

  /** The icon update_url_bar puts in front of the address: the lock shows
      exactly for URLs that begin with "https:" in any mix of letter case. */
  function LockIconFor(url: string): (icon: LockIcon)
    ensures icon == Locked <==>
      |url| >= 6 && url[5] == ':' && forall j :: 0 <= j < 5 ==> LowerAscii(url[j]) == "https"[j]
  {
    HttpsScheme(url);
    if Scheme(url) == "https" then Locked else Unlocked
  }

  /** QUrl reports the scheme "https" exactly for URLs that begin with
      "https:" in any mix of letter case. */
  lemma HttpsScheme(url: string)
    ensures Scheme(url) == "https" <==>
      |url| >= 6 && url[5] == ':' && forall j :: 0 <= j < 5 ==> LowerAscii(url[j]) == "https"[j]
  {
    if |url| >= 6 && url[5] == ':' && forall j :: 0 <= j < 5 ==> LowerAscii(url[j]) == "https"[j] {
      forall j | 0 <= j < 5 ensures IsAsciiLetter(url[j]) {
        assert 'a' <= LowerAscii(url[j]) <= 'z';
      }
      assert IsSchemeName(url[..5]);
      SchemeNameStops(url, 5);
      assert Scheme(url) == "https";
    }
  }
}
