/**
 * The page's answer to a feature permission request
 * (`CustomWebEnginePage.handle_feature_permission`). For the three
 * media-capture features the user is asked, and exactly one
 * setFeaturePermission call follows, on the requesting URL and feature:
 * granted when the answer is Yes, denied otherwise. Any other feature is
 * left without an answer.
 */
module Permissions {
  import opened Dialog

  /** QWebEnginePage.Feature. */
  datatype Feature =
    | Notifications | Geolocation
    | MediaAudioCapture | MediaVideoCapture | MediaAudioVideoCapture
    | MouseLock | DesktopVideoCapture | DesktopAudioVideoCapture
    | ClipboardReadWrite | LocalFontsAccess

  /** QWebEnginePage.PermissionPolicy, the values the page sets. */
  datatype Policy = PermissionGrantedByUser | PermissionDeniedByUser

  /** One `setFeaturePermission(url, feature, policy)` call. */
  datatype PermissionCall = SetFeaturePermission(url: string, feature: Feature, policy: Policy)

  predicate IsMediaCapture(f: Feature) {
    f == MediaAudioCapture || f == MediaVideoCapture || f == MediaAudioVideoCapture
  }

  /** The calls the page makes for a request from `url` for `feature`;
      `reply` is what the user answers when asked. */
  function HandleFeaturePermission(url: string, feature: Feature, reply: Reply): (calls: seq<PermissionCall>)
    ensures |calls| <= 1
    ensures |calls| == 1 <==> IsMediaCapture(feature)
    ensures forall c | c in calls :: c.url == url && c.feature == feature
    ensures (exists c | c in calls :: c.policy == PermissionGrantedByUser) <==>
              IsMediaCapture(feature) && reply == Yes
  {
    if IsMediaCapture(feature) then
      if reply == Yes then [SetFeaturePermission(url, feature, PermissionGrantedByUser)]
      else [SetFeaturePermission(url, feature, PermissionDeniedByUser)]
    else []
  }

  /** Nothing is granted unless the user said Yes; a No denies the request. */
  lemma FailClosed(url: string, feature: Feature)
    requires IsMediaCapture(feature)
    ensures HandleFeaturePermission(url, feature, No) ==
      [SetFeaturePermission(url, feature, PermissionDeniedByUser)]
  {
  }
}
