/**
 * The invite link (`build_invite_link` in app/service/links.py): the site's
 * base URL without trailing slashes, then `/topic/` and the topic id. The
 * base URL, read from configuration in the program, is a parameter here.
 */
module Links {

  /** `s.rstrip(c)` for a single character: drops every trailing `c`. */
  function RStrip(s: string, c: char): (r: string)
    ensures |r| <= |s| && r == s[..|r|]
    ensures r == [] || r[|r| - 1] != c
    ensures forall i :: |r| <= i < |s| ==> s[i] == c
    decreases |s|
  {
    if s != [] && s[|s| - 1] == c then RStrip(s[..|s| - 1], c) else s
  }

  const TopicPath: string := "/topic/"

  /** `build_invite_link`: the link always ends with `/topic/` and the id. */
  function BuildInviteLink(siteBaseUrl: string, topicId: string): (link: string)
    ensures |link| >= |TopicPath + topicId|
    ensures link[|link| - |TopicPath + topicId|..] == TopicPath + topicId
  {
    var base := RStrip(siteBaseUrl, '/');
    var link := base + TopicPath + topicId;
    assert link == base + (TopicPath + topicId);
    link
  }

  /** `n` slashes. */
  function Slashes(n: nat): (s: string)
    ensures |s| == n && forall i :: 0 <= i < n ==> s[i] == '/'
  {
    if n == 0 then "" else Slashes(n - 1) + "/"
  }

  /** Stripping ignores any number of trailing slashes added to the input. */
  lemma {:induction false} RStripSlashes(s: string, n: nat)
    ensures RStrip(s + Slashes(n), '/') == RStrip(s, '/')
    decreases n
  {
    if n > 0 {
      var t := s + Slashes(n);
      assert t == (s + Slashes(n - 1)) + "/";
      assert t[|t| - 1] == '/' && t[..|t| - 1] == s + Slashes(n - 1);
      assert RStrip(t, '/') == RStrip(s + Slashes(n - 1), '/');
      RStripSlashes(s, n - 1);
    } else {
      assert s + Slashes(n) == s;
    }
  }

  /** Appending any number of `/` to the base URL leaves the link unchanged. */
  lemma TrailingSlashesIgnored(siteBaseUrl: string, topicId: string, n: nat)
    ensures BuildInviteLink(siteBaseUrl + Slashes(n), topicId) == BuildInviteLink(siteBaseUrl, topicId)
  {
    RStripSlashes(siteBaseUrl, n);
  }

  /**
   * The link is the base URL with all its trailing slashes removed, then
   * `/topic/` and the id.
   */
  lemma InviteLinkShape(siteBaseUrl: string, topicId: string)
    ensures exists k ::
      && 0 <= k <= |siteBaseUrl|
      && (k == 0 || siteBaseUrl[k - 1] != '/')
      && (forall i :: k <= i < |siteBaseUrl| ==> siteBaseUrl[i] == '/')
      && BuildInviteLink(siteBaseUrl, topicId) == siteBaseUrl[..k] + TopicPath + topicId
  {
    var base := RStrip(siteBaseUrl, '/');
    var k := |base|;
    assert base == siteBaseUrl[..k];
    assert k == 0 || siteBaseUrl[k - 1] == base[k - 1];
  }

  /** A base URL without a trailing slash is used as it is. */
  lemma CleanBaseUnchanged(siteBaseUrl: string, topicId: string)
    requires siteBaseUrl == [] || siteBaseUrl[|siteBaseUrl| - 1] != '/'
    ensures BuildInviteLink(siteBaseUrl, topicId) == siteBaseUrl + TopicPath + topicId
  {
  }
}
