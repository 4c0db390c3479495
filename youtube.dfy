/** isLikelyYoutubeUrl (index.js:103-115), over the hostname that the URL
    parser yields: None stands for a URL that `new URL` rejects. */
module YoutubeHost {
  import opened Wrappers
  import opened Text

  /** The host test, in the order the source writes its three disjuncts. */
  predicate IsLikelyYoutubeUrl(hostname: Option<string>) {
    match hostname
    case None => false
    case Some(h) =>
      var host := ToLower(h);
      Contains(host, "youtube.com") || host == "youtu.be" || EndsWith(host, ".youtube.com")
  }

  /** The test accepts exactly the hostnames whose lower-case form contains
      `youtube.com` or is `youtu.be`; the `.youtube.com` suffix test adds
      nothing, and a URL that does not parse is rejected. */
  lemma YoutubeHostIff(hostname: Option<string>)
    ensures IsLikelyYoutubeUrl(hostname) <==>
      hostname.Some? && (Contains(ToLower(hostname.value), "youtube.com") || ToLower(hostname.value) == "youtu.be")
  {
    if hostname.Some? {
      var host := ToLower(hostname.value);
      if EndsWith(host, ".youtube.com") {
        EndsWithContains(host, ".youtube.com");
        assert ".youtube.com" == "." + "youtube.com";
        ContainsParts(host, ".", "youtube.com");
      }
    }
  }

  lemma ToLowerIdempotent(s: string)
    ensures ToLower(ToLower(s)) == ToLower(s)
  {
  }

  lemma ToLowerAppend(s: string, t: string)
    ensures ToLower(s + t) == ToLower(s) + ToLower(t)
  {
  }

  /** Letter case in the hostname does not matter. */
  lemma HostCaseIgnored(h: string)
    ensures IsLikelyYoutubeUrl(Some(h)) == IsLikelyYoutubeUrl(Some(ToLower(h)))
  {
    ToLowerIdempotent(h);
  }

  /** Any hostname with `youtube.com` inside it, in any letter case and
      whatever surrounds it, is accepted: `music.youtube.com`, but also
      `notyoutube.com` or `youtube.com.example.net`. */
  lemma ContainedYoutubeAccepted(before: string, mid: string, after: string)
    requires ToLower(mid) == "youtube.com"
    ensures IsLikelyYoutubeUrl(Some(before + mid + after))
  {
    var host := ToLower(before + mid + after);
    ToLowerAppend(before + mid, after);
    ToLowerAppend(before, mid);
    assert host == ToLower(before) + "youtube.com" + ToLower(after);
    assert host[|before|..|before| + 11] == "youtube.com";
    assert OccursAt(host, "youtube.com", |before|);
    ContainsIff(host, "youtube.com");
  }

  /** The short-link host is accepted in any letter case (YoutubeHostIff
      shows that it must be the whole hostname). */
  lemma ShortLinkHost(h: string)
    requires ToLower(h) == "youtu.be"
    ensures IsLikelyYoutubeUrl(Some(h))
  {
  }
}
