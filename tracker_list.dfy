/**
 * The tracker blocklist: the curated tracker and fingerprinting domains, the request
 * patterns generated from them, and the host test that blocks a domain together with all
 * of its subdomains.
 */
module TrackerList {
  import opened Wrappers
  import opened Text

  const TrackerDomains: seq<string> := [
      "google-analytics.com", "googletagmanager.com", "googleadservices.com",
      "googlesyndication.com", "doubleclick.net", "googletagservices.com", "google.com/pagead",
      "adservice.google.com", "facebook.net", "connect.facebook.net", "pixel.facebook.com",
      "facebook.com/tr", "analytics.twitter.com", "t.co/i/adsct", "platform.twitter.com/widgets",
      "clarity.ms", "bat.bing.com", "amazon-adsystem.com", "assoc-amazon.com", "hotjar.com",
      "fullstory.com", "mixpanel.com", "segment.io", "segment.com", "amplitude.com",
      "heapanalytics.com", "crazyegg.com", "mouseflow.com", "clicktale.net", "luckyorange.com",
      "optimizely.com", "kissmetrics.com", "hubspot.com/track", "intercom.io", "drift.com",
      "crisp.chat", "tawk.to", "zendesk.com/embeddable", "onetrust.com", "cookiebot.com",
      "quantserve.com", "scorecardresearch.com", "comscore.com", "chartbeat.com", "parsely.com",
      "newrelic.com", "nr-data.net", "bugsnag.com", "sentry.io", "rollbar.com", "logrocket.com",
      "smartlook.com", "adroll.com", "criteo.com", "outbrain.com", "taboola.com", "sharethrough.com",
      "pubmatic.com", "rubiconproject.com", "openx.net", "bidswitch.net", "casalemedia.com",
      "advertising.com", "adnxs.com", "adsrvr.org", "demdex.net", "krxd.net", "bluekai.com",
      "exelator.com", "tapad.com", "liveramp.com", "rlcdn.com", "pippio.com", "mediamath.com",
      "mathtag.com", "turn.com", "agkn.com", "everesttech.net", "flashtalking.com",
      "serving-sys.com", "sizmek.com", "adform.net", "eyeota.net", "adsymptotic.com", "bidgear.com",
      "contextweb.com", "yieldmo.com", "yldbt.com", "plista.com", "revcontent.com", "mgid.com",
      "zergnet.com"
  ]

  const FingerprintDomains: seq<string> := [
      "fingerprintjs.com", "fpjs.io", "deviceidentitylabs.com", "threatmetrix.com", "iovation.com",
      "cdn.jsdelivr.net/npm/@aspect-analytics"
  ]

  /** `hostname === domain || hostname.endsWith('.' + domain)` */
  predicate HostMatches(hostname: string, domain: string)
    ensures HostMatches(hostname, domain) ==> |domain| <= |hostname| && hostname[|hostname| - |domain|..] == domain
    ensures HostMatches(hostname, domain) && hostname != domain ==>
      |domain| < |hostname| && hostname[|hostname| - |domain| - 1] == '.'
  {
    hostname == domain || EndsWith(hostname, "." + domain)
  }

  /** Some domain of `domains` covers `hostname`. */
  predicate Listed(hostname: string, domains: seq<string>) {
    exists i :: 0 <= i < |domains| && HostMatches(hostname, domains[i])
  }

  /** The early-return search over `domains`. */
  method FindMatch(hostname: string, domains: seq<string>) returns (found: bool)
    ensures found <==> Listed(hostname, domains)
  {
    for i := 0 to |domains|
      invariant forall k :: 0 <= k < i ==> !HostMatches(hostname, domains[k])
    {
      var domain := domains[i];
      if hostname == domain || EndsWith(hostname, "." + domain) {
        return true;
      }
    }
    return false;
  }

  /**
   * `shouldBlockUrl`, given the hostname the URL parses to, or `None` when the URL does
   * not parse: blocked exactly when some tracker or fingerprinting domain covers the host.
   */
  method ShouldBlockUrl(hostname: Option<string>) returns (blocked: bool)
    ensures blocked <==> hostname.Some? && Listed(hostname.value, TrackerDomains + FingerprintDomains)
  {
    if hostname.None? {
      return false;
    }
    blocked := FindMatch(hostname.value, TrackerDomains + FingerprintDomains);
  }

  /** A domain covers each of its subdomains. */
  lemma SubdomainMatches(hostname: string, domain: string, sub: string)
    requires HostMatches(hostname, domain)
    ensures HostMatches(sub + "." + hostname, domain)
  {
    var h := sub + "." + hostname;
    var suffix := "." + domain;
    if hostname == domain {
      assert h[|h| - |suffix|..] == suffix;
    } else {
      assert h[|h| - |suffix|..] == hostname[|hostname| - |suffix|..];
    }
  }

  /** Blocking is closed under subdomains. */
  lemma SubdomainListed(hostname: string, domains: seq<string>, sub: string)
    requires Listed(hostname, domains)
    ensures Listed(sub + "." + hostname, domains)
  {
    var i :| 0 <= i < |domains| && HostMatches(hostname, domains[i]);
    SubdomainMatches(hostname, domains[i], sub);
  }

  /** The characters of a suffix sit at the end of the string. */
  lemma SuffixAt(s: string, suffix: string, k: nat)
    requires EndsWith(s, suffix) && k < |suffix|
    ensures s[|s| - |suffix| + k] == suffix[k]
  {
    assert s[|s| - |suffix|..][k] == suffix[k];
  }

  /** A host that merely ends with a domain's text, without a dot before it, is not covered by it. */
  lemma NoPartialLabel(prefix: string, domain: string)
    requires prefix != [] && prefix[|prefix| - 1] != '.' && domain != [] && domain[0] != '.'
    ensures !HostMatches(prefix + domain, domain)
  {
    if EndsWith(prefix + domain, "." + domain) {
      SuffixAt(prefix + domain, "." + domain, 0);
    }
  }

  lemma SuffixChars(s: string, suffix: string, c: char)
    requires EndsWith(s, suffix) && c in suffix
    ensures c in s
  {
    var k :| 0 <= k < |suffix| && suffix[k] == c;
    assert s[|s| - |suffix| + k] == c;
  }

  /** A hostname has no `/`, so an entry with a path never covers one. */
  lemma PathEntryNeverMatches(hostname: string, domain: string)
    requires '/' in domain && '/' !in hostname
    ensures !HostMatches(hostname, domain)
  {
    if EndsWith(hostname, "." + domain) {
      SuffixChars(hostname, "." + domain, '/');
    }
  }

  /** Only `net` or the host itself could cover `notdoubleclick.net`. */
  lemma LookalikeCovers(d: string)
    requires HostMatches("notdoubleclick.net", d)
    ensures d == "notdoubleclick.net" || d == "net"
  {
    var h := "notdoubleclick.net";
    if d != h {
      assert forall k :: 0 <= k < |h| && h[k] == '.' ==> k == 14;
      assert h[|h| - |d| - 1] == ("." + d)[0];
      assert d == h[15..];
    }
  }

  /** The two patterns of one domain: every subdomain, then the domain itself. */
  function DomainPatterns(domain: string): seq<string> {
    ["*://*." + domain + "/*", "*://" + domain + "/*"]
  }

  /** The patterns of `domains`, in list order. */
  function Patterns(domains: seq<string>): (r: seq<string>)
    ensures |r| == 2 * |domains|
    decreases |domains|
  {
    if domains == [] then [] else Patterns(domains[..|domains| - 1]) + DomainPatterns(domains[|domains| - 1])
  }

  /** The `k`-th domain contributes the patterns at `2k` and `2k + 1`. */
  lemma {:induction false} PatternsAt(domains: seq<string>, k: nat)
    requires k < |domains|
    ensures Patterns(domains)[2 * k] == "*://*." + domains[k] + "/*"
    ensures Patterns(domains)[2 * k + 1] == "*://" + domains[k] + "/*"
    decreases |domains|
  {
    if k < |domains| - 1 {
      PatternsAt(domains[..|domains| - 1], k);
    }
  }

  /** Patterns of consecutive lists are consecutive. */
  lemma {:induction false} PatternsConcat(a: seq<string>, b: seq<string>)
    ensures Patterns(a + b) == Patterns(a) + Patterns(b)
    decreases |b|
  {
    if b == [] {
      assert a + b == a;
    } else {
      assert (a + b)[..|a + b| - 1] == a + b[..|b| - 1];
      PatternsConcat(a, b[..|b| - 1]);
    }
  }

  /** One loop of `getBlockPatterns`: push both patterns of each domain. */
  method PushPatterns(domains: seq<string>, patterns: seq<string>) returns (r: seq<string>)
    ensures r == patterns + Patterns(domains)
  {
    r := patterns;
    for i := 0 to |domains|
      invariant r == patterns + Patterns(domains[..i])
    {
      assert domains[..i + 1][..i] == domains[..i];
      r := r + ["*://*." + domains[i] + "/*"];
      r := r + ["*://" + domains[i] + "/*"];
    }
    assert domains[..|domains|] == domains;
  }

  /**
   * `getBlockPatterns`: both patterns of every tracker domain, then of every fingerprinting
   * domain, in list order.
   */
  method GetBlockPatterns() returns (patterns: seq<string>)
    ensures patterns == Patterns(TrackerDomains + FingerprintDomains)
    ensures |patterns| == 2 * (|TrackerDomains| + |FingerprintDomains|)
  {
    patterns := PushPatterns(TrackerDomains, []);
    patterns := PushPatterns(FingerprintDomains, patterns);
    PatternsConcat(TrackerDomains, FingerprintDomains);
  }
}
