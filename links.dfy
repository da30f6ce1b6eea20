/** Link normalisation of a listing row's `href` (`get_from_link`, lines 24-28):
    make the link absolute, then unwrap the campus SSL-VPN mirror hosts. */
module Links {
  import opened Results
  import opened Text

  const Https: string := "https://"
  const Domain: string := "ecust.edu.cn"
  /** `https://jwc.ecust.edu.cn`, the site root. */
  const BaseUrl: string := Https + "jwc." + Domain
  /** The SSL-VPN gateway's host and port, after the mangled `ecust` label. */
  const ProxyTail: string := "-edu-cn-s.sslvpn.ecust.edu.cn:8118"
  /** What follows the subdomain on a per-subdomain mirror host. */
  const MirrorTail: string := "-ecust" + ProxyTail
  /** What replaces `MirrorTail` on the canonical host. */
  const CanonicalTail: string := "." + Domain
  /** The mirror of the bare `ecust.edu.cn` host: `https://ecust-edu-cn-s.sslvpn.ecust.edu.cn:8118`. */
  const BareMirror: string := Https + "ecust" + ProxyTail
  /** `https://ecust.edu.cn`. */
  const BareCanonical: string := Https + Domain

  /** A non-empty run of `\w` characters: a subdomain label such as `jwc`. */
  predicate IsLabel(w: string) {
    |w| > 0 && All(w, IsWordChar)
  }

  /** Step one: an `href` not starting with `http` is resolved against the site root. */
  function Absolute(href: string): (r: string)
    ensures IsPrefix("http", r)
    ensures IsPrefix("http", href) ==> r == href
    ensures !IsPrefix("http", href) ==> r == BaseUrl + href
  {
    if IsPrefix("http", href) then href else BaseUrl + href
  }

  /** The parts of a per-subdomain mirror URL `https://W-ecust-edu-cn-s.sslvpn.ecust.edu.cn:8118…`. */
  datatype MirrorUrl = MirrorUrl(subdomain: string, rest: string)

  /** Matches `^https:\/\/(\w+)-ecust-edu-cn-s\.sslvpn\.ecust\.edu\.cn:8118`. Because a
      `-` is not a word character, `\w+` can only match the maximal word run. */
  function SubdomainMirror(s: string): (m: Option<MirrorUrl>)
    ensures m.Some? ==> IsLabel(m.value.subdomain)
    ensures m.Some? ==> s == Https + m.value.subdomain + MirrorTail + m.value.rest
  {
    if !IsPrefix(Https, s) then None
    else
      var w := Run(s[|Https|..], IsWordChar);
      var after := s[|Https| + |w|..];
      if |w| > 0 && IsPrefix(MirrorTail, after) then
        assert s == Https + w + MirrorTail + after[|MirrorTail|..];
        Some(MirrorUrl(w, after[|MirrorTail|..]))
      else None
  }

  /** First `replace`: `https://W-ecust-edu-cn-s.sslvpn.ecust.edu.cn:8118` becomes `https://W.ecust.edu.cn`. */
  function UnwrapSubdomainMirror(s: string): (r: string)
    ensures SubdomainMirror(s).None? ==> r == s
    ensures SubdomainMirror(r).None?
  {
    match SubdomainMirror(s)
    case Some(m) =>
      UnwrappedSubdomainIsCanonical(m.subdomain, m.rest);
      Https + m.subdomain + CanonicalTail + m.rest
    case None => s
  }

  /** Second `replace`: `https://ecust-edu-cn-s.sslvpn.ecust.edu.cn:8118` becomes `https://ecust.edu.cn`. */
  function UnwrapBareMirror(s: string): (r: string)
    ensures !IsPrefix(BareMirror, s) ==> r == s
    ensures !IsPrefix(BareMirror, r)
  {
    if IsPrefix(BareMirror, s) then
      UnwrappedBareIsCanonical(s[|BareMirror|..]);
      BareCanonical + s[|BareMirror|..]
    else s
  }

  /** The link `get_from_link` stores for a row's `href`. */
  function Normalize(href: string): string {
    UnwrapBareMirror(UnwrapSubdomainMirror(Absolute(href)))
  }

  /** A link that normalisation leaves alone: absolute, and neither mirror form. */
  predicate IsCanonical(s: string) {
    IsPrefix("http", s) && SubdomainMirror(s).None? && !IsPrefix(BareMirror, s)
  }

  /** After `https://`, the subdomain rule reads the maximal `\w` label and then
      looks for the gateway's host right behind it. */
  lemma SubdomainMirrorAfterLabel(w: string, t: string)
    requires IsLabel(w)
    requires t == [] || !IsWordChar(t[0])
    ensures SubdomainMirror(Https + w + t) ==
      if IsPrefix(MirrorTail, t) then Some(MirrorUrl(w, t[|MirrorTail|..])) else None
  {
    var s := Https + w + t;
    assert s[..|Https|] == Https;
    assert s[|Https|..] == w + t;
    RunOf(w, t, IsWordChar);
    assert s[|Https| + |w|..] == t;
  }

  /** The subdomain rule recognises exactly the mirror URLs with a non-empty `\w` label. */
  lemma SubdomainMirrorExact(w: string, rest: string)
    requires IsLabel(w)
    ensures SubdomainMirror(Https + w + MirrorTail + rest) == Some(MirrorUrl(w, rest))
  {
    assert Https + w + MirrorTail + rest == Https + w + (MirrorTail + rest);
    SubdomainMirrorAfterLabel(w, MirrorTail + rest);
    assert (MirrorTail + rest)[|MirrorTail|..] == rest;
  }

  /** Any URL of the form `https://W.X` with `W` a `\w` label is untouched by both rules. */
  lemma DottedHostIsCanonical(w: string, x: string)
    requires IsLabel(w)
    ensures IsCanonical(Https + w + "." + x)
  {
    var s := Https + w + "." + x;
    assert s == Https + w + ("." + x);
    SubdomainMirrorAfterLabel(w, "." + x);
    DiffersAt(MirrorTail, "." + x, 0);
    DottedHostNotBare(w, x);
  }

  lemma DottedHostNotBare(w: string, x: string)
    requires IsLabel(w)
    ensures !IsPrefix(BareMirror, Https + w + "." + x)
  {
    var s := Https + w + "." + x;
    if |w| <= 5 {
      assert s[8 + |w|] == '.';
      DiffersAt(BareMirror, s, 8 + |w|);
    } else {
      assert s[13] == w[5];
      DiffersAt(BareMirror, s, 13);
    }
  }

  lemma UnwrappedSubdomainIsCanonical(w: string, rest: string)
    requires IsLabel(w)
    ensures IsCanonical(Https + w + CanonicalTail + rest)
  {
    assert Https + w + CanonicalTail + rest == Https + w + "." + (Domain + rest);
    DottedHostIsCanonical(w, Domain + rest);
  }

  lemma UnwrappedBareIsCanonical(rest: string)
    ensures IsCanonical(BareCanonical + rest)
  {
    assert Domain == "ecust" + "." + "edu.cn";
    assert BareCanonical + rest == Https + "ecust" + "." + ("edu.cn" + rest);
    DottedHostIsCanonical("ecust", "edu.cn" + rest);
  }

  /** The two rewrites cannot both fire on one URL. */
  lemma RulesExclusive(s: string)
    ensures !(SubdomainMirror(s).Some? && IsPrefix(BareMirror, s))
  {
    if IsPrefix(BareMirror, s) {
      var t := ProxyTail + s[|BareMirror|..];
      assert s == Https + "ecust" + t;
      SubdomainMirrorAfterLabel("ecust", t);
      DiffersAt(MirrorTail, t, 2);
    }
  }

  /** Every normalised link starts with `http`, and no rule applies to it again. */
  lemma NormalizeIsCanonical(href: string)
    ensures IsCanonical(Normalize(href))
  {
    var a := Absolute(href);
    match SubdomainMirror(a)
    case Some(m) =>
      RulesExclusive(a);
      UnwrappedSubdomainIsCanonical(m.subdomain, m.rest);
    case None =>
      if IsPrefix(BareMirror, a) {
        UnwrappedBareIsCanonical(a[|BareMirror|..]);
      }
  }

  /** Canonical links are fixed points of normalisation. */
  lemma CanonicalIsFixed(s: string)
    requires IsCanonical(s)
    ensures Normalize(s) == s
  {
  }

  /** Normalisation is idempotent. */
  lemma NormalizeIdempotent(href: string)
    ensures Normalize(Normalize(href)) == Normalize(href)
  {
    NormalizeIsCanonical(href);
    CanonicalIsFixed(Normalize(href));
  }

  /** A relative `href` is prefixed with the site root and otherwise left as it is. */
  lemma RelativeHref(href: string)
    requires !IsPrefix("http", href)
    ensures Normalize(href) == BaseUrl + href
  {
    assert BaseUrl + href == Https + "jwc" + "." + (Domain + href);
    DottedHostIsCanonical("jwc", Domain + href);
  }

  /** A per-subdomain mirror URL is unwrapped to its canonical host, keeping the rest. */
  lemma SubdomainMirrorUnwrapped(w: string, rest: string)
    requires IsLabel(w)
    ensures Normalize(Https + w + MirrorTail + rest) == Https + w + CanonicalTail + rest
  {
    SubdomainMirrorExact(w, rest);
    var s := Https + w + MirrorTail + rest;
    assert s[..4] == "http";
    UnwrappedSubdomainIsCanonical(w, rest);
  }

  /** The bare mirror URL is unwrapped to `https://ecust.edu.cn`, keeping the rest. */
  lemma BareMirrorUnwrapped(rest: string)
    ensures Normalize(BareMirror + rest) == BareCanonical + rest
  {
    var s := BareMirror + rest;
    assert s == Https + ("ecust" + ProxyTail + rest);
    assert s[..4] == "http";
    RulesExclusive(s);
    assert s[|BareMirror|..] == rest;
  }

  /** Only the start of the link is examined: a plain `http://` link is never
      rewritten, whatever mirror host text appears later in it. */
  lemma PlainHttpUntouched(rest: string)
    ensures Normalize("http://" + rest) == "http://" + rest
  {
    var s := "http://" + rest;
    assert s[..4] == "http";
    DiffersAt(Https, s, 4);
    DiffersAt(BareMirror, s, 4);
  }
}
