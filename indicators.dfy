/**
 * The indicator extractor (phish_triage/indicators.py): sender and reply-to
 * domains and their mismatch, the authentication verdicts found in the
 * Authentication-Results (RFC 8601) and Received-SPF (section 9.1 of
 * RFC 7208) headers, and a classification record per URL.
 *
 * Three library calls are not modelled and are passed in as functions:
 * the address part of `email.utils.parseaddr`, the host name of
 * `urllib.parse.urlparse` (None when there is none or parsing raises) and
 * the IDNA codec's decoding (None when it raises).
 */
module Indicators {
  import opened Wrappers
  import opened Text
  import opened Parser

  // ---------------------------------------------------------------------------
  // Records and configuration
  // ---------------------------------------------------------------------------

  /** The watch-list of top-level domains with elevated abuse rates. */
  const RiskyTlds: set<string> := {"zip", "mov", "xyz", "top", "click", "gq", "tk", "icu", "work"}

  /** The ASCII compatible encoding prefix of an internationalised label (section 5 of RFC 5890). */
  const AcePrefix: string := "xn--"

  datatype UrlDetail = UrlDetail(
    url: string,
    domain: string,
    domainDisplay: string,
    tld: string,
    punycode: bool,
    riskyTld: bool,
    domainAgeDays: Option<nat>)

  datatype AuthResults = AuthResults(spf: string, dkim: string, dmarc: string, raw: string)

  datatype IndicatorSet = IndicatorSet(
    fromDomain: string,
    replyToDomain: string,
    fromReplyToMismatch: bool,
    auth: AuthResults,
    urlDetails: seq<UrlDetail>,
    attachments: seq<Attachment>)

  // ---------------------------------------------------------------------------
  // Sender domains
  // ---------------------------------------------------------------------------

  /** The characters stripped from both ends of an address's domain. */
  const DomainTrim: set<char> := {' ', '>'}

  /** The lower-cased text after the first `@` (`addr.split("@", 1)[1].lower()`). */
  function AfterFirstAt(addr: string): string
    requires '@' in addr
  {
    Lower(addr[FirstIndex(addr, '@') + 1..])
  }

  /**
   * `_email_domain` after `parseaddr`: empty when the address has no `@`,
   * otherwise the text after the first `@`, lower-cased, with spaces and
   * `>` stripped from both ends.
   */
  function EmailDomain(addr: string): (r: string)
    ensures '@' !in addr ==> r == ""
    ensures forall i :: 0 <= i < |r| ==> !IsUpper(r[i])
    ensures r != [] ==> r[0] !in DomainTrim && r[|r| - 1] !in DomainTrim
    ensures '@' in addr ==>
      (r == [] <==> forall i :: 0 <= i < |AfterFirstAt(addr)| ==> AfterFirstAt(addr)[i] in DomainTrim)
    ensures '@' in addr && r != [] ==>
      StripsTo(AfterFirstAt(addr), DomainTrim, LeadingCount(AfterFirstAt(addr), DomainTrim), r)
  {
    if '@' in addr then
      var tail := AfterFirstAt(addr);
      var dom := StripSet(tail, DomainTrim);
      StripSetNoUpper(tail, DomainTrim);
      StripSetSpec(tail, DomainTrim);
      dom
    else ""
  }

  /**
   * Round trip: for a local part without `@` and a domain that is already
   * lower-case and trimmed, the domain of `local@domain` is `domain`.
   */
  lemma EmailDomainOfAddress(local: string, domain: string)
    requires '@' !in local
    requires forall i :: 0 <= i < |domain| ==> !IsUpper(domain[i])
    requires domain != [] ==> domain[0] !in DomainTrim && domain[|domain| - 1] !in DomainTrim
    ensures EmailDomain(local + "@" + domain) == domain
  {
    var addr := local + "@" + domain;
    assert addr[|local|] == '@';
    assert forall j | 0 <= j < |local| :: addr[j] == local[j];
    assert FirstIndex(addr, '@') == |local|;
    assert addr[|local| + 1..] == domain;
    LowerNoop(domain);
    StripSetNoop(domain, DomainTrim);
  }

  /** The From / Reply-To mismatch rule. */
  function Mismatch(fromDomain: string, replyToDomain: string): bool {
    fromDomain != "" && replyToDomain != "" && fromDomain != replyToDomain
  }

  /** The mismatch rule is symmetric and gives no signal from partial data. */
  lemma MismatchProperties(a: string, b: string)
    ensures Mismatch(a, b) == Mismatch(b, a)
    ensures a == "" || b == "" ==> !Mismatch(a, b)
    ensures Mismatch(a, b) ==> a != b
  {
  }

  // ---------------------------------------------------------------------------
  // URL domains
  // ---------------------------------------------------------------------------

  /** `_domain_from_url`: the lower-cased host name, or "" when there is none. */
  function DomainFromUrl(hostname: string -> Option<string>, url: string): (d: string)
    ensures forall i :: 0 <= i < |d| ==> !IsUpper(d[i])
    ensures hostname(url).None? ==> d == ""
    ensures hostname(url).Some? ==> d == Lower(hostname(url).value)
  {
    match hostname(url)
    case None => ""
    case Some(h) => Lower(h)
  }

  /**
   * `_tld`: "" when the domain has no dot, otherwise the text after its last
   * dot, lower-cased; the result never contains a dot.
   */
  function Tld(domain: string): (r: string)
    ensures '.' !in domain ==> r == ""
    ensures '.' in domain ==> r == Lower(domain[LastIndex(domain, '.') + 1..])
    ensures '.' !in r
  {
    var parts := Split(domain, '.');
    SplitManyIff(domain, '.');
    if |parts| >= 2 then
      SplitLast(domain, '.');
      Lower(parts[|parts| - 1])
    else ""
  }

  /** `_is_punycode`: some dot-separated label starts with the ACE prefix. */
  predicate IsPunycode(domain: string) {
    var labels := Split(domain, '.');
    exists k | 0 <= k < |labels| :: StartsWith(labels[k], AcePrefix)
  }

  /** The ACE prefix occurs right after some dot of `d`. */
  predicate AceAfterDot(d: string) {
    exists i | 0 <= i < |d| :: d[i] == '.' && StartsWith(d[i + 1..], AcePrefix)
  }

  /** The ACE prefix occurs at the start of the domain or right after a dot. */
  predicate AceAtLabelStart(d: string) {
    StartsWith(d, AcePrefix) || AceAfterDot(d)
  }

  /**
   * Cutting `d` at a dot `d[i]` at or after position `m` does not change
   * whether the ACE prefix starts at `m`, because the prefix holds no dot.
   */
  lemma AceCut(d: string, m: nat, i: nat)
    requires m <= i < |d| && d[i] == '.'
    ensures StartsWith(d[m..], AcePrefix) <==> StartsWith(d[..i][m..], AcePrefix)
  {
    if StartsWith(d[m..], AcePrefix) {
      assert forall t | 0 <= t < 4 :: d[m..][t] == AcePrefix[t];
      assert i >= m + 4;
      assert d[..i][m..][..4] == d[m..][..4];
    }
    if StartsWith(d[..i][m..], AcePrefix) {
      assert d[..i][m..][..4] == d[m..][..4];
    }
  }

  /** Label view: a domain whose last dot is at `i` is punycode iff the part before it or its last label is. */
  lemma PunycodeLabels(d: string, i: nat)
    requires '.' in d && i == LastIndex(d, '.')
    ensures IsPunycode(d) <==> IsPunycode(d[..i]) || StartsWith(d[i + 1..], AcePrefix)
  {
    var init := Split(d[..i], '.');
    var labels := Split(d, '.');
    SplitSnoc(d, '.');
    assert labels == init + [d[i + 1..]];
    if IsPunycode(d) {
      var k :| 0 <= k < |labels| && StartsWith(labels[k], AcePrefix);
      if k < |init| {
        assert init[k] == labels[k];
      }
    }
    if IsPunycode(d[..i]) {
      var k :| 0 <= k < |init| && StartsWith(init[k], AcePrefix);
      assert labels[k] == init[k];
    }
    if StartsWith(d[i + 1..], AcePrefix) {
      assert labels[|labels| - 1] == d[i + 1..];
    }
  }

  /** A dot before the last dot `i` that starts the ACE prefix in `d` does so in `d[..i]` too. */
  lemma AceAfterEarlierDot(d: string, i: nat, j: nat)
    requires '.' in d && i == LastIndex(d, '.')
    requires j < i && d[j] == '.' && StartsWith(d[j + 1..], AcePrefix)
    ensures AceAfterDot(d[..i])
  {
    AceCut(d, j + 1, i);
    assert d[..i][j] == '.';
  }

  /** A dot of `d[..i]` that starts the ACE prefix there does so in `d` too. */
  lemma AceAfterDotOfInit(d: string, i: nat, j: nat)
    requires '.' in d && i == LastIndex(d, '.')
    requires j < i && d[..i][j] == '.' && StartsWith(d[..i][j + 1..], AcePrefix)
    ensures AceAfterDot(d)
  {
    AceCut(d, j + 1, i);
  }

  /** Position view: the dots of `d` are those before its last dot `i`, and `i` itself. */
  lemma AceAfterDotSplit(d: string, i: nat)
    requires '.' in d && i == LastIndex(d, '.')
    ensures AceAfterDot(d) <==> AceAfterDot(d[..i]) || StartsWith(d[i + 1..], AcePrefix)
  {
    if AceAfterDot(d) {
      var j :| 0 <= j < |d| && d[j] == '.' && StartsWith(d[j + 1..], AcePrefix);
      if j < i {
        AceAfterEarlierDot(d, i, j);
      }
    }
    if AceAfterDot(d[..i]) {
      var j :| 0 <= j < i && d[..i][j] == '.' && StartsWith(d[..i][j + 1..], AcePrefix);
      AceAfterDotOfInit(d, i, j);
    }
  }

  /** A label-based and a position-based reading of "punycode" agree. */
  lemma {:induction false} PunycodeIff(d: string)
    ensures IsPunycode(d) <==> AceAtLabelStart(d)
    decreases |d|
  {
    if '.' !in d {
      assert !AceAfterDot(d);
      if StartsWith(d, AcePrefix) {
        assert StartsWith(Split(d, '.')[0], AcePrefix);
      }
    } else {
      var i := LastIndex(d, '.');
      PunycodeIff(d[..i]);
      PunycodeLabels(d, i);
      AceAfterDotSplit(d, i);
      AceCut(d, 0, i);
      assert d[0..] == d && d[..i][0..] == d[..i];
    }
  }

  /** The ASCII characters of `s` (`encode("ascii", errors="ignore")`). */
  function AsciiOnly(s: string): (r: string)
    ensures |r| <= |s|
    ensures forall i :: 0 <= i < |r| ==> r[i] as int < 128
    ensures (forall i :: 0 <= i < |s| ==> s[i] as int < 128) ==> r == s
    ensures (forall i :: 0 <= i < |s| ==> s[i] as int >= 128) ==> r == ""
  {
    if |s| == 0 then ""
    else (if s[0] as int < 128 then [s[0]] else []) + AsciiOnly(s[1..])
  }

  /** Dropping non-ASCII characters works piece by piece, keeping the order of what is kept. */
  lemma {:induction false} AsciiOnlyConcat(a: string, b: string)
    ensures AsciiOnly(a + b) == AsciiOnly(a) + AsciiOnly(b)
  {
    if |a| > 0 {
      assert (a + b)[0] == a[0];
      assert (a + b)[1..] == a[1..] + b;
      AsciiOnlyConcat(a[1..], b);
    } else {
      assert a + b == b;
    }
  }

  /** `_decode_idna`: the decoded form, or the domain itself when decoding fails. */
  function DecodeIdna(idna: string -> Option<string>, domain: string): (r: string)
    ensures idna(AsciiOnly(domain)).None? ==> r == domain
    ensures idna(AsciiOnly(domain)).Some? ==> r == idna(AsciiOnly(domain)).value
  {
    match idna(AsciiOnly(domain))
    case None => domain
    case Some(decoded) => decoded
  }

  /** The classification record of one URL. */
  function ClassifyUrl(hostname: string -> Option<string>, idna: string -> Option<string>, url: string): (r: UrlDetail)
    ensures r.url == url && r.domainAgeDays == None
    ensures r.domain == DomainFromUrl(hostname, url)
    ensures r.tld == Tld(r.domain)
    ensures r.riskyTld <==> r.tld != "" && r.tld in RiskyTlds
    ensures r.riskyTld ==> '.' in r.domain
    ensures !r.punycode ==> r.domainDisplay == r.domain
    ensures r.punycode ==> r.domainDisplay == DecodeIdna(idna, r.domain)
    ensures r.punycode <==> AceAtLabelStart(r.domain)
  {
    var d := DomainFromUrl(hostname, url);
    var td := Tld(d);
    var puny := IsPunycode(d);
    PunycodeIff(d);
    UrlDetail(
      url,
      d,
      if puny then DecodeIdna(idna, d) else d,
      td,
      puny,
      if td != "" then td in RiskyTlds else false,
      None)
  }

  // ---------------------------------------------------------------------------
  // Authentication results
  // ---------------------------------------------------------------------------

  const SpfTokens: seq<string> := ["pass", "fail", "softfail", "neutral", "none", "temperror", "permerror"]
  const DkimTokens: seq<string> := ["pass", "fail", "neutral", "none", "temperror", "permerror"]
  const DmarcTokens: seq<string> := ["pass", "fail", "bestguesspass", "none"]

  /** The regular-expression anchor `\b` at position `i` of `s`. */
  predicate Boundary(s: string, i: nat)
    requires i <= |s|
  {
    (i > 0 && IsWordChar(s[i - 1])) != (i < |s| && IsWordChar(s[i]))
  }

  /** `tok\b` matches at position `j` of `s`. */
  predicate TokenMatches(s: string, j: nat, tok: string)
    requires j <= |s|
  {
    StartsWith(s[j..], tok) && Boundary(s, j + |tok|)
  }

  /** The first alternative of `(t1|t2|...)\b` that matches at position `j`. */
  function FirstAlternative(s: string, j: nat, tokens: seq<string>): (r: Option<string>)
    requires j <= |s|
    ensures r.Some? ==> r.value in tokens && TokenMatches(s, j, r.value)
    ensures r.None? ==> forall k :: 0 <= k < |tokens| ==> !TokenMatches(s, j, tokens[k])
  {
    if |tokens| == 0 then None
    else if TokenMatches(s, j, tokens[0]) then Some(tokens[0])
    else FirstAlternative(s, j, tokens[1..])
  }

  /** No alternative listed before index `k` matches at position `j`. */
  predicate NoneBefore(s: string, j: nat, tokens: seq<string>, k: nat)
    requires j <= |s| && k <= |tokens|
  {
    forall k' :: 0 <= k' < k ==> !TokenMatches(s, j, tokens[k'])
  }

  /** The alternative found is the first listed one that matches, as the regular expression tries them. */
  lemma {:induction false} FirstAlternativeIsFirst(s: string, j: nat, tokens: seq<string>)
    requires j <= |s|
    ensures FirstAlternative(s, j, tokens).Some? ==>
      exists k :: 0 <= k < |tokens| && tokens[k] == FirstAlternative(s, j, tokens).value &&
                  NoneBefore(s, j, tokens, k)
  {
    if |tokens| > 0 && !TokenMatches(s, j, tokens[0]) {
      var rest := tokens[1..];
      FirstAlternativeIsFirst(s, j, rest);
      if FirstAlternative(s, j, rest).Some? {
        var k :| 0 <= k < |rest| && rest[k] == FirstAlternative(s, j, rest).value && NoneBefore(s, j, rest, k);
        assert tokens[k + 1] == rest[k];
        forall k' | 0 <= k' < k + 1 ensures !TokenMatches(s, j, tokens[k']) {
          if k' > 0 {
            assert tokens[k'] == rest[k' - 1];
          }
        }
        assert NoneBefore(s, j, tokens, k + 1);
      }
    } else if |tokens| > 0 {
      assert NoneBefore(s, j, tokens, 0);
    }
  }

  /** The token the pattern `\bkey(t1|t2|...)\b` captures at position `i`, if it matches there. */
  function MatchAt(s: string, i: nat, key: string, tokens: seq<string>): (r: Option<string>)
    requires i <= |s|
    ensures r.Some? ==> r.value in tokens && Boundary(s, i) && StartsWith(s[i..], key + r.value) &&
                        Boundary(s, i + |key| + |r.value|)
    ensures r.None? ==> !(Boundary(s, i) && StartsWith(s[i..], key)) ||
                        forall k :: 0 <= k < |tokens| ==> !TokenMatches(s, i + |key|, tokens[k])
  {
    if Boundary(s, i) && StartsWith(s[i..], key) then
      var m := FirstAlternative(s, i + |key|, tokens);
      if m.Some? then
        assert s[i..][..|key| + |m.value|] == s[i..][..|key|] + s[i + |key|..][..|m.value|];
        m
      else None
    else None
  }

  /** `re.search` from position `i`: the leftmost match at or after `i`, with its position. */
  function SearchFrom(s: string, i: nat, key: string, tokens: seq<string>): (r: Option<(nat, string)>)
    requires i <= |s|
    ensures r.Some? ==> i <= r.value.0 <= |s| && MatchAt(s, r.value.0, key, tokens) == Some(r.value.1)
    decreases |s| - i
  {
    match MatchAt(s, i, key, tokens)
    case Some(t) => Some((i, t))
    case None => if i == |s| then None else SearchFrom(s, i + 1, key, tokens)
  }

  /** The search is leftmost: it fails only when no position matches, and skips no match. */
  lemma {:induction false} SearchFromLeftmost(s: string, i: nat, key: string, tokens: seq<string>)
    requires i <= |s|
    ensures SearchFrom(s, i, key, tokens).None? ==>
      forall j :: i <= j <= |s| ==> MatchAt(s, j, key, tokens).None?
    ensures SearchFrom(s, i, key, tokens).Some? ==>
      forall j :: i <= j < SearchFrom(s, i, key, tokens).value.0 ==> MatchAt(s, j, key, tokens).None?
    decreases |s| - i
  {
    if MatchAt(s, i, key, tokens).None? && i < |s| {
      SearchFromLeftmost(s, i + 1, key, tokens);
    }
  }

  /** The pattern matches nowhere in `s`. */
  predicate NoMatch(s: string, key: string, tokens: seq<string>) {
    forall j :: 0 <= j <= |s| ==> MatchAt(s, j, key, tokens).None?
  }

  /** The pattern matches at `j`, capturing `t`, and at no earlier position. */
  predicate IsLeftmostMatch(s: string, j: nat, key: string, tokens: seq<string>, t: string) {
    j <= |s| && MatchAt(s, j, key, tokens) == Some(t) &&
    forall k :: 0 <= k < j ==> MatchAt(s, k, key, tokens).None?
  }

  /**
   * `v` is what `m.group(1) if m else ""` gives for `m = re.search(...)`:
   * "" exactly when nothing matches, otherwise the capture of the leftmost match.
   */
  predicate Captures(s: string, key: string, tokens: seq<string>, v: string) {
    (v == "" <==> NoMatch(s, key, tokens)) &&
    (v != "" ==> exists j: nat :: j <= |s| && IsLeftmostMatch(s, j, key, tokens, v))
  }

  /** `pick`: the group of the first match of `\bkey(tokens)\b`, or "" when there is none. */
  function Pick(blob: string, key: string, tokens: seq<string>): (r: string)
    ensures r == "" || r in tokens
    ensures NoMatch(blob, key, tokens) ==> r == ""
    ensures forall j: nat, t :: IsLeftmostMatch(blob, j, key, tokens, t) ==> r == t
  {
    SearchFromLeftmost(blob, 0, key, tokens);
    match SearchFrom(blob, 0, key, tokens)
    case None => ""
    case Some((p, t)) =>
      assert IsLeftmostMatch(blob, p, key, tokens, t);
      LeftmostUnique(blob, key, tokens, p, t);
      t
  }

  /** With a vocabulary that does not contain "", `pick` gives exactly what `re.search` captures. */
  lemma PickCaptures(blob: string, key: string, tokens: seq<string>)
    requires "" !in tokens
    ensures Captures(blob, key, tokens, Pick(blob, key, tokens))
  {
    SearchFromLeftmost(blob, 0, key, tokens);
    var r := Pick(blob, key, tokens);
    if r != "" {
      var p := SearchFrom(blob, 0, key, tokens).value.0;
      assert IsLeftmostMatch(blob, p, key, tokens, r);
    }
  }

  /** There is only one leftmost match. */
  lemma LeftmostUnique(s: string, key: string, tokens: seq<string>, p: nat, t: string)
    requires IsLeftmostMatch(s, p, key, tokens, t)
    ensures forall j: nat, u :: IsLeftmostMatch(s, j, key, tokens, u) ==> j == p && u == t
  {
    forall j: nat, u | IsLeftmostMatch(s, j, key, tokens, u) ensures j == p && u == t {
      assert !(j < p) && !(p < j);
    }
  }

  /** The lower-cased, stripped concatenation of the two headers that is searched. */
  function AuthBlob(authenticationResults: string, receivedSpf: string): string {
    Lower(Strip(authenticationResults + " " + receivedSpf))
  }

  /**
   * `_extract_auth`: each verdict is "" (not found, which is distinct from an
   * explicit "none") or a token of its own vocabulary; `raw` keeps both
   * header values untouched, the second on its own line when present.
   */
  function ExtractAuth(authenticationResults: string, receivedSpf: string): (r: AuthResults)
    ensures r.spf == "" || r.spf in SpfTokens
    ensures r.dkim == "" || r.dkim in DkimTokens
    ensures r.dmarc == "" || r.dmarc in DmarcTokens
    ensures receivedSpf == "" ==> r.raw == authenticationResults
    ensures receivedSpf != "" ==> r.raw == authenticationResults + "\n" + receivedSpf
  {
    var blob := AuthBlob(authenticationResults, receivedSpf);
    AuthResults(
      Pick(blob, "spf=", SpfTokens),
      Pick(blob, "dkim=", DkimTokens),
      Pick(blob, "dmarc=", DmarcTokens),
      authenticationResults + (if receivedSpf != "" then "\n" + receivedSpf else ""))
  }

  /**
   * Each verdict is what `re.search` captures in the blob: "" exactly when
   * its pattern matches nowhere, otherwise the token of the leftmost match.
   */
  lemma ExtractAuthCaptures(authenticationResults: string, receivedSpf: string)
    ensures Captures(AuthBlob(authenticationResults, receivedSpf), "spf=", SpfTokens,
                     ExtractAuth(authenticationResults, receivedSpf).spf)
    ensures Captures(AuthBlob(authenticationResults, receivedSpf), "dkim=", DkimTokens,
                     ExtractAuth(authenticationResults, receivedSpf).dkim)
    ensures Captures(AuthBlob(authenticationResults, receivedSpf), "dmarc=", DmarcTokens,
                     ExtractAuth(authenticationResults, receivedSpf).dmarc)
  {
    var blob := AuthBlob(authenticationResults, receivedSpf);
    PickCaptures(blob, "spf=", SpfTokens);
    PickCaptures(blob, "dkim=", DkimTokens);
    PickCaptures(blob, "dmarc=", DmarcTokens);
  }

  predicate AllWordChars(t: string) {
    forall i :: 0 <= i < |t| ==> IsWordChar(t[i])
  }

  /**
   * Two different alternatives made of word characters cannot both match
   * at one position, so the order in which the pattern lists them never
   * changes what is captured.
   */
  lemma AlternativesExclusive(s: string, j: nat, t1: string, t2: string)
    requires j <= |s|
    requires t1 != [] && t2 != [] && AllWordChars(t1) && AllWordChars(t2)
    requires t1 != t2
    ensures !(TokenMatches(s, j, t1) && TokenMatches(s, j, t2))
  {
    if StartsWith(s[j..], t1) && StartsWith(s[j..], t2) {
      if |t1| < |t2| {
        assert s[j + |t1| - 1] == t1[|t1| - 1];
        assert s[j + |t1|] == t2[|t1|];
        assert !Boundary(s, j + |t1|);
      } else if |t2| < |t1| {
        assert s[j + |t2| - 1] == t2[|t2| - 1];
        assert s[j + |t2|] == t1[|t2|];
        assert !Boundary(s, j + |t2|);
      }
    }
  }

  /** Every alternative is a non-empty run of word characters. */
  predicate WordVocabulary(tokens: seq<string>) {
    forall k :: 0 <= k < |tokens| ==> tokens[k] != [] && AllWordChars(tokens[k])
  }

  /**
   * In a vocabulary of word-character alternatives, whichever alternative
   * matches is the one captured: the listing order never matters.
   */
  lemma OnlyMatchCaptured(s: string, j: nat, tokens: seq<string>)
    requires j <= |s| && WordVocabulary(tokens)
    ensures forall k :: 0 <= k < |tokens| && TokenMatches(s, j, tokens[k]) ==>
              FirstAlternative(s, j, tokens) == Some(tokens[k])
  {
    forall k | 0 <= k < |tokens| && TokenMatches(s, j, tokens[k])
      ensures FirstAlternative(s, j, tokens) == Some(tokens[k])
    {
      var m := FirstAlternative(s, j, tokens);
      assert m.Some?;
      var k2 :| 0 <= k2 < |tokens| && tokens[k2] == m.value;
      if m.value != tokens[k] {
        AlternativesExclusive(s, j, m.value, tokens[k]);
      }
    }
  }

  /** The SPF, DKIM and DMARC vocabularies are made of word characters only. */
  lemma AuthVocabulariesWellFormed()
    ensures WordVocabulary(SpfTokens) && WordVocabulary(DkimTokens) && WordVocabulary(DmarcTokens)
  {
    WordTokens(["pass", "fail", "softfail", "neutral"]);
    WordTokens(["none", "temperror", "permerror"]);
    assert SpfTokens == ["pass", "fail", "softfail", "neutral"] + ["none", "temperror", "permerror"];
    WordTokens(["pass", "fail", "neutral"]);
    assert DkimTokens == ["pass", "fail", "neutral"] + ["none", "temperror", "permerror"];
    WordTokens(["pass", "fail", "bestguesspass", "none"]);
  }

  /** Lower-case letters are word characters. */
  lemma WordTokens(tokens: seq<string>)
    requires forall k :: 0 <= k < |tokens| ==>
               (tokens[k] != [] && forall i :: 0 <= i < |tokens[k]| ==> 'a' <= tokens[k][i] <= 'z')
    ensures WordVocabulary(tokens)
  {
  }

  /** At any position of the blob, whichever verdict token matches is the one captured. */
  lemma AuthCaptureOrderIrrelevant(s: string, j: nat)
    requires j <= |s|
    ensures forall k :: 0 <= k < |SpfTokens| && TokenMatches(s, j, SpfTokens[k]) ==>
              FirstAlternative(s, j, SpfTokens) == Some(SpfTokens[k])
    ensures forall k :: 0 <= k < |DkimTokens| && TokenMatches(s, j, DkimTokens[k]) ==>
              FirstAlternative(s, j, DkimTokens) == Some(DkimTokens[k])
    ensures forall k :: 0 <= k < |DmarcTokens| && TokenMatches(s, j, DmarcTokens[k]) ==>
              FirstAlternative(s, j, DmarcTokens) == Some(DmarcTokens[k])
  {
    AuthVocabulariesWellFormed();
    OnlyMatchCaptured(s, j, SpfTokens);
    OnlyMatchCaptured(s, j, DkimTokens);
    OnlyMatchCaptured(s, j, DmarcTokens);
  }

  // ---------------------------------------------------------------------------
  // The whole extractor
  // ---------------------------------------------------------------------------

  /** The URL loop of `compute_indicators`: one classification record per URL, in order. */
  method ClassifyAll(
    hostname: string -> Option<string>,
    idna: string -> Option<string>,
    urls: seq<string>)
    returns (details: seq<UrlDetail>)
    ensures |details| == |urls|
    ensures forall i :: 0 <= i < |urls| ==> details[i] == ClassifyUrl(hostname, idna, urls[i])
  {
    details := [];
    var i := 0;
    while i < |urls|
      invariant i <= |urls|
      invariant details == ClassifyEach(hostname, idna, urls[..i])
    {
      assert urls[..i + 1][..i] == urls[..i];
      details := details + [ClassifyUrl(hostname, idna, urls[i])];
      i := i + 1;
    }
    assert urls[..i] == urls;
    ClassifyEachIndex(hostname, idna, urls);
  }

  /** The classification records of `urls`, in order. */
  function ClassifyEach(hostname: string -> Option<string>, idna: string -> Option<string>, urls: seq<string>): seq<UrlDetail>
  {
    if |urls| == 0 then []
    else ClassifyEach(hostname, idna, urls[..|urls| - 1]) + [ClassifyUrl(hostname, idna, urls[|urls| - 1])]
  }

  /** Record `i` classifies URL `i`. */
  lemma {:induction false} ClassifyEachIndex(hostname: string -> Option<string>, idna: string -> Option<string>, urls: seq<string>)
    ensures |ClassifyEach(hostname, idna, urls)| == |urls|
    ensures forall i :: 0 <= i < |urls| ==> ClassifyEach(hostname, idna, urls)[i] == ClassifyUrl(hostname, idna, urls[i])
  {
    if |urls| > 0 {
      var init := urls[..|urls| - 1];
      ClassifyEachIndex(hostname, idna, init);
      forall i | 0 <= i < |urls|
        ensures ClassifyEach(hostname, idna, urls)[i] == ClassifyUrl(hostname, idna, urls[i])
      {
        if i < |urls| - 1 {
          assert urls[i] == init[i];
        }
      }
    }
  }

  /**
   * `compute_indicators`: both domains, the mismatch flag, the
   * authentication verdicts, one classification record per URL in input
   * order, and the attachments passed through unchanged.
   */
  method ComputeIndicators(
    parsed: ParsedEmail,
    parseAddr: string -> string,
    hostname: string -> Option<string>,
    idna: string -> Option<string>)
    returns (ind: IndicatorSet)
    ensures ind.fromDomain == EmailDomain(parseAddr(parsed.fromRaw))
    ensures ind.replyToDomain == EmailDomain(parseAddr(parsed.replyToRaw))
    ensures ind.fromReplyToMismatch <==>
      ind.fromDomain != "" && ind.replyToDomain != "" && ind.fromDomain != ind.replyToDomain
    ensures ind.auth == ExtractAuth(parsed.authenticationResults, parsed.receivedSpf)
    ensures |ind.urlDetails| == |parsed.urls|
    ensures forall i :: 0 <= i < |parsed.urls| ==>
      ind.urlDetails[i] == ClassifyUrl(hostname, idna, parsed.urls[i])
    ensures forall i :: 0 <= i < |parsed.urls| ==>
      ind.urlDetails[i].url == parsed.urls[i] && ind.urlDetails[i].domainAgeDays.None?
    ensures ind.attachments == parsed.attachments
  {
    var fromDom := EmailDomain(parseAddr(parsed.fromRaw));
    var replyDom := EmailDomain(parseAddr(parsed.replyToRaw));
    var mismatch := Mismatch(fromDom, replyDom);
    var auth := ExtractAuth(parsed.authenticationResults, parsed.receivedSpf);

    var details := ClassifyAll(hostname, idna, parsed.urls);
    ind := IndicatorSet(fromDom, replyDom, mismatch, auth, details, parsed.attachments);
  }
}
