/**
 * The risk scorer (phish_triage/scoring.py): a fixed, ordered list of
 * additive rules over the indicators, each triggered rule recorded in the
 * breakdown with its true points, the sum clamped to 0..100 and mapped to a
 * risk label.
 */
module Scoring {
  import opened Wrappers
  import opened Text
  import opened Parser
  import opened Indicators

  // ---------------------------------------------------------------------------
  // Records and configuration
  // ---------------------------------------------------------------------------

  datatype Risk = Low | Medium | High

  /** Why points were awarded; the counts and tokens the report text shows are fields. */
  datatype Reason =
    | ReplyToMismatch
    | SpfFailure(spf: string)
    | DkimFailure(dkim: string)
    | DmarcFailure
    | ContainsUrls(urlCount: nat)
    | RiskyTldUrls(riskyCount: nat)
    | PunycodeUrls(punycodeCount: nat)
    | ContainsAttachments(attachmentCount: nat)
    | HighRiskExtension(filename: string, extension: string)

  datatype Entry = Entry(points: nat, reason: Reason)

  datatype ScoreResult = ScoreResult(total: int, risk: Risk, breakdown: seq<Entry>)

  const SpfFailures: set<string> := {"fail", "softfail", "permerror"}
  const DkimFailures: set<string> := {"fail", "permerror"}

  /** The high-risk attachment extensions, in one fixed order (the source iterates a set). */
  const HighRiskExtensions: seq<string> :=
    [".exe", ".js", ".vbs", ".scr", ".bat", ".cmd", ".lnk", ".iso", ".img", ".hta"]

  // ---------------------------------------------------------------------------
  // Risk label
  // ---------------------------------------------------------------------------

  /** `_risk_label`: bands with inclusive lower bounds at 40 and 70. */
  function RiskLabel(score: int): (r: Risk)
    ensures r == High <==> score >= 70
    ensures r == Medium <==> 40 <= score < 70
    ensures r == Low <==> score < 40
  {
    if score >= 70 then High
    else if score >= 40 then Medium
    else Low
  }

  function Severity(r: Risk): nat {
    match r
    case Low => 0
    case Medium => 1
    case High => 2
  }

  /** A higher score never gets a lower label. */
  lemma RiskLabelMonotone(a: int, b: int)
    requires a <= b
    ensures Severity(RiskLabel(a)) <= Severity(RiskLabel(b))
  {
  }

  // ---------------------------------------------------------------------------
  // Counting and capping
  // ---------------------------------------------------------------------------

  function Min(a: int, b: int): int {
    if a <= b then a else b
  }

  /** How many URLs carry a risky top-level domain. */
  function RiskyCount(urls: seq<UrlDetail>): (k: nat)
    ensures k <= |urls|
  {
    if |urls| == 0 then 0
    else RiskyCount(urls[..|urls| - 1]) + (if urls[|urls| - 1].riskyTld then 1 else 0)
  }

  /** How many URLs have a punycode domain. */
  function PunycodeCount(urls: seq<UrlDetail>): (k: nat)
    ensures k <= |urls|
  {
    if |urls| == 0 then 0
    else PunycodeCount(urls[..|urls| - 1]) + (if urls[|urls| - 1].punycode then 1 else 0)
  }

  /** Points for `k` risky-TLD URLs: 5 each, at most 15. */
  function RiskyTldPoints(k: nat): nat {
    Min(15, k * 5)
  }

  /** Points for `k` punycode URLs: 8 each, at most 15. */
  function PunycodePoints(k: nat): nat {
    Min(15, k * 8)
  }

  /** Both URL contributions grow with the count and are capped at 15. */
  lemma UrlPointsCapped(k1: nat, k2: nat)
    requires k1 <= k2
    ensures RiskyTldPoints(k1) <= RiskyTldPoints(k2) <= 15
    ensures PunycodePoints(k1) <= PunycodePoints(k2) <= 15
    ensures k1 > 0 ==> RiskyTldPoints(k1) > 0 && PunycodePoints(k1) > 0
    ensures k2 >= 3 ==> RiskyTldPoints(k2) == 15
    ensures k2 >= 2 ==> PunycodePoints(k2) == 15
  {
  }

  // ---------------------------------------------------------------------------
  // High-risk extensions
  // ---------------------------------------------------------------------------

  /** The first extension of `exts` that `filename` ends with. */
  function FirstExtension(filename: string, exts: seq<string>): Option<string> {
    if |exts| == 0 then None
    else if EndsWith(filename, exts[0]) then Some(exts[0])
    else FirstExtension(filename, exts[1..])
  }

  /**
   * The search finds an extension of the list that the name ends with, and
   * finds none only when the name ends with none of them.
   */
  lemma {:induction false} FirstExtensionSpec(filename: string, exts: seq<string>)
    ensures FirstExtension(filename, exts).Some? ==>
      FirstExtension(filename, exts).value in exts && EndsWith(filename, FirstExtension(filename, exts).value)
    ensures FirstExtension(filename, exts).None? ==> forall e :: e in exts ==> !EndsWith(filename, e)
  {
    if |exts| > 0 && !EndsWith(filename, exts[0]) {
      FirstExtensionSpec(filename, exts[1..]);
      assert forall e :: e in exts ==> e == exts[0] || e in exts[1..];
    }
  }

  /** An extension: a dot followed by text without a dot. */
  predicate IsExtension(e: string) {
    |e| > 0 && e[0] == '.' && '.' !in e[1..]
  }

  /** An extension a file name ends with starts at the file name's last dot. */
  lemma ExtensionAtLastDot(filename: string, e: string)
    requires IsExtension(e) && EndsWith(filename, e)
    ensures '.' in filename && |filename| - |e| == LastIndex(filename, '.')
    ensures e == filename[LastIndex(filename, '.')..]
  {
    var k := |filename| - |e|;
    assert filename[k] == e[0];
    assert forall j | k < j < |filename| :: filename[j] == e[1..][j - k - 1];
  }

  lemma HighRiskExtensionsWellFormed()
    ensures forall e :: e in HighRiskExtensions ==> IsExtension(e)
  {
  }

  /** No high-risk extension ends with another, so a file name matches at most one. */
  lemma AtMostOneExtension(filename: string, e1: string, e2: string)
    requires e1 in HighRiskExtensions && e2 in HighRiskExtensions
    requires EndsWith(filename, e1) && EndsWith(filename, e2)
    ensures e1 == e2
  {
    HighRiskExtensionsWellFormed();
    ExtensionAtLastDot(filename, e1);
    ExtensionAtLastDot(filename, e2);
  }

  /**
   * The reported extension does not depend on the order in which the
   * extensions are tried: any listing of the same extensions finds the
   * same one.
   */
  lemma ExtensionOrderIrrelevant(filename: string, exts: seq<string>)
    requires forall e :: e in exts <==> e in HighRiskExtensions
    ensures FirstExtension(filename, exts) == FirstExtension(filename, HighRiskExtensions)
  {
    var a := FirstExtension(filename, exts);
    var b := FirstExtension(filename, HighRiskExtensions);
    FirstExtensionSpec(filename, exts);
    FirstExtensionSpec(filename, HighRiskExtensions);
    if a.Some? && b.Some? {
      AtMostOneExtension(filename, a.value, b.value);
    }
  }

  /** The entry, if any, that one attachment earns for its extension. */
  function ExtensionEntry(a: Attachment): (r: seq<Entry>)
    ensures |r| <= 1
  {
    var fn := Lower(a.filename);
    match FirstExtension(fn, HighRiskExtensions)
    case Some(ext) => [Entry(20, HighRiskExtension(fn, ext))]
    case None => []
  }

  /** The extension entries of all attachments, in attachment order. */
  function ExtensionEntries(atts: seq<Attachment>): seq<Entry> {
    if |atts| == 0 then []
    else ExtensionEntries(atts[..|atts| - 1]) + ExtensionEntry(atts[|atts| - 1])
  }

  lemma ExtensionEntriesSnoc(atts: seq<Attachment>, i: nat)
    requires i < |atts|
    ensures ExtensionEntries(atts[..i + 1]) == ExtensionEntries(atts[..i]) + ExtensionEntry(atts[i])
    ensures RiskyAttachmentCount(atts[..i + 1]) ==
      RiskyAttachmentCount(atts[..i]) + (if HasRiskyExtension(atts[i]) then 1 else 0)
  {
    assert atts[..i + 1][..i] == atts[..i];
  }

  /** Whether a file name, compared without case, ends with a high-risk extension. */
  predicate HasRiskyExtension(a: Attachment) {
    exists e :: e in HighRiskExtensions && EndsWith(Lower(a.filename), e)
  }

  function RiskyAttachmentCount(atts: seq<Attachment>): nat {
    if |atts| == 0 then 0
    else RiskyAttachmentCount(atts[..|atts| - 1]) + (if HasRiskyExtension(atts[|atts| - 1]) then 1 else 0)
  }

  /** A file name has a high-risk extension exactly when the search over the list finds one. */
  lemma HasRiskyExtensionIff(a: Attachment)
    ensures HasRiskyExtension(a) <==> FirstExtension(Lower(a.filename), HighRiskExtensions).Some?
  {
    var m := FirstExtension(Lower(a.filename), HighRiskExtensions);
    FirstExtensionSpec(Lower(a.filename), HighRiskExtensions);
    if m.Some? {
      assert m.value in HighRiskExtensions && EndsWith(Lower(a.filename), m.value);
    }
  }

  /** An entry of the extension rule: 20 points, naming a file and its extension. */
  predicate IsExtensionEntry(e: Entry) {
    e.points == 20 && e.reason.HighRiskExtension?
  }

  predicate AllExtensionEntries(b: seq<Entry>) {
    forall k :: 0 <= k < |b| ==> IsExtensionEntry(b[k])
  }

  /** One attachment earns one extension entry exactly when its name has a high-risk extension. */
  lemma ExtensionEntryShape(a: Attachment)
    ensures |ExtensionEntry(a)| == (if HasRiskyExtension(a) then 1 else 0)
    ensures AllExtensionEntries(ExtensionEntry(a))
    ensures |ExtensionEntry(a)| == 1 ==>
      ExtensionEntry(a)[0].reason.HighRiskExtension? &&
      ExtensionEntry(a)[0].reason.filename == Lower(a.filename) &&
      ExtensionEntry(a)[0].reason.extension in HighRiskExtensions &&
      EndsWith(Lower(a.filename), ExtensionEntry(a)[0].reason.extension)
  {
    HasRiskyExtensionIff(a);
    FirstExtensionSpec(Lower(a.filename), HighRiskExtensions);
  }

  lemma ExtensionEntriesConcat(b: seq<Entry>, c: seq<Entry>)
    requires AllExtensionEntries(b) && AllExtensionEntries(c)
    ensures AllExtensionEntries(b + c)
  {
    forall k | 0 <= k < |b + c| ensures IsExtensionEntry((b + c)[k]) {
      if k < |b| {
        assert (b + c)[k] == b[k];
      } else {
        assert (b + c)[k] == c[k - |b|];
      }
    }
  }

  /**
   * Exactly one +20 entry per attachment with a high-risk extension, never
   * more; `ExtensionEntryShape` says which file name and extension each names.
   */
  lemma {:induction false} ExtensionEntriesCount(atts: seq<Attachment>)
    ensures |ExtensionEntries(atts)| == RiskyAttachmentCount(atts) <= |atts|
    ensures forall k :: 0 <= k < |ExtensionEntries(atts)| ==>
      ExtensionEntries(atts)[k].points == 20 && ExtensionEntries(atts)[k].reason.HighRiskExtension?
  {
    if |atts| > 0 {
      var init := atts[..|atts| - 1];
      var a := atts[|atts| - 1];
      ExtensionEntriesCount(init);
      ExtensionEntryShape(a);
      assert AllExtensionEntries(ExtensionEntries(init));
      ExtensionEntriesConcat(ExtensionEntries(init), ExtensionEntry(a));
      assert ExtensionEntries(atts) == ExtensionEntries(init) + ExtensionEntry(a);
      assert RiskyAttachmentCount(atts) == RiskyAttachmentCount(init) + (if HasRiskyExtension(a) then 1 else 0);
      assert AllExtensionEntries(ExtensionEntries(atts));
    }
  }

  // ---------------------------------------------------------------------------
  // The rules, in evaluation order
  // ---------------------------------------------------------------------------

  function MismatchRule(ind: IndicatorSet): seq<Entry> {
    if ind.fromReplyToMismatch then [Entry(25, ReplyToMismatch)] else []
  }

  function SpfRule(ind: IndicatorSet): seq<Entry> {
    var spf := Lower(ind.auth.spf);
    if spf in SpfFailures then [Entry(20, SpfFailure(spf))] else []
  }

  function DkimRule(ind: IndicatorSet): seq<Entry> {
    var dkim := Lower(ind.auth.dkim);
    if dkim in DkimFailures then [Entry(20, DkimFailure(dkim))] else []
  }

  function DmarcRule(ind: IndicatorSet): seq<Entry> {
    if Lower(ind.auth.dmarc) == "fail" then [Entry(20, DmarcFailure)] else []
  }

  function UrlRule(ind: IndicatorSet): seq<Entry> {
    if |ind.urlDetails| > 0 then [Entry(5, ContainsUrls(|ind.urlDetails|))] else []
  }

  function RiskyTldRule(ind: IndicatorSet): seq<Entry> {
    var k := RiskyCount(ind.urlDetails);
    if k > 0 then [Entry(RiskyTldPoints(k), RiskyTldUrls(k))] else []
  }

  function PunycodeRule(ind: IndicatorSet): seq<Entry> {
    var k := PunycodeCount(ind.urlDetails);
    if k > 0 then [Entry(PunycodePoints(k), PunycodeUrls(k))] else []
  }

  /** The attachment rule; extension checks run only when there are attachments. */
  function AttachmentRule(ind: IndicatorSet): seq<Entry> {
    var atts := ind.attachments;
    if |atts| > 0 then [Entry(10, ContainsAttachments(|atts|))] + ExtensionEntries(atts) else []
  }

  /** Every triggered rule's entry, in the fixed evaluation order. */
  function Breakdown(ind: IndicatorSet): seq<Entry> {
    MismatchRule(ind) + SpfRule(ind) + DkimRule(ind) + DmarcRule(ind) +
    UrlRule(ind) + RiskyTldRule(ind) + PunycodeRule(ind) + AttachmentRule(ind)
  }

  /** The sum of the points of a breakdown, before clamping. */
  function Sum(entries: seq<Entry>): int {
    if |entries| == 0 then 0
    else Sum(entries[..|entries| - 1]) + entries[|entries| - 1].points
  }

  /** `max(0, min(100, x))`: the score range is 0..100, and a score inside it is kept. */
  function Clamp(x: int): (r: int)
    ensures 0 <= r <= 100
    ensures 0 <= x <= 100 ==> r == x
    ensures x < 0 ==> r == 0
    ensures x > 100 ==> r == 100
  {
    if x < 0 then 0 else if x > 100 then 100 else x
  }

  // ---------------------------------------------------------------------------
  // The scorer
  // ---------------------------------------------------------------------------

  /*
   * `score_email` runs in four stages over one running total and one
   * breakdown list; each stage below is a method that appends its rules'
   * entries and adds its rules' points to the total.
   */

  /** The reply-to mismatch rule. */
  method ScoreSender(ind: IndicatorSet, total0: int, breakdown0: seq<Entry>)
    returns (total: int, breakdown: seq<Entry>)
    ensures breakdown == breakdown0 + MismatchRule(ind)
    ensures total == total0 + SenderPoints(ind)
  {
    total, breakdown := total0, breakdown0;
    if ind.fromReplyToMismatch {
      total := total + 25;
      breakdown := breakdown + [Entry(25, ReplyToMismatch)];
    } else {
      assert breakdown == breakdown0 + [];
    }
  }

  /** The SPF, DKIM and DMARC rules, each verdict compared without case. */
  method ScoreAuth(ind: IndicatorSet, total0: int, breakdown0: seq<Entry>)
    returns (total: int, breakdown: seq<Entry>)
    ensures breakdown == breakdown0 + SpfRule(ind) + DkimRule(ind) + DmarcRule(ind)
    ensures total == total0 + AuthPoints(ind)
  {
    total, breakdown := total0, breakdown0;
    var spf := Lower(ind.auth.spf);
    var dkim := Lower(ind.auth.dkim);
    var dmarc := Lower(ind.auth.dmarc);

    if spf in SpfFailures {
      total := total + 20;
      breakdown := breakdown + [Entry(20, SpfFailure(spf))];
    }
    ghost var done := breakdown;
    assert done == breakdown0 + SpfRule(ind);
    if dkim in DkimFailures {
      total := total + 20;
      breakdown := breakdown + [Entry(20, DkimFailure(dkim))];
    }
    assert breakdown == done + DkimRule(ind);
    done := breakdown;
    if dmarc == "fail" {
      total := total + 20;
      breakdown := breakdown + [Entry(20, DmarcFailure)];
    }
    assert breakdown == done + DmarcRule(ind);
  }

  /** The URL rules: presence, risky top-level domains, punycode. */
  method ScoreUrls(ind: IndicatorSet, total0: int, breakdown0: seq<Entry>)
    returns (total: int, breakdown: seq<Entry>)
    ensures breakdown == breakdown0 + UrlRule(ind) + RiskyTldRule(ind) + PunycodeRule(ind)
    ensures total == total0 + UrlPoints(ind)
  {
    total, breakdown := total0, breakdown0;
    var urls := ind.urlDetails;
    if |urls| > 0 {
      total := total + 5;
      breakdown := breakdown + [Entry(5, ContainsUrls(|urls|))];
    }
    ghost var done := breakdown;
    assert done == breakdown0 + UrlRule(ind);
    var risky := RiskyCount(urls);
    if risky > 0 {
      var add := Min(15, risky * 5);
      total := total + add;
      breakdown := breakdown + [Entry(add, RiskyTldUrls(risky))];
    }
    assert breakdown == done + RiskyTldRule(ind);
    done := breakdown;
    var puny := PunycodeCount(urls);
    if puny > 0 {
      var add := Min(15, puny * 8);
      total := total + add;
      breakdown := breakdown + [Entry(add, PunycodeUrls(puny))];
    }
    assert breakdown == done + PunycodeRule(ind);
  }

  /** The inner loop over the extensions: the first one the file name ends with. */
  method MatchExtension(fn: string, exts: seq<string>) returns (found: Option<string>)
    ensures found == FirstExtension(fn, exts)
  {
    found := None;
    var j := 0;
    while j < |exts|
      invariant j <= |exts|
      invariant FirstExtension(fn, exts) == FirstExtension(fn, exts[j..])
    {
      var ext := exts[j];
      if EndsWith(fn, ext) {
        found := Some(ext);
        return;
      }
      assert exts[j..][1..] == exts[j + 1..];
      j := j + 1;
    }
  }

  /** One attachment: +20 when its lower-cased file name has a high-risk extension. */
  method ScoreExtension(a: Attachment, total0: int, breakdown0: seq<Entry>)
    returns (total: int, breakdown: seq<Entry>)
    ensures breakdown == breakdown0 + ExtensionEntry(a)
    ensures total == total0 + (if HasRiskyExtension(a) then 20 else 0)
  {
    total, breakdown := total0, breakdown0;
    var fn := Lower(a.filename);
    var found := MatchExtension(fn, HighRiskExtensions);
    HasRiskyExtensionIff(a);
    if found.Some? {
      total := total + 20;
      breakdown := breakdown + [Entry(20, HighRiskExtension(fn, found.value))];
    } else {
      assert breakdown == breakdown0 + [];
    }
  }

  /** The per-attachment loop: each attachment in order, scored by its extension. */
  method ScoreExtensions(atts: seq<Attachment>, total0: int, breakdown0: seq<Entry>)
    returns (total: int, breakdown: seq<Entry>)
    ensures breakdown == breakdown0 + ExtensionEntries(atts)
    ensures total == total0 + 20 * RiskyAttachmentCount(atts)
  {
    total, breakdown := total0, breakdown0;
    var i := 0;
    while i < |atts|
      invariant i <= |atts|
      invariant breakdown == breakdown0 + ExtensionEntries(atts[..i])
      invariant total == total0 + 20 * RiskyAttachmentCount(atts[..i])
    {
      total, breakdown := ScoreExtension(atts[i], total, breakdown);
      ExtensionEntriesSnoc(atts, i);
      i := i + 1;
    }
    assert atts[..i] == atts;
  }

  /**
   * The attachment rules: +10 when there are attachments, then for each
   * attachment in order the extensions are tried until one matches its
   * lower-cased file name, which earns +20.
   */
  method ScoreAttachments(ind: IndicatorSet, total0: int, breakdown0: seq<Entry>)
    returns (total: int, breakdown: seq<Entry>)
    ensures breakdown == breakdown0 + AttachmentRule(ind)
    ensures total == total0 + AttachmentPoints(ind)
  {
    total, breakdown := total0, breakdown0;
    var atts := ind.attachments;
    if |atts| > 0 {
      total := total + 10;
      breakdown := breakdown + [Entry(10, ContainsAttachments(|atts|))];
      total, breakdown := ScoreExtensions(atts, total, breakdown);
    } else {
      assert breakdown == breakdown0 + [];
    }
  }

  /**
   * `score_email`: the breakdown lists every triggered rule in order with its
   * true points; the total is their sum clamped to 0..100; the risk label is
   * a function of the total.
   */
  method ScoreEmail(ind: IndicatorSet) returns (result: ScoreResult)
    ensures result.breakdown == Breakdown(ind)
    ensures result.total == Clamp(Sum(Breakdown(ind)))
    ensures 0 <= result.total <= 100
    ensures result.risk == RiskLabel(result.total)
  {
    var total, breakdown := ScoreSender(ind, 0, []);
    assert breakdown == MismatchRule(ind);
    total, breakdown := ScoreAuth(ind, total, breakdown);
    total, breakdown := ScoreUrls(ind, total, breakdown);
    total, breakdown := ScoreAttachments(ind, total, breakdown);
    BreakdownSum(ind);
    assert breakdown == Breakdown(ind) && total == Sum(breakdown);
    total := Clamp(total);
    result := ScoreResult(total, RiskLabel(total), breakdown);
  }

  // ---------------------------------------------------------------------------
  // Properties of the breakdown
  // ---------------------------------------------------------------------------

  lemma {:induction false} SumConcat(a: seq<Entry>, b: seq<Entry>)
    ensures Sum(a + b) == Sum(a) + Sum(b)
    decreases |b|
  {
    if |b| == 0 {
      assert a + b == a;
    } else {
      assert (a + b)[..|a + b| - 1] == a + b[..|b| - 1];
      SumConcat(a, b[..|b| - 1]);
    }
  }

  /** The sum of strictly positive points is positive exactly when there is an entry. */
  lemma {:induction false} SumPositive(entries: seq<Entry>)
    requires forall k :: 0 <= k < |entries| ==> entries[k].points > 0
    ensures Sum(entries) >= 0
    ensures Sum(entries) == 0 <==> entries == []
  {
    if |entries| > 0 {
      SumPositive(entries[..|entries| - 1]);
    }
  }

  predicate AllPositive(b: seq<Entry>) {
    forall k :: 0 <= k < |b| ==> b[k].points > 0
  }

  lemma PositiveConcat(a: seq<Entry>, b: seq<Entry>)
    requires AllPositive(a) && AllPositive(b)
    ensures AllPositive(a + b)
  {
    forall k | 0 <= k < |a + b| ensures (a + b)[k].points > 0 {
      if k < |a| {
        assert (a + b)[k] == a[k];
      } else {
        assert (a + b)[k] == b[k - |a|];
      }
    }
  }

  /** Every rule awards strictly positive points. */
  lemma RulesPositive(ind: IndicatorSet)
    ensures AllPositive(MismatchRule(ind)) && AllPositive(SpfRule(ind)) && AllPositive(DkimRule(ind))
    ensures AllPositive(DmarcRule(ind)) && AllPositive(UrlRule(ind)) && AllPositive(RiskyTldRule(ind))
    ensures AllPositive(PunycodeRule(ind)) && AllPositive(AttachmentRule(ind))
  {
    if |ind.attachments| > 0 {
      ExtensionEntriesCount(ind.attachments);
      PositiveConcat([Entry(10, ContainsAttachments(|ind.attachments|))], ExtensionEntries(ind.attachments));
    }
  }

  /** Positivity of eight stretches carries over to their concatenation. */
  lemma PositiveConcatAll(m: seq<Entry>, s: seq<Entry>, k: seq<Entry>, d: seq<Entry>,
                          u: seq<Entry>, r: seq<Entry>, p: seq<Entry>, a: seq<Entry>)
    requires AllPositive(m) && AllPositive(s) && AllPositive(k) && AllPositive(d)
    requires AllPositive(u) && AllPositive(r) && AllPositive(p) && AllPositive(a)
    ensures AllPositive(m + s + k + d + u + r + p + a)
  {
    PositiveConcat(m, s);
    PositiveConcat(m + s, k);
    PositiveConcat(m + s + k, d);
    PositiveConcat(m + s + k + d, u);
    PositiveConcat(m + s + k + d + u, r);
    PositiveConcat(m + s + k + d + u + r, p);
    PositiveConcat(m + s + k + d + u + r + p, a);
  }

  /** Every entry of the breakdown awards strictly positive points. */
  lemma BreakdownPositive(ind: IndicatorSet)
    ensures forall k :: 0 <= k < |Breakdown(ind)| ==> Breakdown(ind)[k].points > 0
  {
    RulesPositive(ind);
    PositiveConcatAll(MismatchRule(ind), SpfRule(ind), DkimRule(ind), DmarcRule(ind),
                      UrlRule(ind), RiskyTldRule(ind), PunycodeRule(ind), AttachmentRule(ind));
    assert AllPositive(Breakdown(ind));
  }

  /**
   * The reported total is the breakdown's sum capped at 100; it is 0 exactly
   * when nothing was awarded, and then the risk is Low.
   */
  lemma TotalFromBreakdown(ind: IndicatorSet)
    ensures Sum(Breakdown(ind)) >= 0
    ensures Clamp(Sum(Breakdown(ind))) == Min(100, Sum(Breakdown(ind)))
    ensures Clamp(Sum(Breakdown(ind))) == 0 <==> Breakdown(ind) == []
    ensures Breakdown(ind) == [] ==> RiskLabel(Clamp(Sum(Breakdown(ind)))) == Low
  {
    BreakdownPositive(ind);
    SumPositive(Breakdown(ind));
  }

  function Flag(b: bool, points: nat): nat {
    if b then points else 0
  }

  function SenderPoints(ind: IndicatorSet): nat {
    Flag(ind.fromReplyToMismatch, 25)
  }

  function AuthPoints(ind: IndicatorSet): nat {
    Flag(Lower(ind.auth.spf) in SpfFailures, 20) +
    Flag(Lower(ind.auth.dkim) in DkimFailures, 20) +
    Flag(Lower(ind.auth.dmarc) == "fail", 20)
  }

  function UrlPoints(ind: IndicatorSet): nat {
    Flag(|ind.urlDetails| > 0, 5) +
    Flag(RiskyCount(ind.urlDetails) > 0, RiskyTldPoints(RiskyCount(ind.urlDetails))) +
    Flag(PunycodeCount(ind.urlDetails) > 0, PunycodePoints(PunycodeCount(ind.urlDetails)))
  }

  function AttachmentPoints(ind: IndicatorSet): nat {
    Flag(|ind.attachments| > 0, 10 + 20 * RiskyAttachmentCount(ind.attachments))
  }

  /** The unclamped score as a formula over the indicators, stage by stage. */
  function RawScore(ind: IndicatorSet): int {
    SenderPoints(ind) + AuthPoints(ind) + UrlPoints(ind) + AttachmentPoints(ind)
  }

  lemma {:induction false} ExtensionEntriesSum(atts: seq<Attachment>)
    ensures Sum(ExtensionEntries(atts)) == 20 * RiskyAttachmentCount(atts)
  {
    if |atts| > 0 {
      var init := atts[..|atts| - 1];
      ExtensionEntriesSum(init);
      SumConcat(ExtensionEntries(init), ExtensionEntry(atts[|atts| - 1]));
      HasRiskyExtensionIff(atts[|atts| - 1]);
    }
  }

  lemma SumSingle(e: Entry)
    ensures Sum([e]) == e.points
  {
    assert [e][..0] == [];
  }

  /** Each rule's entries add up to that rule's term of the formula. */
  lemma RuleSums(ind: IndicatorSet)
    ensures Sum(MismatchRule(ind)) == Flag(ind.fromReplyToMismatch, 25)
    ensures Sum(SpfRule(ind)) == Flag(Lower(ind.auth.spf) in SpfFailures, 20)
    ensures Sum(DkimRule(ind)) == Flag(Lower(ind.auth.dkim) in DkimFailures, 20)
    ensures Sum(DmarcRule(ind)) == Flag(Lower(ind.auth.dmarc) == "fail", 20)
    ensures Sum(UrlRule(ind)) == Flag(|ind.urlDetails| > 0, 5)
    ensures Sum(RiskyTldRule(ind)) ==
      Flag(RiskyCount(ind.urlDetails) > 0, RiskyTldPoints(RiskyCount(ind.urlDetails)))
    ensures Sum(PunycodeRule(ind)) ==
      Flag(PunycodeCount(ind.urlDetails) > 0, PunycodePoints(PunycodeCount(ind.urlDetails)))
    ensures Sum(AttachmentRule(ind)) ==
      Flag(|ind.attachments| > 0, 10 + 20 * RiskyAttachmentCount(ind.attachments))
  {
    SumSingle(Entry(25, ReplyToMismatch));
    SumSingle(Entry(20, SpfFailure(Lower(ind.auth.spf))));
    SumSingle(Entry(20, DkimFailure(Lower(ind.auth.dkim))));
    SumSingle(Entry(20, DmarcFailure));
    SumSingle(Entry(5, ContainsUrls(|ind.urlDetails|)));
    var rk, pk := RiskyCount(ind.urlDetails), PunycodeCount(ind.urlDetails);
    SumSingle(Entry(RiskyTldPoints(rk), RiskyTldUrls(rk)));
    SumSingle(Entry(PunycodePoints(pk), PunycodeUrls(pk)));
    if |ind.attachments| > 0 {
      var head := Entry(10, ContainsAttachments(|ind.attachments|));
      SumSingle(head);
      SumConcat([head], ExtensionEntries(ind.attachments));
      ExtensionEntriesSum(ind.attachments);
    }
  }

  /** The breakdown's points add up to the rule-by-rule formula. */
  lemma BreakdownSum(ind: IndicatorSet)
    ensures Sum(Breakdown(ind)) == RawScore(ind)
  {
    RuleSums(ind);
    var m, s, k, d := MismatchRule(ind), SpfRule(ind), DkimRule(ind), DmarcRule(ind);
    var u, r, p, a := UrlRule(ind), RiskyTldRule(ind), PunycodeRule(ind), AttachmentRule(ind);
    SumConcat(m, s);
    SumConcat(m + s, k);
    SumConcat(m + s + k, d);
    SumConcat(m + s + k + d, u);
    SumConcat(m + s + k + d + u, r);
    SumConcat(m + s + k + d + u + r, p);
    SumConcat(m + s + k + d + u + r + p, a);
  }

  /** The position of each rule in the evaluation order. */
  function Rank(r: Reason): nat {
    match r
    case ReplyToMismatch => 0
    case SpfFailure(_) => 1
    case DkimFailure(_) => 2
    case DmarcFailure => 3
    case ContainsUrls(_) => 4
    case RiskyTldUrls(_) => 5
    case PunycodeUrls(_) => 6
    case ContainsAttachments(_) => 7
    case HighRiskExtension(_, _) => 8
  }

  /**
   * Entries appear in rule order, and every rule but the per-attachment
   * extension rule contributes at most one entry.
   */
  predicate InRuleOrder(b: seq<Entry>) {
    forall i, j :: 0 <= i < j < |b| ==>
      Rank(b[i].reason) < Rank(b[j].reason) || (Rank(b[i].reason) == 8 && Rank(b[j].reason) == 8)
  }

  predicate AllOfRank(b: seq<Entry>, r: nat) {
    forall k :: 0 <= k < |b| ==> Rank(b[k].reason) == r
  }

  predicate RanksBelow(b: seq<Entry>, r: nat) {
    forall k :: 0 <= k < |b| ==> Rank(b[k].reason) < r
  }

  lemma AppendRule(a: seq<Entry>, seg: seq<Entry>, r: nat)
    requires InRuleOrder(a) && RanksBelow(a, r)
    requires AllOfRank(seg, r) && (|seg| <= 1 || r == 8)
    ensures InRuleOrder(a + seg) && RanksBelow(a + seg, r + 1)
  {
    var b := a + seg;
    forall i, j | 0 <= i < j < |b|
      ensures Rank(b[i].reason) < Rank(b[j].reason) || (Rank(b[i].reason) == 8 && Rank(b[j].reason) == 8)
    {
      if j < |a| {
        assert b[i] == a[i] && b[j] == a[j];
      } else if i < |a| {
        assert b[i] == a[i] && b[j] == seg[j - |a|];
      } else {
        assert b[i] == seg[i - |a|] && b[j] == seg[j - |a|];
      }
    }
  }

  lemma {:induction false} ExtensionEntriesRank(atts: seq<Attachment>)
    ensures AllOfRank(ExtensionEntries(atts), 8)
  {
    var es := ExtensionEntries(atts);
    ExtensionEntriesCount(atts);
    forall k | 0 <= k < |es| ensures Rank(es[k].reason) == 8 {
      assert es[k].reason.HighRiskExtension?;
    }
  }

  /** The rank and size of each single-entry rule's contribution. */
  lemma RuleRanks(ind: IndicatorSet)
    ensures AllOfRank(MismatchRule(ind), 0) && |MismatchRule(ind)| <= 1
    ensures AllOfRank(SpfRule(ind), 1) && |SpfRule(ind)| <= 1
    ensures AllOfRank(DkimRule(ind), 2) && |DkimRule(ind)| <= 1
    ensures AllOfRank(DmarcRule(ind), 3) && |DmarcRule(ind)| <= 1
    ensures AllOfRank(UrlRule(ind), 4) && |UrlRule(ind)| <= 1
    ensures AllOfRank(RiskyTldRule(ind), 5) && |RiskyTldRule(ind)| <= 1
    ensures AllOfRank(PunycodeRule(ind), 6) && |PunycodeRule(ind)| <= 1
  {
  }

  /** The authentication part of the breakdown is in rule order. */
  lemma AuthInRuleOrder(ind: IndicatorSet)
    ensures InRuleOrder(MismatchRule(ind) + SpfRule(ind) + DkimRule(ind) + DmarcRule(ind))
    ensures RanksBelow(MismatchRule(ind) + SpfRule(ind) + DkimRule(ind) + DmarcRule(ind), 4)
  {
    RuleRanks(ind);
    var m, s, k, d := MismatchRule(ind), SpfRule(ind), DkimRule(ind), DmarcRule(ind);
    AppendRule([], m, 0);
    assert [] + m == m;
    AppendRule(m, s, 1);
    AppendRule(m + s, k, 2);
    AppendRule(m + s + k, d, 3);
  }

  /** Everything before the attachment rule is in rule order. */
  lemma UrlsInRuleOrder(ind: IndicatorSet)
    ensures InRuleOrder(MismatchRule(ind) + SpfRule(ind) + DkimRule(ind) + DmarcRule(ind) +
                        UrlRule(ind) + RiskyTldRule(ind) + PunycodeRule(ind))
    ensures RanksBelow(MismatchRule(ind) + SpfRule(ind) + DkimRule(ind) + DmarcRule(ind) +
                       UrlRule(ind) + RiskyTldRule(ind) + PunycodeRule(ind), 7)
  {
    RuleRanks(ind);
    AuthInRuleOrder(ind);
    var auth := MismatchRule(ind) + SpfRule(ind) + DkimRule(ind) + DmarcRule(ind);
    var u, r, p := UrlRule(ind), RiskyTldRule(ind), PunycodeRule(ind);
    AppendRule(auth, u, 4);
    AppendRule(auth + u, r, 5);
    AppendRule(auth + u + r, p, 6);
  }

  /** The attachment rule's entries can follow anything ranked before it. */
  lemma AppendAttachmentRule(before: seq<Entry>, ind: IndicatorSet)
    requires InRuleOrder(before) && RanksBelow(before, 7)
    ensures InRuleOrder(before + AttachmentRule(ind))
  {
    if |ind.attachments| > 0 {
      var head := [Entry(10, ContainsAttachments(|ind.attachments|))];
      var tail := ExtensionEntries(ind.attachments);
      AppendRule(before, head, 7);
      ExtensionEntriesRank(ind.attachments);
      AppendRule(before + head, tail, 8);
      assert before + AttachmentRule(ind) == before + head + tail;
    } else {
      assert before + AttachmentRule(ind) == before;
    }
  }

  /** The breakdown follows the fixed rule order. */
  lemma BreakdownInRuleOrder(ind: IndicatorSet)
    ensures InRuleOrder(Breakdown(ind))
  {
    UrlsInRuleOrder(ind);
    var before := MismatchRule(ind) + SpfRule(ind) + DkimRule(ind) + DmarcRule(ind) +
                  UrlRule(ind) + RiskyTldRule(ind) + PunycodeRule(ind);
    AppendAttachmentRule(before, ind);
  }

  // ---------------------------------------------------------------------------
  // End-to-end scenarios
  // ---------------------------------------------------------------------------

  /** The sender pair of the mismatch scenario: `a@example.com` replying to `b@evil.com`. */
  lemma ScenarioMismatchAddresses()
    ensures EmailDomain("a" + "@" + "example.com") == "example.com"
    ensures EmailDomain("b" + "@" + "evil.com") == "evil.com"
    ensures Mismatch(EmailDomain("a" + "@" + "example.com"), EmailDomain("b" + "@" + "evil.com"))
  {
    var d1, d2 := "example.com", "evil.com";
    assert forall i :: 0 <= i < |d1| ==> !IsUpper(d1[i]);
    assert forall i :: 0 <= i < |d2| ==> !IsUpper(d2[i]);
    assert '@' !in "a" && '@' !in "b";
    EmailDomainOfAddress("a", d1);
    EmailDomainOfAddress("b", d2);
  }

  /** A reply-to mismatch alone scores 25, Low. */
  lemma ScenarioMismatchOnly(ind: IndicatorSet)
    requires ind.fromReplyToMismatch
    requires ind.auth.spf == "" && ind.auth.dkim == "" && ind.auth.dmarc == ""
    requires ind.urlDetails == [] && ind.attachments == []
    ensures Breakdown(ind) == [Entry(25, ReplyToMismatch)]
    ensures Clamp(Sum(Breakdown(ind))) == 25 && RiskLabel(25) == Low
  {
    assert Breakdown(ind) == [Entry(25, ReplyToMismatch)];
    assert Sum([Entry(25, ReplyToMismatch)]) == 25;
  }

  /** SPF and DMARC failures with one punycode URL score 53, Medium. */
  lemma ScenarioAuthFailuresAndPunycode(ind: IndicatorSet, url: UrlDetail)
    requires !ind.fromReplyToMismatch
    requires ind.auth.spf == "fail" && ind.auth.dkim == "pass" && ind.auth.dmarc == "fail"
    requires ind.urlDetails == [url] && url.punycode && !url.riskyTld
    requires ind.attachments == []
    ensures RawScore(ind) == 53
    ensures Clamp(Sum(Breakdown(ind))) == 53 && RiskLabel(53) == Medium
  {
    assert [url][..0] == [];
    assert Lower("fail") == "fail";
    assert Lower("pass") == "pass";
    BreakdownSum(ind);
  }

  /** An upper-case `.EXE` file name is still a high-risk attachment. */
  lemma UpperCaseExeIsRisky(a: Attachment)
    requires a.filename == "invoice.EXE"
    ensures RiskyAttachmentCount([a]) == 1
  {
    var fn := Lower(a.filename);
    assert fn[8] == 'e' && fn[9] == 'x' && fn[10] == 'e';
    assert fn[|fn| - 4..] == ".exe";
    assert EndsWith(fn, HighRiskExtensions[0]);
    assert HasRiskyExtension(a);
    assert [a][..0] == [];
  }

  /** Two risky-TLD URLs and an `invoice.EXE` attachment score 45, Medium. */
  lemma ScenarioRiskyAttachment(ind: IndicatorSet, u1: UrlDetail, u2: UrlDetail)
    requires !ind.fromReplyToMismatch
    requires ind.auth.spf == "" && ind.auth.dkim == "" && ind.auth.dmarc == ""
    requires ind.urlDetails == [u1, u2] && u1.riskyTld && u2.riskyTld && !u1.punycode && !u2.punycode
    requires ind.attachments == [Attachment("invoice.EXE", "application/octet-stream", 1024)]
    ensures RawScore(ind) == 45
    ensures Clamp(Sum(Breakdown(ind))) == 45 && RiskLabel(45) == Medium
  {
    UpperCaseExeIsRisky(ind.attachments[0]);
    assert ind.attachments == [ind.attachments[0]];
    assert [u1, u2][..1] == [u1] && [u1][..0] == [];
    assert RiskyCount(ind.urlDetails) == 2 && PunycodeCount(ind.urlDetails) == 0;
    BreakdownSum(ind);
  }

  /** No signal at all: total 0, risk Low, empty breakdown. */
  lemma ScenarioClean(ind: IndicatorSet)
    requires !ind.fromReplyToMismatch
    requires ind.auth.spf == "" && ind.auth.dkim == "" && ind.auth.dmarc == ""
    requires ind.urlDetails == [] && ind.attachments == []
    ensures Breakdown(ind) == []
    ensures Clamp(Sum(Breakdown(ind))) == 0 && RiskLabel(0) == Low
  {
  }
}
