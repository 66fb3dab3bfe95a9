# phish_triage core in Dafny

This project models the decision logic of `phish_triage`, a tool that turns
one email message into an explainable phishing-risk assessment. The logic
runs in three stages:

- **Message normaliser** (`parser.dfy`, module `Parser`). It turns a parsed
  message into a flat record:
  - the allow-listed headers, each the first occurrence of its name (compared
    without case), stripped;
  - a map from every header name to all of its values joined by line breaks;
  - the text and HTML bodies, made from the non-blank parts, stripped and
    joined by a blank line;
  - the attachment metadata.
- **Indicator extractor** (`indicators.dfy`, module `Indicators`). It derives
  the signals from that record:
  - the From and Reply-To domains and whether they mismatch;
  - the SPF, DKIM and DMARC verdicts found in the Authentication-Results
    (RFC 8601) and Received-SPF (section 9.1 of RFC 7208) headers;
  - one record per URL: its domain, top-level domain, punycode flag, display
    domain and risky-TLD flag.
- **Risk scorer** (`scoring.dfy`, module `Scoring`). It applies nine additive
  rules in a fixed order (sender mismatch, SPF, DKIM, DMARC, URL presence,
  risky TLDs, punycode, attachment presence, and one rule per risky
  attachment):
  - each triggered rule appends an entry (points, reason) to the breakdown;
  - the total is the sum of those points, clamped to 0..100;
  - the total is mapped to a Low, Medium or High label.

Two small support modules sit beside these:

- `text.dfy` (`Text`) models the Python string operations the code relies on:
  `lower`, `strip`, `startswith`, `endswith`, `split` on one character, and
  `join`.
- `wrappers.dfy` (`Wrappers`) holds the `Option` type.

The normaliser, the extractor's URL loop and the scorer are written in the
source as loops over accumulators. Here they are methods with loop
invariants, and each is proved equal to a specification function:

- `ChunksOf` and `AttachmentsOf` for the part walk;
- `ValuesOf` and `Names` for the header map;
- `ClassifyUrl` for the URL loop;
- `Breakdown` and the points formula `RawScore` for the scorer.

The properties are then proved about those functions:

- the total equals the breakdown's sum;
- every entry has positive points;
- the breakdown is in rule order;
- at most one extension award is made per attachment;
- the punycode test reads labels and positions alike;
- `join(split)` round-trips.

Two behaviours of the code are worth knowing:

- **URLs.** `parse_eml` never fills `urls` (`phish_triage/parser.py:102`), so
  the URL rules only ever see an empty list from it. `Parser.ParseEml`
  states that the list is empty.
- **Domain stripping.** `strip(" >")` removes spaces and `>` from both ends of
  a sender domain, not only from its end (`phish_triage/indicators.py:11`).
  `Indicators.EmailDomain` does the same.

## Model

| member | source | states |
|---|---|---|
| Scoring.RiskLabel | phish_triage/scoring.py:1-6 | High exactly when the score is at least 70, Medium exactly when it is in 40..69, Low exactly when it is below 40 |
| Scoring.RiskLabelMonotone | phish_triage/scoring.py:1-6 | a higher score never receives a lower label |
| Scoring.ScoreEmail | phish_triage/scoring.py:9-75 | the breakdown is every triggered rule in evaluation order; the total is the breakdown's sum clamped to 0..100; the risk is the label of that total |
| Scoring.ScoreSender | phish_triage/scoring.py:16-19 | appends the 25-point mismatch entry exactly when the mismatch flag is set and adds those points to the running total |
| Scoring.ScoreAuth | phish_triage/scoring.py:21-37 | appends the SPF, DKIM and DMARC entries, in that order, for the failure verdicts compared without case, and adds 20 per failure |
| Scoring.ScoreUrls | phish_triage/scoring.py:39-55 | appends the URL-presence (5), risky-TLD (5 each, at most 15) and punycode (8 each, at most 15) entries, each only when its count is positive, and adds their points |
| Scoring.MatchExtension | phish_triage/scoring.py:68-72 | the inner loop stops at, and returns, the first extension that the file name ends with |
| Scoring.ScoreExtension | phish_triage/scoring.py:67-72 | one attachment earns one 20-point entry naming its lower-cased file name exactly when that name ends with a high-risk extension |
| Scoring.ScoreExtensions | phish_triage/scoring.py:66-72 | the per-attachment loop appends the extension entries in attachment order and adds 20 per risky attachment |
| Scoring.ScoreAttachments | phish_triage/scoring.py:58-72 | with attachments present: a 10-point presence entry, then the per-attachment entries; with none: nothing |
| Scoring.UrlPointsCapped | phish_triage/scoring.py:45-55 | the risky-TLD and punycode contributions grow with the count, are positive for any positive count and never exceed 15; 3 risky URLs or 2 punycode URLs already reach 15 |
| Scoring.FirstExtensionSpec | phish_triage/scoring.py:68-72 | the extension search finds a listed extension that the name ends with, and finds none only when the name ends with none of them |
| Scoring.ExtensionAtLastDot | phish_triage/scoring.py:69 | a dot-led extension without another dot that a name ends with begins at the name's last dot |
| Scoring.HighRiskExtensionsWellFormed | phish_triage/scoring.py:65 | every high-risk extension is a dot followed by dot-free text |
| Scoring.AtMostOneExtension | phish_triage/scoring.py:65-72 | no file name ends with two different high-risk extensions, so `break` never changes the count |
| Scoring.ExtensionOrderIrrelevant | phish_triage/scoring.py:65-72 | any order of iterating the extension set reports the same extension |
| Scoring.HasRiskyExtensionIff | phish_triage/scoring.py:67-72 | the search finds an extension exactly when the lower-cased name ends with one of the set |
| Scoring.ExtensionEntryShape | phish_triage/scoring.py:66-72 | one attachment contributes one 20-point extension entry if its name is risky and none otherwise; that entry names the lower-cased file name and a listed extension the name ends with |
| Scoring.ExtensionEntriesCount | phish_triage/scoring.py:66-72 | exactly one 20-point extension entry per risky attachment, never more than one per attachment |
| Scoring.ExtensionEntriesSum | phish_triage/scoring.py:66-72 | the extension entries add up to 20 times the number of risky attachments |
| Scoring.RulesPositive | phish_triage/scoring.py:16-72 | every rule's entries carry strictly positive points |
| Scoring.BreakdownPositive | phish_triage/scoring.py:13-72 | every breakdown entry carries strictly positive points |
| Scoring.RuleSums | phish_triage/scoring.py:16-72 | each rule's entries add up to the points that rule adds to the running total |
| Scoring.BreakdownSum | phish_triage/scoring.py:13-72 | the breakdown's points add up to the unclamped running total |
| Scoring.TotalFromBreakdown | phish_triage/scoring.py:74-75 | the unclamped total is never negative, the clamp is a cap at 100, the total is 0 exactly when the breakdown is empty, and then the risk is Low |
| Scoring.BreakdownInRuleOrder | phish_triage/scoring.py:13-72 | the breakdown lists rules in evaluation order, with at most one entry per rule except the per-attachment extension rule |
| Scoring.FirstExtension | phish_triage/scoring.py:68-72 | the first extension of the list, in listed order, that the file name ends with, or none |
| Scoring.Breakdown | phish_triage/scoring.py:13-72 | the entries of the triggered rules concatenated in evaluation order: mismatch, SPF, DKIM, DMARC, URL presence, risky TLDs, punycode, then attachments |
| Scoring.Clamp | phish_triage/scoring.py:74 | the result lies in 0..100; a value inside the range is kept, a negative one becomes 0 and one above 100 becomes 100 |
| Scoring.ScenarioMismatchAddresses | phish_triage/indicators.py:8-12 | `a@example.com` and `b@evil.com` give the domains `example.com` and `evil.com`, and these mismatch |
| Scoring.ScenarioMismatchOnly | phish_triage/scoring.py:9-75 | a reply-to mismatch alone gives one entry, total 25, risk Low |
| Scoring.ScenarioAuthFailuresAndPunycode | phish_triage/scoring.py:9-75 | SPF fail, DMARC fail and one punycode URL give total 53, risk Medium |
| Scoring.UpperCaseExeIsRisky | phish_triage/scoring.py:67-72 | `invoice.EXE` is a risky attachment: the extension test ignores case |
| Scoring.ScenarioRiskyAttachment | phish_triage/scoring.py:9-75 | two risky-TLD URLs and an `invoice.EXE` attachment give total 45, risk Medium |
| Scoring.ScenarioClean | phish_triage/scoring.py:9-75 | no signal gives an empty breakdown, total 0, risk Low |
| Indicators.EmailDomain | phish_triage/indicators.py:8-12 | empty without an `@`; otherwise the lower-cased text after the first `@` with only its leading and trailing spaces and `>` removed: free of upper-case letters, neither starting nor ending with a space or `>`, and empty exactly when that text is all spaces and `>` |
| Indicators.EmailDomainOfAddress | phish_triage/indicators.py:8-12 | round trip: the domain of `local@domain` is `domain` when the local part has no `@` and the domain is lower-case and trimmed |
| Indicators.MismatchProperties | phish_triage/indicators.py:57 | the mismatch flag is symmetric, false when either domain is empty, and true only for different domains |
| Indicators.DomainFromUrl | phish_triage/indicators.py:15-19 | the lower-cased host name when there is one, "" otherwise; never holds an upper-case letter |
| Indicators.Mismatch | phish_triage/indicators.py:57 | true exactly when both domains are non-empty and differ |
| Indicators.IsPunycode | phish_triage/indicators.py:27-28 | some "."-separated label of the domain starts with `xn--` |
| Indicators.Tld | phish_triage/indicators.py:22-24 | empty for a domain without a dot; otherwise the lower-cased text after the last dot, which never contains a dot |
| Indicators.PunycodeLabels | phish_triage/indicators.py:27-28 | a domain is punycode exactly when the part before its last dot is, or its last label starts with `xn--` |
| Indicators.PunycodeIff | phish_triage/indicators.py:27-28 | the label test agrees with a position test: `xn--` at the start of the domain or right after a dot |
| Indicators.AsciiOnly | phish_triage/indicators.py:33 | only code points below 128 remain; all-ASCII text is kept whole and all-non-ASCII text becomes empty |
| Indicators.AsciiOnlyConcat | phish_triage/indicators.py:33 | dropping non-ASCII characters works piece by piece, so the ASCII characters are kept in order |
| Indicators.DecodeIdna | phish_triage/indicators.py:31-35 | the decoded text of the ASCII characters when decoding succeeds; the domain unchanged when it fails |
| Indicators.ClassifyUrl | phish_triage/indicators.py:62-73 | the record keeps the URL and no age; the domain is the host name; the TLD is `Tld` of that domain; risky-TLD holds exactly when the TLD is non-empty and listed, and then the domain has a dot; punycode holds exactly when `xn--` starts a label; the display domain is the IDNA decode of a punycode domain and the domain itself otherwise |
| Indicators.FirstAlternative | phish_triage/indicators.py:46-48 | an alternative of the group that matches with a trailing word boundary, or none only when no alternative matches |
| Indicators.FirstAlternativeIsFirst | phish_triage/indicators.py:46-48 | the alternative found is the first listed one that matches: none listed before it matches |
| Indicators.MatchAt | phish_triage/indicators.py:41-48 | a capture at a position is a listed token, with a word boundary before the key and after the token; no capture only when the boundary or the key is missing there or no token follows with a boundary |
| Indicators.SearchFrom | phish_triage/indicators.py:42 | a reported match lies at or after the start position and the pattern matches there with that capture |
| Indicators.SearchFromLeftmost | phish_triage/indicators.py:42 | the search reports the leftmost match and fails only when no position matches |
| Indicators.Pick | phish_triage/indicators.py:41-43 | the result is "" or a token of the pattern's vocabulary; "" when nothing matches; the capture of the leftmost match whenever there is one |
| Indicators.PickCaptures | phish_triage/indicators.py:41-43 | with "" outside the vocabulary, the result is "" exactly when nothing matches, and otherwise the capture of the leftmost match |
| Indicators.LeftmostUnique | phish_triage/indicators.py:42 | there is only one leftmost match: its position and capture are unique |
| Indicators.AlternativesExclusive | phish_triage/indicators.py:46-48 | two different word-character tokens never both match at one position |
| Indicators.OnlyMatchCaptured | phish_triage/indicators.py:46-48 | in a vocabulary of word-character tokens, whichever token matches is the one captured |
| Indicators.AuthVocabulariesWellFormed | phish_triage/indicators.py:46-48 | every SPF, DKIM and DMARC token is a non-empty run of word characters |
| Indicators.AuthCaptureOrderIrrelevant | phish_triage/indicators.py:46-48 | for each of the three verdict patterns, a token that matches at a position is the one captured there, so the order of the alternatives does not matter |
| Indicators.AuthBlob | phish_triage/indicators.py:39 | the two header values joined by a space, stripped, then lower-cased |
| Indicators.ExtractAuth | phish_triage/indicators.py:38-50 | each verdict is "" or a token of its own vocabulary; `raw` is the first header, followed by a line break and the second only when the second is non-empty |
| Indicators.ExtractAuthCaptures | phish_triage/indicators.py:39-48 | each verdict is what its pattern captures in the lower-cased, stripped header blob: "" exactly when the pattern matches nowhere, otherwise the token of the leftmost match |
| Indicators.ClassifyAll | phish_triage/indicators.py:60-73 | one classification record per URL, in input order |
| Indicators.ClassifyEachIndex | phish_triage/indicators.py:60-73 | the appended records number the URLs, and record `i` classifies URL `i` |
| Indicators.ComputeIndicators | phish_triage/indicators.py:53-82 | both sender domains; mismatch exactly when both are non-empty and differ; the authentication verdicts; one record per URL, in order, keeping the URL and no age; the attachments unchanged |
| Parser.FirstHeaderIndex | phish_triage/parser.py:9 | the position of the first header whose name matches without case, or none when no header matches |
| Parser.GetHeader | phish_triage/parser.py:8-10 | "" when no header matches; otherwise the first matching header's value stripped; never starts or ends with whitespace |
| Parser.CollectHeaders | phish_triage/parser.py:13-20 | one key per distinct header name, mapped to all of that name's values joined by line breaks in transport order; a name seen once keeps its value |
| Parser.CollectStep | phish_triage/parser.py:15-19 | appending to an existing key, or creating a new key, keeps the map equal to the joined values of the headers seen so far |
| Parser.ValuesOfNonEmpty | phish_triage/parser.py:13-20 | a name is a key exactly when at least one header has that name |
| Parser.RoleOf | phish_triage/parser.py:35-59 | a part's role in the walk: container, attachment (a filename or an `attachment` disposition), text/plain chunk, text/html chunk, or dropped |
| Parser.AttachmentOf | phish_triage/parser.py:41-47 | the record keeps a non-empty file name or uses `(no-filename)`, and keeps the content type and the decoded payload size |
| Parser.PartContribution | phish_triage/parser.py:33-59 | a container contributes nothing; an attachment contributes only its record; a text/plain or text/html leaf contributes only to its own body; anything else contributes nothing |
| Parser.WalkCounts | phish_triage/parser.py:33-59 | the two bodies' chunks and the attachments together number at most the walked parts |
| Parser.ChunksConcat | phish_triage/parser.py:33-59 | walk order is kept: the chunks of two stretches of parts concatenate |
| Parser.AttachmentsConcat | phish_triage/parser.py:33-59 | walk order is kept: the attachments of two stretches of parts concatenate |
| Parser.NonBlank | phish_triage/parser.py:73-74 | at most one entry per chunk, each non-empty and neither starting nor ending with whitespace |
| Parser.NonBlankOne | phish_triage/parser.py:73-74 | one chunk is kept, stripped, exactly when it is not blank |
| Parser.NonBlankConcat | phish_triage/parser.py:73-74 | the kept chunks of two stretches concatenate, so chunks stay in order |
| Parser.BodyOf | phish_triage/parser.py:73-74 | the non-blank chunks, stripped, joined by a blank line |
| Parser.BodyEmptyIff | phish_triage/parser.py:73-74 | a body is empty exactly when every chunk is blank |
| Parser.BodyTrimmed | phish_triage/parser.py:73-74 | a non-empty body neither starts nor ends with whitespace |
| Parser.BodyOfOne | phish_triage/parser.py:73 | a single chunk's body is that chunk stripped |
| Parser.WalkParts | phish_triage/parser.py:32-59 | the loop collects, in walk order, the text chunks, the HTML chunks and the attachment records of the walked parts |
| Parser.ExtractParts | phish_triage/parser.py:23-75 | a multipart message gives the walk's bodies and attachments; a single-part message gives no attachments and at most one non-empty body |
| Parser.ParseEml | phish_triage/parser.py:78-103 | the ten allow-listed headers looked up by name, the header map, both bodies of a multipart or a single-part message, the attachments (none for a single part) and an empty URL list |
| Text.Lower | phish_triage/scoring.py:23 | same length; each upper-case ASCII letter becomes its lower-case letter (code point + 32); every other character is unchanged |
| Text.StripSet | phish_triage/indicators.py:11 | the slice left after removing the leading and the trailing run of stripped characters: neither of its ends is stripped, and it is empty exactly when every character is stripped |
| Text.StripSetSpec | phish_triage/indicators.py:11 | everything before and after the kept slice is a stripped character |
| Text.Strip | phish_triage/parser.py:10 | the slice left after removing the leading and trailing whitespace runs: no whitespace at either end, empty exactly when the text is all whitespace |
| Text.StripSetNoop | phish_triage/indicators.py:11 | text with nothing to strip at either end is unchanged |
| Text.StripSetIdempotent | phish_triage/indicators.py:11 | stripping twice is stripping once |
| Text.FirstIndex | phish_triage/indicators.py:11 | the position of the first occurrence, where `split("@", 1)` cuts |
| Text.LastIndex | phish_triage/indicators.py:24 | the position of the last occurrence, before the last piece of a split |
| Text.Split | phish_triage/indicators.py:23 | `str.split` on one character: the pieces between separators, always at least one |
| Text.SplitManyIff | phish_triage/indicators.py:23-24 | a split has at least two pieces exactly when the separator occurs |
| Text.SplitPiecesFree | phish_triage/indicators.py:28 | no piece of a split contains the separator |
| Text.JoinSplit | phish_triage/indicators.py:23 | round trip: joining the pieces with the separator gives back the text |
| Text.SplitLast | phish_triage/indicators.py:24 | the last piece of a split is the text after the last separator |
| Text.JoinEnds | phish_triage/parser.py:73-74 | joining non-empty pieces starts with the first piece's first character and ends with the last piece's last character |

## Left out

- The report renderer and the command-line front end (`phish_triage/report.py`, `phish_triage/cli.py`) are not part of this model. They only format results.
- Reading the message file and MIME parsing are left out. A message is given as its headers in transport order and either a single-part body or the part sequence of the MIME tree walk. Each part carries its decoded text content and decoded payload length. The fallback to lossy decoding when content extraction fails is therefore not modelled.
- `email.utils.parseaddr`, the host name of `urllib.parse.urlparse` and the IDNA codec are library code. They are parameters: `parseAddr`, `hostname` and `idna`. `parseAddr` gives the address part, "" when there is none; a missing host name or a failed decode is `None`.
- `lower()`, `strip()` and the regular-expression classes `\w` and `\b` are modelled for ASCII only. Unicode case mapping, Unicode whitespace and Unicode word characters are not.
- The regular-expression engine is not modelled in general. Each pattern is modelled as the leftmost match of `\bkey(alternatives)\b`, trying the alternatives in the listed order.
- The high-risk extensions are a Python set, so their iteration order is unspecified. They are modelled as one fixed list. `Scoring.ExtensionOrderIrrelevant` shows that any other order gives the same result.
- The `parsed` argument of `score_email` is unused by the code and is not modelled.
- Breakdown reasons are a datatype holding the counts, verdicts and names that the English sentences interpolate. The sentences themselves are not modelled.
- Missing dictionary keys and `None` values are not modelled. Python's `.get(key, default) or default` fallbacks exist for these. The records here always have every field, and absent text is "".
- `str(v)` on header objects is left out. Header values are given as strings.
- URL extraction from the bodies does not exist in the code (`phish_triage/parser.py:102`), so it is not modelled. `urls` is always empty.
- Scoring.ScenarioAuthFailuresAndPunycode: starts from the indicator record rather than the raw message. The URL record is given because host-name parsing is a parameter, and the SPF, DKIM and DMARC verdicts are given directly rather than derived by `ExtractAuth` from header text.
- Scoring.ScenarioRiskyAttachment: starts from the indicator record rather than the raw message, for the same reason.
