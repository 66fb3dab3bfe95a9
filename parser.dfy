/**
 * The message normaliser's bookkeeping (phish_triage/parser.py).
 *
 * MIME parsing itself is library work: a message is given here as its list
 * of headers in transport order and, for a multipart message, the sequence
 * of parts that a depth-first walk of the MIME tree yields (the root and
 * every nested container included), each with its content type, filename,
 * disposition, decoded payload length and decoded text content.
 */
module Parser {
  import opened Wrappers
  import opened Text

  // ---------------------------------------------------------------------------
  // Input and output records
  // ---------------------------------------------------------------------------

  datatype Header = Header(name: string, value: string)

  /** One MIME part as the tree walk yields it. */
  datatype Part = Part(
    contentType: string,
    filename: Option<string>,
    disposition: Option<string>,
    payloadLength: nat,
    content: string)

  datatype Body =
    | Multipart(walk: seq<Part>)
    | Singlepart(contentType: string, content: string)

  datatype Message = Message(headers: seq<Header>, body: Body)

  /** Attachment metadata: the payload itself is never kept. */
  datatype Attachment = Attachment(filename: string, contentType: string, sizeBytes: nat)

  /** The normalised record `parse_eml` returns. */
  datatype ParsedEmail = ParsedEmail(
    subject: string,
    date: string,
    messageId: string,
    fromRaw: string,
    replyToRaw: string,
    returnPath: string,
    toRaw: string,
    ccRaw: string,
    authenticationResults: string,
    receivedSpf: string,
    headers: map<string, string>,
    bodyText: string,
    bodyHtml: string,
    attachments: seq<Attachment>,
    urls: seq<string>)

  const NoFilename: string := "(no-filename)"

  // ---------------------------------------------------------------------------
  // Single header lookup
  // ---------------------------------------------------------------------------

  /** Header names compare without regard to case. */
  predicate NameMatches(h: Header, name: string) {
    Lower(h.name) == Lower(name)
  }

  /** `hs[i]` is the first header called `name`. */
  predicate IsFirstMatch(hs: seq<Header>, name: string, i: nat) {
    i < |hs| && NameMatches(hs[i], name) &&
    forall j :: 0 <= j < i ==> !NameMatches(hs[j], name)
  }

  /** There is at most one first match. */
  lemma FirstMatchUnique(hs: seq<Header>, name: string, i: nat, k: nat)
    requires IsFirstMatch(hs, name, i) && IsFirstMatch(hs, name, k)
    ensures i == k
  {
  }

  /** A first match past a non-matching head is one position further on in the whole list. */
  lemma FirstMatchShift(hs: seq<Header>, name: string, i: nat)
    requires |hs| > 0 && !NameMatches(hs[0], name) && IsFirstMatch(hs[1..], name, i)
    ensures IsFirstMatch(hs, name, i + 1)
  {
    forall j | 0 < j < i + 1 ensures !NameMatches(hs[j], name) {
      assert hs[j] == hs[1..][j - 1];
    }
  }

  /** Position of the first header called `name`, if any. */
  function FirstHeaderIndex(hs: seq<Header>, name: string): (r: Option<nat>)
    ensures r.None? ==> forall i :: 0 <= i < |hs| ==> !NameMatches(hs[i], name)
    ensures r.Some? ==> IsFirstMatch(hs, name, r.value)
  {
    if |hs| == 0 then None
    else if NameMatches(hs[0], name) then Some(0)
    else
      match FirstHeaderIndex(hs[1..], name)
      case None => None
      case Some(i) =>
        FirstMatchShift(hs, name, i);
        Some(i + 1)
  }

  /**
   * `_get_header`: the first header called `name`, stripped, or "" when
   * there is none. The result never starts or ends with whitespace.
   */
  function GetHeader(hs: seq<Header>, name: string): (r: string)
    ensures (forall i :: 0 <= i < |hs| ==> !NameMatches(hs[i], name)) ==> r == ""
    ensures forall i: nat :: IsFirstMatch(hs, name, i) ==> r == Strip(hs[i].value)
    ensures r != [] ==> r[0] !in Whitespace && r[|r| - 1] !in Whitespace
  {
    match FirstHeaderIndex(hs, name)
    case None => ""
    case Some(i) =>
      assert forall k: nat :: IsFirstMatch(hs, name, k) ==> k == i by {
        forall k: nat | IsFirstMatch(hs, name, k) ensures k == i {
          FirstMatchUnique(hs, name, i, k);
        }
      }
      if hs[i].value == "" then "" else Strip(hs[i].value)
  }

  // ---------------------------------------------------------------------------
  // All headers as a map
  // ---------------------------------------------------------------------------

  /** Every header name that occurs (names compare exactly, as dict keys do). */
  function Names(hs: seq<Header>): set<string> {
    set i | 0 <= i < |hs| :: hs[i].name
  }

  /** The values of every header called exactly `name`, in transport order. */
  function ValuesOf(hs: seq<Header>, name: string): seq<string> {
    if |hs| == 0 then []
    else
      ValuesOf(hs[..|hs| - 1], name) +
      (if hs[|hs| - 1].name == name then [hs[|hs| - 1].value] else [])
  }

  /** A name occurs exactly when it has at least one value. */
  lemma {:induction false} ValuesOfNonEmpty(hs: seq<Header>, name: string)
    ensures |ValuesOf(hs, name)| > 0 <==> name in Names(hs)
  {
    if |hs| > 0 {
      var init := hs[..|hs| - 1];
      ValuesOfNonEmpty(init, name);
      assert Names(hs) == Names(init) + {hs[|hs| - 1].name} by {
        forall n | n in Names(hs) ensures n in Names(init) + {hs[|hs| - 1].name} {
          var i :| 0 <= i < |hs| && hs[i].name == n;
          if i < |hs| - 1 { assert init[i].name == n; }
        }
      }
    }
  }

  /** One more header extends its own name's values and no other's. */
  lemma ValuesOfSnoc(hs: seq<Header>, i: nat, name: string)
    requires i < |hs|
    ensures ValuesOf(hs[..i + 1], name) ==
      ValuesOf(hs[..i], name) + (if hs[i].name == name then [hs[i].value] else [])
  {
    assert hs[..i + 1][..i] == hs[..i];
  }

  lemma NamesSnoc(hs: seq<Header>, i: nat)
    requires i < |hs|
    ensures Names(hs[..i + 1]) == Names(hs[..i]) + {hs[i].name}
  {
    var before, after := hs[..i], hs[..i + 1];
    forall n | n in Names(after) ensures n in Names(before) + {hs[i].name} {
      var j :| 0 <= j < i + 1 && after[j].name == n;
      if j < i { assert before[j].name == n; }
    }
    forall n | n in Names(before) ensures n in Names(after) {
      var j :| 0 <= j < i && before[j].name == n;
      assert after[j].name == n;
    }
    assert after[i].name == hs[i].name;
  }

  /** `m` holds one key per name of `hs`, mapped to that name's values joined by line breaks. */
  predicate Collected(m: map<string, string>, hs: seq<Header>) {
    m.Keys == Names(hs) && forall n :: n in m ==> m[n] == Join(ValuesOf(hs, n), "\n")
  }

  /** Adding the next header to the map keeps it collected. */
  lemma CollectStep(hs: seq<Header>, i: nat, prev: map<string, string>)
    requires i < |hs| && Collected(prev, hs[..i])
    ensures var k, v := hs[i].name, hs[i].value;
      Collected(if k in prev then prev[k := prev[k] + "\n" + v] else prev[k := v], hs[..i + 1])
  {
    var k, v := hs[i].name, hs[i].value;
    ValuesOfNonEmpty(hs[..i], k);
    NamesSnoc(hs, i);
    ValuesOfSnoc(hs, i, k);
    JoinSnoc(ValuesOf(hs[..i], k), v, "\n");
    if k in prev {
      CollectOthers(hs, i, prev, prev[k := prev[k] + "\n" + v]);
    } else {
      CollectOthers(hs, i, prev, prev[k := v]);
    }
  }

  /** Names other than the next header's keep their values. */
  lemma CollectOthers(hs: seq<Header>, i: nat, prev: map<string, string>, next: map<string, string>)
    requires i < |hs| && Collected(prev, hs[..i])
    requires next.Keys == prev.Keys + {hs[i].name}
    requires forall n :: n in prev && n != hs[i].name ==> next[n] == prev[n]
    ensures forall n :: n in next && n != hs[i].name ==> next[n] == Join(ValuesOf(hs[..i + 1], n), "\n")
  {
    forall n | n in next && n != hs[i].name
      ensures next[n] == Join(ValuesOf(hs[..i + 1], n), "\n")
    {
      ValuesOfSnoc(hs, i, n);
      assert ValuesOf(hs[..i + 1], n) == ValuesOf(hs[..i], n);
    }
  }

  /**
   * `_collect_headers`: one key per distinct header name, mapped to all of
   * that name's values joined by a line break in first-seen order.
   */
  method CollectHeaders(hs: seq<Header>) returns (out: map<string, string>)
    ensures out.Keys == Names(hs)
    ensures forall k :: k in out ==> out[k] == Join(ValuesOf(hs, k), "\n")
    ensures forall k :: k in out && |ValuesOf(hs, k)| == 1 ==> out[k] == ValuesOf(hs, k)[0]
  {
    out := map[];
    var i := 0;
    while i < |hs|
      invariant i <= |hs|
      invariant Collected(out, hs[..i])
    {
      CollectStep(hs, i, out);
      var k, v := hs[i].name, hs[i].value;
      if k in out {
        out := out[k := out[k] + "\n" + v];
      } else {
        out := out[k := v];
      }
      i := i + 1;
    }
    assert hs[..i] == hs;
  }

  // ---------------------------------------------------------------------------
  // Part classification
  // ---------------------------------------------------------------------------

  predicate IsContainer(p: Part) {
    StartsWith(p.contentType, "multipart/")
  }

  /** A filename counts only when it is present and non-empty (Python truthiness). */
  predicate HasFilename(p: Part) {
    p.filename.Some? && p.filename.value != ""
  }

  predicate IsAttachment(p: Part) {
    HasFilename(p) || p.disposition == Some("attachment")
  }

  /** What one walked part contributes to the normalised record. */
  datatype Role = Container | AttachmentPart | TextChunk | HtmlChunk | Dropped

  function RoleOf(p: Part): Role {
    if IsContainer(p) then Container
    else if IsAttachment(p) then AttachmentPart
    else if p.contentType == "text/plain" then TextChunk
    else if p.contentType == "text/html" then HtmlChunk
    else Dropped
  }

  /** The metadata record of an attachment part. */
  function AttachmentOf(p: Part): (a: Attachment)
    ensures a.filename != ""
    ensures HasFilename(p) ==> a.filename == p.filename.value
    ensures !HasFilename(p) ==> a.filename == NoFilename
    ensures a.contentType == p.contentType && a.sizeBytes == p.payloadLength
  {
    Attachment(if HasFilename(p) then p.filename.value else NoFilename, p.contentType, p.payloadLength)
  }

  /** The content of every part of the given role, in walk order. */
  function ChunksOf(ps: seq<Part>, role: Role): seq<string> {
    if |ps| == 0 then []
    else
      ChunksOf(ps[..|ps| - 1], role) +
      (if RoleOf(ps[|ps| - 1]) == role then [ps[|ps| - 1].content] else [])
  }

  /** The attachment record of every attachment part, in walk order. */
  function AttachmentsOf(ps: seq<Part>): seq<Attachment> {
    if |ps| == 0 then []
    else
      AttachmentsOf(ps[..|ps| - 1]) +
      (if RoleOf(ps[|ps| - 1]) == AttachmentPart then [AttachmentOf(ps[|ps| - 1])] else [])
  }

  /** Walk order is kept: the chunks of two stretches of parts concatenate. */
  lemma {:induction false} ChunksConcat(ps: seq<Part>, qs: seq<Part>, role: Role)
    ensures ChunksOf(ps + qs, role) == ChunksOf(ps, role) + ChunksOf(qs, role)
    decreases |qs|
  {
    if |qs| == 0 {
      assert ps + qs == ps;
    } else {
      var init := qs[..|qs| - 1];
      assert (ps + qs)[..|ps + qs| - 1] == ps + init;
      ChunksConcat(ps, init, role);
    }
  }

  /** Walk order is kept: the attachments of two stretches of parts concatenate. */
  lemma {:induction false} AttachmentsConcat(ps: seq<Part>, qs: seq<Part>)
    ensures AttachmentsOf(ps + qs) == AttachmentsOf(ps) + AttachmentsOf(qs)
    decreases |qs|
  {
    if |qs| == 0 {
      assert ps + qs == ps;
    } else {
      var init := qs[..|qs| - 1];
      assert (ps + qs)[..|ps + qs| - 1] == ps + init;
      AttachmentsConcat(ps, init);
    }
  }

  /**
   * Each part lands in at most one place: a container nowhere, an attachment
   * only among the attachments, a text/plain or text/html leaf only in its
   * own body, anything else nowhere.
   */
  lemma PartContribution(p: Part)
    ensures IsContainer(p) ==>
      AttachmentsOf([p]) == [] && ChunksOf([p], TextChunk) == [] && ChunksOf([p], HtmlChunk) == []
    ensures !IsContainer(p) && IsAttachment(p) ==>
      AttachmentsOf([p]) == [AttachmentOf(p)] && ChunksOf([p], TextChunk) == [] && ChunksOf([p], HtmlChunk) == []
    ensures !IsContainer(p) && !IsAttachment(p) ==>
      AttachmentsOf([p]) == [] &&
      (ChunksOf([p], TextChunk) == if p.contentType == "text/plain" then [p.content] else []) &&
      (ChunksOf([p], HtmlChunk) == if p.contentType == "text/html" then [p.content] else [])
  {
    assert [p][..0] == [];
  }

  /** As many entries as parts at most, across the two bodies and the attachments. */
  lemma {:induction false} WalkCounts(ps: seq<Part>)
    ensures |ChunksOf(ps, TextChunk)| + |ChunksOf(ps, HtmlChunk)| + |AttachmentsOf(ps)| <= |ps|
  {
    if |ps| > 0 {
      WalkCounts(ps[..|ps| - 1]);
    }
  }

  // ---------------------------------------------------------------------------
  // Body joining
  // ---------------------------------------------------------------------------

  predicate IsBlank(t: string) {
    Strip(t) == ""
  }

  /** What one chunk adds to a body: its stripped form, unless it is empty or blank. */
  function Kept(c: string): seq<string> {
    if c != "" && Strip(c) != "" then [Strip(c)] else []
  }

  /** The stripped form of every non-blank chunk, in order. */
  function NonBlank(chunks: seq<string>): (r: seq<string>)
    ensures |r| <= |chunks|
    ensures forall k :: 0 <= k < |r| ==>
              r[k] != "" && r[k][0] !in Whitespace && r[k][|r[k]| - 1] !in Whitespace
  {
    if |chunks| == 0 then []
    else Kept(chunks[0]) + NonBlank(chunks[1..])
  }

  /** One body: the non-blank chunks, stripped, joined by a blank line. */
  function BodyOf(chunks: seq<string>): string {
    Join(NonBlank(chunks), "\n\n")
  }

  lemma {:induction false} NonBlankEmpty(chunks: seq<string>)
    ensures NonBlank(chunks) == [] <==> forall k :: 0 <= k < |chunks| ==> IsBlank(chunks[k])
  {
    if |chunks| > 0 {
      var rest := chunks[1..];
      NonBlankEmpty(rest);
      KeptEmpty(chunks[0]);
      assert NonBlank(chunks) == Kept(chunks[0]) + NonBlank(rest);
      if forall k :: 0 <= k < |chunks| ==> IsBlank(chunks[k]) {
        forall k | 0 <= k < |rest| ensures IsBlank(rest[k]) {
          assert rest[k] == chunks[k + 1];
        }
      } else {
        var k :| 0 <= k < |chunks| && !IsBlank(chunks[k]);
        if k > 0 {
          assert rest[k - 1] == chunks[k];
        }
      }
    }
  }

  /** A chunk adds nothing exactly when it is blank. */
  lemma KeptEmpty(c: string)
    ensures Kept(c) == [] <==> IsBlank(c)
  {
    if c == "" {
      assert Strip(c) == "";
    }
  }

  /** A body is empty exactly when every chunk is blank. */
  lemma BodyEmptyIff(chunks: seq<string>)
    ensures BodyOf(chunks) == "" <==> forall k :: 0 <= k < |chunks| ==> IsBlank(chunks[k])
  {
    NonBlankEmpty(chunks);
    if NonBlank(chunks) != [] {
      JoinEnds(NonBlank(chunks), "\n\n");
    }
  }

  /** A non-empty body neither starts nor ends with whitespace. */
  lemma BodyTrimmed(chunks: seq<string>)
    ensures BodyOf(chunks) != "" ==>
      BodyOf(chunks)[0] !in Whitespace && BodyOf(chunks)[|BodyOf(chunks)| - 1] !in Whitespace
  {
    if NonBlank(chunks) != [] {
      JoinEnds(NonBlank(chunks), "\n\n");
    }
  }

  /** One chunk is kept, stripped, exactly when it is not blank. */
  lemma NonBlankOne(c: string)
    ensures NonBlank([c]) == if IsBlank(c) then [] else [Strip(c)]
  {
    assert [c][1..] == [];
  }

  /** Filtering works stretch by stretch, so the kept chunks stay in walk order. */
  lemma {:induction false} NonBlankConcat(a: seq<string>, b: seq<string>)
    ensures NonBlank(a + b) == NonBlank(a) + NonBlank(b)
  {
    if |a| == 0 {
      assert a + b == b;
    } else {
      assert (a + b)[0] == a[0];
      assert (a + b)[1..] == a[1..] + b;
      NonBlankConcat(a[1..], b);
      calc {
        NonBlank(a + b);
        Kept(a[0]) + NonBlank(a[1..] + b);
        Kept(a[0]) + (NonBlank(a[1..]) + NonBlank(b));
        (Kept(a[0]) + NonBlank(a[1..])) + NonBlank(b);
      }
    }
  }

  /** A single chunk's body is that chunk stripped. */
  lemma BodyOfOne(t: string)
    ensures BodyOf([t]) == Strip(t)
  {
    assert [t][1..] == [];
  }

  // ---------------------------------------------------------------------------
  // The part walk
  // ---------------------------------------------------------------------------

  /** The chunks a single-part message contributes to the body of `role`. */
  function SingleChunks(contentType: string, content: string, role: Role): seq<string> {
    if (role == TextChunk && contentType == "text/plain") ||
       (role == HtmlChunk && contentType == "text/html")
    then [content] else []
  }

  /** Walking one more part adds that part's contribution at the end. */
  lemma WalkStep(walk: seq<Part>, i: nat)
    requires i < |walk|
    ensures forall role :: ChunksOf(walk[..i + 1], role) ==
                           ChunksOf(walk[..i], role) + (if RoleOf(walk[i]) == role then [walk[i].content] else [])
    ensures AttachmentsOf(walk[..i + 1]) ==
      AttachmentsOf(walk[..i]) + (if RoleOf(walk[i]) == AttachmentPart then [AttachmentOf(walk[i])] else [])
  {
    assert walk[..i + 1][..i] == walk[..i];
  }

  /** The loop of `_extract_parts` over the walked parts of a multipart message. */
  method WalkParts(walk: seq<Part>) returns (textChunks: seq<string>, htmlChunks: seq<string>, attachments: seq<Attachment>)
    ensures textChunks == ChunksOf(walk, TextChunk)
    ensures htmlChunks == ChunksOf(walk, HtmlChunk)
    ensures attachments == AttachmentsOf(walk)
  {
    textChunks, htmlChunks, attachments := [], [], [];
    var i := 0;
    while i < |walk|
      invariant i <= |walk|
      invariant textChunks == ChunksOf(walk[..i], TextChunk)
      invariant htmlChunks == ChunksOf(walk[..i], HtmlChunk)
      invariant attachments == AttachmentsOf(walk[..i])
    {
      var part := walk[i];
      WalkStep(walk, i);
      i := i + 1;
      if IsContainer(part) {
        continue;
      }
      if HasFilename(part) || part.disposition == Some("attachment") {
        attachments := attachments + [AttachmentOf(part)];
        continue;
      }
      if part.contentType == "text/plain" {
        textChunks := textChunks + [part.content];
      } else if part.contentType == "text/html" {
        htmlChunks := htmlChunks + [part.content];
      }
    }
    assert walk[..i] == walk;
  }

  /**
   * `_extract_parts`: the text body, the HTML body and the attachment
   * records. A single-part message has no attachments and at most one
   * non-empty body.
   */
  method ExtractParts(body: Body) returns (text: string, html: string, attachments: seq<Attachment>)
    ensures body.Multipart? ==>
      text == BodyOf(ChunksOf(body.walk, TextChunk)) &&
      html == BodyOf(ChunksOf(body.walk, HtmlChunk)) &&
      attachments == AttachmentsOf(body.walk)
    ensures body.Singlepart? ==>
      text == BodyOf(SingleChunks(body.contentType, body.content, TextChunk)) &&
      html == BodyOf(SingleChunks(body.contentType, body.content, HtmlChunk)) &&
      attachments == []
    ensures body.Singlepart? ==> text == "" || html == ""
  {
    var textChunks: seq<string> := [];
    var htmlChunks: seq<string> := [];
    attachments := [];
    match body {
      case Multipart(walk) =>
        textChunks, htmlChunks, attachments := WalkParts(walk);
      case Singlepart(contentType, content) =>
        if contentType == "text/plain" {
          textChunks := textChunks + [content];
        } else if contentType == "text/html" {
          htmlChunks := htmlChunks + [content];
        }
    }
    text := BodyOf(textChunks);
    html := BodyOf(htmlChunks);
    assert BodyOf([]) == "";
  }

  // ---------------------------------------------------------------------------
  // The whole normaliser
  // ---------------------------------------------------------------------------

  /**
   * `parse_eml` after MIME parsing: the allow-listed headers, the header map,
   * both bodies and the attachments. URL extraction does not exist in this
   * stage, so `urls` is always empty.
   */
  method ParseEml(msg: Message) returns (parsed: ParsedEmail)
    ensures parsed.subject == GetHeader(msg.headers, "Subject")
    ensures parsed.date == GetHeader(msg.headers, "Date")
    ensures parsed.messageId == GetHeader(msg.headers, "Message-ID")
    ensures parsed.fromRaw == GetHeader(msg.headers, "From")
    ensures parsed.replyToRaw == GetHeader(msg.headers, "Reply-To")
    ensures parsed.returnPath == GetHeader(msg.headers, "Return-Path")
    ensures parsed.toRaw == GetHeader(msg.headers, "To")
    ensures parsed.ccRaw == GetHeader(msg.headers, "Cc")
    ensures parsed.authenticationResults == GetHeader(msg.headers, "Authentication-Results")
    ensures parsed.receivedSpf == GetHeader(msg.headers, "Received-SPF")
    ensures parsed.headers.Keys == Names(msg.headers)
    ensures forall k :: k in parsed.headers ==> parsed.headers[k] == Join(ValuesOf(msg.headers, k), "\n")
    ensures msg.body.Multipart? ==>
      parsed.bodyText == BodyOf(ChunksOf(msg.body.walk, TextChunk)) &&
      parsed.bodyHtml == BodyOf(ChunksOf(msg.body.walk, HtmlChunk)) &&
      parsed.attachments == AttachmentsOf(msg.body.walk)
    ensures msg.body.Singlepart? ==>
      parsed.bodyText == BodyOf(SingleChunks(msg.body.contentType, msg.body.content, TextChunk)) &&
      parsed.bodyHtml == BodyOf(SingleChunks(msg.body.contentType, msg.body.content, HtmlChunk)) &&
      parsed.attachments == []
    ensures parsed.urls == []
  {
    var text, html, attachments := ExtractParts(msg.body);
    var headers := CollectHeaders(msg.headers);
    parsed := ParsedEmail(
      GetHeader(msg.headers, "Subject"),
      GetHeader(msg.headers, "Date"),
      GetHeader(msg.headers, "Message-ID"),
      GetHeader(msg.headers, "From"),
      GetHeader(msg.headers, "Reply-To"),
      GetHeader(msg.headers, "Return-Path"),
      GetHeader(msg.headers, "To"),
      GetHeader(msg.headers, "Cc"),
      GetHeader(msg.headers, "Authentication-Results"),
      GetHeader(msg.headers, "Received-SPF"),
      headers,
      text,
      html,
      attachments,
      []);
  }
}
