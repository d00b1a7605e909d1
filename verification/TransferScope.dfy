/** Reflection bundles: what each transfer scope lets through, over any chain of hops, and whether the
    signed payload determines the fields that were signed. */
module TransferScope {
  import opened Wrappers

  /** `Ord` is derived, so the constructors are listed from least to most. */
  datatype Scope = NoTransfer | ReflectionSummariesOnly | FullKnowledgeBundle

  type Millis = n: nat | n < 0x1_0000_0000_0000_0000_0000_0000_0000_0000

  datatype Bundle = Bundle(
    bundleId: string, sourcePseudonym: string, sourceServer: string, domainTags: seq<string>, summary: string,
    reasoningChain: Option<string>, caveats: seq<string>, createdAt: Millis, signature: string,
    vrpHandshakeRef: string)

  datatype RtxError = TransferDenied | RedactedTopic(topic: string) | InvalidBundle(reason: string)

  function EnforceTransferScope(bundle: Bundle, scope: Scope): Result<Bundle, RtxError> {
    match scope
    case NoTransfer => Err(TransferDenied)
    case ReflectionSummariesOnly => Ok(bundle.(reasoningChain := None))
    case FullKnowledgeBundle => Ok(bundle)
  }

  function CheckRedactedTopics(tags: seq<string>, redacted: seq<string>): Result<(), RtxError> {
    if tags == [] then Ok(())
    else if tags[0] in redacted then Err(RedactedTopic(tags[0]))
    else CheckRedactedTopics(tags[1..], redacted)
  }

  function ValidateBundleStructure(bundle: Bundle): Result<(), RtxError> {
    if bundle.bundleId == "" then Err(InvalidBundle("bundle_id is empty"))
    else if bundle.sourcePseudonym == "" then Err(InvalidBundle("source_pseudonym is empty"))
    else if bundle.sourceServer == "" then Err(InvalidBundle("source_server is empty"))
    else if bundle.summary == "" then Err(InvalidBundle("summary is empty"))
    else if bundle.signature == "" then Err(InvalidBundle("signature is empty"))
    else if bundle.vrpHandshakeRef == "" then Err(InvalidBundle("vrp_handshake_ref is empty"))
    else if bundle.createdAt == 0 then Err(InvalidBundle("created_at must be non-zero"))
    else Ok(())
  }

  function DigitChar(n: nat): char
    requires n < 10
  {
    "0123456789"[n]
  }

  function Decimal(n: nat): (s: string)
    ensures s != ""
  {
    if n < 10 then [DigitChar(n)] else Decimal(n / 10) + [DigitChar(n % 10)]
  }

  function BundleSigningPayload(bundle: Bundle): string {
    bundle.bundleId + "\n" + (bundle.sourcePseudonym + "\n" + (bundle.sourceServer + "\n"
      + (bundle.summary + "\n" + Decimal(bundle.createdAt))))
  }

  /** The checks in their order, each with its reason. */
  function Failing(bundle: Bundle): seq<(bool, string)> {
    [
      (bundle.bundleId == "", "bundle_id is empty"), (bundle.sourcePseudonym == "", "source_pseudonym is empty"),
      (bundle.sourceServer == "", "source_server is empty"), (bundle.summary == "", "summary is empty"),
      (bundle.signature == "", "signature is empty"), (bundle.vrpHandshakeRef == "", "vrp_handshake_ref is empty"),
      (bundle.createdAt == 0, "created_at must be non-zero")
    ]
  }

  /** A bundle is valid exactly when six texts are not empty and the time is not zero; otherwise the reason is
      that of the first check that fails. */
  lemma ValidExactly(bundle: Bundle)
    ensures ValidateBundleStructure(bundle).Ok? <==>
      && bundle.bundleId != "" && bundle.sourcePseudonym != "" && bundle.sourceServer != "" && bundle.summary != ""
      && bundle.signature != "" && bundle.vrpHandshakeRef != "" && bundle.createdAt != 0
    ensures ValidateBundleStructure(bundle).Err? ==>
      exists i :: 0 <= i < |Failing(bundle)| && Failing(bundle)[i].0
        && ValidateBundleStructure(bundle).error == InvalidBundle(Failing(bundle)[i].1)
        && forall k :: 0 <= k < i ==> !Failing(bundle)[k].0
  {
    var checks := Failing(bundle);
    if ValidateBundleStructure(bundle).Err? {
      var i := if checks[0].0 then 0 else if checks[1].0 then 1 else if checks[2].0 then 2
        else if checks[3].0 then 3 else if checks[4].0 then 4 else if checks[5].0 then 5 else 6;
      assert checks[i].0 && forall k :: 0 <= k < i ==> !checks[k].0;
      assert ValidateBundleStructure(bundle).error == InvalidBundle(checks[i].1);
    }
  }

  // ----- relaying -----

  /** The bundle handed on by every hop in turn. */
  function Relay(bundle: Bundle, scopes: seq<Scope>): Result<Bundle, RtxError>
    decreases |scopes|
  {
    if scopes == [] then Ok(bundle)
    else
      match EnforceTransferScope(bundle, scopes[0])
      case Err(e) => Err(e)
      case Ok(scoped) => Relay(scoped, scopes[1..])
  }

  function Rank(scope: Scope): nat {
    match scope
    case NoTransfer => 0
    case ReflectionSummariesOnly => 1
    case FullKnowledgeBundle => 2
  }

  function Least(scopes: seq<Scope>): (least: Scope)
    ensures scopes != [] ==> least in scopes
    ensures forall s :: s in scopes ==> Rank(least) <= Rank(s)
  {
    if scopes == [] then FullKnowledgeBundle
    else if Rank(scopes[0]) <= Rank(Least(scopes[1..])) then scopes[0]
    else Least(scopes[1..])
  }

  /** Relaying through any hops is enforcing the least scope among them once. */
  lemma {:induction false} RelayIsLeastScope(bundle: Bundle, scopes: seq<Scope>)
    ensures Relay(bundle, scopes) == EnforceTransferScope(bundle, Least(scopes))
    decreases |scopes|
  {
    if scopes != [] {
      var first := EnforceTransferScope(bundle, scopes[0]);
      if first.Ok? {
        RelayIsLeastScope(first.value, scopes[1..]);
      }
    }
  }

  /** The order and repetition of hops do not matter. */
  lemma RelayOrderIrrelevant(bundle: Bundle, hops: seq<Scope>, others: seq<Scope>)
    requires forall s :: s in hops <==> s in others
    ensures Relay(bundle, hops) == Relay(bundle, others)
  {
    RelayIsLeastScope(bundle, hops);
    RelayIsLeastScope(bundle, others);
    assert hops == [] || hops[0] in others;
    assert others == [] || others[0] in hops;
    assert Rank(Least(hops)) == Rank(Least(others));
  }

  /** A relay is denied exactly when some hop allows no transfer; otherwise only the reasoning chain can
      change, it survives exactly when every hop allows the full bundle, and the signed payload, the
      structural verdict and the redaction verdict are those of the original. */
  lemma RelayKeeps(bundle: Bundle, scopes: seq<Scope>, redacted: seq<string>)
    ensures Relay(bundle, scopes).Err? <==> NoTransfer in scopes
    ensures Relay(bundle, scopes).Err? ==> Relay(bundle, scopes).error == TransferDenied
    ensures Relay(bundle, scopes).Ok? ==>
      var out := Relay(bundle, scopes).value;
      && out == bundle.(reasoningChain := out.reasoningChain)
      && (if forall s :: s in scopes ==> s == FullKnowledgeBundle
          then out.reasoningChain == bundle.reasoningChain else out.reasoningChain == None)
      && BundleSigningPayload(out) == BundleSigningPayload(bundle)
      && ValidateBundleStructure(out) == ValidateBundleStructure(bundle)
      && CheckRedactedTopics(out.domainTags, redacted) == CheckRedactedTopics(bundle.domainTags, redacted)
  {
    RelayIsLeastScope(bundle, scopes);
  }

  /** The redaction check passes exactly when no tag is redacted, and otherwise names the first one that is. */
  lemma {:induction false} RedactionNamesFirst(tags: seq<string>, redacted: seq<string>)
    ensures CheckRedactedTopics(tags, redacted).Ok? <==> forall tag :: tag in tags ==> tag !in redacted
    ensures CheckRedactedTopics(tags, redacted).Err? ==>
      exists i :: 0 <= i < |tags| && tags[i] in redacted
        && (forall k :: 0 <= k < i ==> tags[k] !in redacted)
        && CheckRedactedTopics(tags, redacted) == Err(RedactedTopic(tags[i]))
  {
    if tags != [] {
      assert tags == [tags[0]] + tags[1..];
      if tags[0] !in redacted {
        RedactionNamesFirst(tags[1..], redacted);
        if CheckRedactedTopics(tags[1..], redacted).Err? {
          var i :| 0 <= i < |tags[1..]| && tags[1..][i] in redacted
            && (forall k :: 0 <= k < i ==> tags[1..][k] !in redacted)
            && CheckRedactedTopics(tags[1..], redacted) == Err(RedactedTopic(tags[1..][i]));
          assert tags[i + 1] in redacted;
          assert forall k :: 0 <= k < i + 1 ==> tags[k] !in redacted by {
            assert forall k :: 1 <= k < i + 1 ==> tags[k] == tags[1..][k - 1];
          }
        }
      }
    }
  }

  // ----- the signed payload -----

  predicate OneLine(s: string) {
    '\n' !in s
  }

  lemma {:induction false} DecimalIsOneLine(n: nat)
    ensures OneLine(Decimal(n))
  {
    if n >= 10 {
      DecimalIsOneLine(n / 10);
    }
  }

  lemma {:induction false} DecimalInjective(m: nat, n: nat)
    requires Decimal(m) == Decimal(n)
    ensures m == n
  {
    var a, b := Decimal(m), Decimal(n);
    LastDigit(m);
    LastDigit(n);
    if m >= 10 && n >= 10 {
      assert a[..|a| - 1] == Decimal(m / 10) && b[..|b| - 1] == Decimal(n / 10);
      DecimalInjective(m / 10, n / 10);
    }
  }

  lemma LastDigit(n: nat)
    ensures var s := Decimal(n);
      s[|s| - 1] == DigitChar(n % 10) && (n < 10 <==> |s| == 1)
    ensures forall k: nat :: k < 10 && DigitChar(k) == DigitChar(n % 10) ==> k == n % 10
  {}

  predicate AllDigits(s: string) {
    forall i :: 0 <= i < |s| ==> '0' <= s[i] <= '9'
  }

  /** The value of decimal text. */
  function ReadDecimal(s: string): nat
    requires AllDigits(s)
  {
    if s == "" then 0 else 10 * ReadDecimal(s[..|s| - 1]) + (s[|s| - 1] as int - '0' as int)
  }

  /** Decimal text reads back as the number it was written for. */
  lemma {:induction false} DecimalReads(n: nat)
    ensures AllDigits(Decimal(n)) && ReadDecimal(Decimal(n)) == n
    ensures n > 0 ==> Decimal(n)[0] != '0'
  {
    DigitReads(n % 10);
    hide DigitChar;
    var s := Decimal(n);
    if n >= 10 {
      DecimalReads(n / 10);
      assert s[..|s| - 1] == Decimal(n / 10);
    } else {
      assert s[..0] == "";
    }
  }

  lemma DigitReads(d: nat)
    requires d < 10
    ensures '0' <= DigitChar(d) <= '9' && DigitChar(d) as int - '0' as int == d
  {}

  /** The text cut at its newlines. */
  function Lines(s: string): (lines: seq<string>)
    ensures lines != []
  {
    if s == "" then [""]
    else
      var rest := Lines(s[1..]);
      if s[0] == '\n' then [""] + rest else [[s[0]] + rest[0]] + rest[1..]
  }

  lemma {:induction false} LinesFirst(a: string, rest: string)
    requires OneLine(a)
    ensures Lines(a + "\n" + rest) == [a] + Lines(rest)
  {
    var s := a + "\n" + rest;
    if a == "" {
      assert s[1..] == rest;
    } else {
      assert s[1..] == a[1..] + "\n" + rest;
      LinesFirst(a[1..], rest);
      assert a == [a[0]] + a[1..];
    }
  }

  lemma {:induction false} LinesOfOne(a: string)
    requires OneLine(a)
    ensures Lines(a) == [a]
  {
    if a != "" {
      LinesOfOne(a[1..]);
      assert a == [a[0]] + a[1..];
    }
  }

  /** The payload of single-line fields has five lines: the fields in their order, and the time in decimal
      digits without leading zeros. */
  lemma PayloadLines(bundle: Bundle)
    requires OneLine(bundle.bundleId) && OneLine(bundle.sourcePseudonym) && OneLine(bundle.sourceServer)
    requires OneLine(bundle.summary)
    ensures var lines := Lines(BundleSigningPayload(bundle));
      && |lines| == 5
      && lines[..4] == [bundle.bundleId, bundle.sourcePseudonym, bundle.sourceServer, bundle.summary]
      && AllDigits(lines[4]) && ReadDecimal(lines[4]) == bundle.createdAt
      && (bundle.createdAt > 0 ==> lines[4] != "" && lines[4][0] != '0')
  {
    DecimalReads(bundle.createdAt);
    DecimalIsOneLine(bundle.createdAt);
    hide Decimal, OneLine, Lines, AllDigits, ReadDecimal;
    var time := Decimal(bundle.createdAt);
    var last := bundle.summary + "\n" + time;
    var third := bundle.sourceServer + "\n" + last;
    LinesOfOne(time);
    LinesFirst(bundle.summary, time);
    LinesFirst(bundle.sourceServer, last);
    LinesFirst(bundle.sourcePseudonym, third);
    LinesFirst(bundle.bundleId, bundle.sourcePseudonym + "\n" + third);
  }

  function FirstNewline(s: string): nat {
    if s == "" || s[0] == '\n' then 0 else 1 + FirstNewline(s[1..])
  }

  function LastNewline(s: string): nat {
    if s == "" || s[|s| - 1] == '\n' then |s| else LastNewline(s[..|s| - 1])
  }

  lemma {:induction false} FirstNewlineAt(a: string, x: string)
    requires OneLine(a)
    ensures FirstNewline(a + "\n" + x) == |a|
  {
    var s := a + "\n" + x;
    if a != "" {
      assert s[0] == a[0] && s[1..] == a[1..] + "\n" + x;
      FirstNewlineAt(a[1..], x);
    }
  }

  lemma {:induction false} LastNewlineAt(x: string, a: string)
    requires OneLine(a)
    ensures LastNewline(x + "\n" + a) == |x| + 1
  {
    var s := x + "\n" + a;
    if a != "" {
      var n := |a| - 1;
      assert s[|s| - 1] == a[n] && s[..|s| - 1] == x + "\n" + a[..n];
      LastNewlineAt(x, a[..n]);
    } else {
      assert s[|s| - 1] == '\n';
    }
  }

  lemma FirstLineUnique(a: string, x: string, b: string, y: string)
    requires OneLine(a) && OneLine(b) && a + "\n" + x == b + "\n" + y
    ensures a == b && x == y
  {
    var s, t := a + "\n" + x, b + "\n" + y;
    FirstNewlineAt(a, x);
    FirstNewlineAt(b, y);
    assert s[..|a|] == a && t[..|b|] == b;
    assert s[|a| + 1..] == x && t[|b| + 1..] == y;
  }

  lemma LastLineUnique(x: string, a: string, y: string, b: string)
    requires OneLine(a) && OneLine(b) && x + "\n" + a == y + "\n" + b
    ensures x == y && a == b
  {
    var s, t := x + "\n" + a, y + "\n" + b;
    LastNewlineAt(x, a);
    LastNewlineAt(y, b);
    assert s[..|x|] == x && t[..|y|] == y;
    assert s[|x| + 1..] == a && t[|y| + 1..] == b;
  }

  ghost predicate OneLineHeader(bundle: Bundle) {
    OneLine(bundle.bundleId) && OneLine(bundle.sourcePseudonym) && OneLine(bundle.sourceServer)
  }

  /** The five signed fields agree. */
  predicate SameSigned(a: Bundle, b: Bundle) {
    && a.bundleId == b.bundleId && a.sourcePseudonym == b.sourcePseudonym && a.sourceServer == b.sourceServer
    && a.summary == b.summary && a.createdAt == b.createdAt
  }

  /** Between bundles whose id, pseudonym and server are single lines, the payload determines all five signed
      fields, however many lines the summaries have. */
  lemma PayloadDetermines(a: Bundle, b: Bundle)
    requires OneLineHeader(a) && OneLineHeader(b)
    ensures BundleSigningPayload(a) == BundleSigningPayload(b) <==> SameSigned(a, b)
  {
    hide Decimal, OneLine;
    if BundleSigningPayload(a) == BundleSigningPayload(b) {
      var a3, b3 := a.summary + "\n" + Decimal(a.createdAt), b.summary + "\n" + Decimal(b.createdAt);
      var a2, b2 := a.sourceServer + "\n" + a3, b.sourceServer + "\n" + b3;
      var a1, b1 := a.sourcePseudonym + "\n" + a2, b.sourcePseudonym + "\n" + b2;
      FirstLineUnique(a.bundleId, a1, b.bundleId, b1);
      FirstLineUnique(a.sourcePseudonym, a2, b.sourcePseudonym, b2);
      FirstLineUnique(a.sourceServer, a3, b.sourceServer, b3);
      DecimalIsOneLine(a.createdAt);
      DecimalIsOneLine(b.createdAt);
      LastLineUnique(a.summary, Decimal(a.createdAt), b.summary, Decimal(b.createdAt));
      DecimalInjective(a.createdAt, b.createdAt);
    }
  }

  predicate SingleLines(bundle: Bundle) {
    && OneLine(bundle.bundleId) && OneLine(bundle.sourcePseudonym) && OneLine(bundle.sourceServer)
    && OneLine(bundle.summary)
  }

  /** No bundle whatever shares the payload without sharing the signed fields. */
  ghost predicate Unambiguous(bundle: Bundle) {
    forall b: Bundle :: BundleSigningPayload(b) == BundleSigningPayload(bundle) ==> SameSigned(b, bundle)
  }

  function Newlines(s: string): nat {
    if s == "" then 0 else Newlines(s[1..]) + if s[0] == '\n' then 1 else 0
  }

  lemma {:induction false} NewlinesAdd(a: string, b: string)
    ensures Newlines(a + b) == Newlines(a) + Newlines(b)
  {
    if a == "" {
      assert a + b == b;
    } else {
      assert (a + b)[1..] == a[1..] + b;
      NewlinesAdd(a[1..], b);
    }
  }

  lemma {:induction false} OneLineCounts(s: string)
    ensures OneLine(s) <==> Newlines(s) == 0
  {
    if s != "" {
      OneLineCounts(s[1..]);
      assert s == [s[0]] + s[1..];
    }
  }

  lemma NewlinesSeparated(a: string, b: string)
    ensures Newlines(a + "\n" + b) == Newlines(a) + 1 + Newlines(b)
  {
    NewlinesAdd(a, "\n");
    NewlinesAdd(a + "\n", b);
  }

  /** The payload has the four separators and the newlines of the four texts. */
  lemma PayloadNewlines(bundle: Bundle)
    ensures Newlines(BundleSigningPayload(bundle)) == 4 + Newlines(bundle.bundleId)
      + Newlines(bundle.sourcePseudonym) + Newlines(bundle.sourceServer) + Newlines(bundle.summary)
  {
    hide Newlines, Decimal;
    var last := bundle.summary + "\n" + Decimal(bundle.createdAt);
    var third := bundle.sourceServer + "\n" + last;
    NewlinesSeparated(bundle.summary, Decimal(bundle.createdAt));
    DecimalIsOneLine(bundle.createdAt);
    OneLineCounts(Decimal(bundle.createdAt));
    NewlinesSeparated(bundle.sourceServer, last);
    NewlinesSeparated(bundle.sourcePseudonym, third);
    NewlinesSeparated(bundle.bundleId, bundle.sourcePseudonym + "\n" + third);
  }

  lemma SingleLinesUnambiguous(a: Bundle, b: Bundle)
    requires SingleLines(a) && BundleSigningPayload(b) == BundleSigningPayload(a)
    ensures SameSigned(b, a)
  {
    hide BundleSigningPayload, OneLine, Newlines;
    PayloadNewlines(a);
    PayloadNewlines(b);
    OneLineCounts(a.bundleId);
    OneLineCounts(a.sourcePseudonym);
    OneLineCounts(a.sourceServer);
    OneLineCounts(a.summary);
    OneLineCounts(b.bundleId);
    OneLineCounts(b.sourcePseudonym);
    OneLineCounts(b.sourceServer);
    PayloadDetermines(b, a);
  }

  lemma SplitAtNewline(s: string) returns (x: string, y: string)
    requires !OneLine(s)
    ensures s == x + "\n" + y && |x| < |s|
  {
    var i :| 0 <= i < |s| && s[i] == '\n';
    x, y := s[..i], s[i + 1..];
    assert s == s[..i] + [s[i]] + s[i + 1..];
  }

  /** Moving a separator to a newline inside a field: the payload stays, a signed field changes. */
  lemma ShiftedTwin(a: Bundle) returns (b: Bundle)
    requires !SingleLines(a)
    ensures BundleSigningPayload(b) == BundleSigningPayload(a) && !SameSigned(b, a)
  {
    hide OneLine, Decimal;
    var time := Decimal(a.createdAt);
    if !OneLine(a.bundleId) {
      var x, y := SplitAtNewline(a.bundleId);
      b := a.(bundleId := x, sourcePseudonym := y + "\n" + a.sourcePseudonym);
      Regroup(x, y, a.sourcePseudonym, a.sourceServer + "\n" + (a.summary + "\n" + time));
    } else if !OneLine(a.sourcePseudonym) {
      var x, y := SplitAtNewline(a.sourcePseudonym);
      b := a.(sourcePseudonym := x, sourceServer := y + "\n" + a.sourceServer);
      Regroup(x, y, a.sourceServer, a.summary + "\n" + time);
    } else if !OneLine(a.sourceServer) {
      var x, y := SplitAtNewline(a.sourceServer);
      b := a.(sourceServer := x, summary := y + "\n" + a.summary);
      Regroup(x, y, a.summary, time);
    } else {
      var x, y := SplitAtNewline(a.summary);
      b := a.(sourceServer := a.sourceServer + "\n" + x, summary := y);
      assert |b.sourceServer| > |a.sourceServer|;
      Regroup(a.sourceServer, x, y, time);
    }
  }

  lemma Regroup(x: string, y: string, z: string, rest: string)
    ensures (x + "\n" + y) + "\n" + (z + "\n" + rest) == x + "\n" + ((y + "\n" + z) + "\n" + rest)
  {}

  /** A bundle's payload determines its signed fields among all bundles exactly when its id, pseudonym, server
      and summary are all single lines, which a signer can check before signing. */
  lemma UnambiguousExactly(bundle: Bundle)
    ensures Unambiguous(bundle) <==> SingleLines(bundle)
  {
    hide BundleSigningPayload, SameSigned, SingleLines;
    if SingleLines(bundle) {
      forall b: Bundle | BundleSigningPayload(b) == BundleSigningPayload(bundle)
        ensures SameSigned(b, bundle)
      {
        SingleLinesUnambiguous(bundle, b);
      }
    } else {
      var twin := ShiftedTwin(bundle);
    }
  }

  // ----- the signed payload among valid bundles -----

  predicate Valid(bundle: Bundle) {
    ValidateBundleStructure(bundle).Ok?
  }

  /** No structurally valid bundle shares the payload without sharing the signed fields. */
  ghost predicate UnambiguousAmongValid(bundle: Bundle) {
    forall b: Bundle :: Valid(b) && BundleSigningPayload(b) == BundleSigningPayload(bundle) ==> SameSigned(b, bundle)
  }

  predicate Blank(s: string) {
    s == "\n"
  }

  /** No newline stands where a separator could be moved to without leaving a field empty. */
  predicate NewlinesPinned(bundle: Bundle) {
    && OneLine(if bundle.bundleId == "" then "" else bundle.bundleId[1..])
    && (OneLine(bundle.sourcePseudonym) || Blank(bundle.sourcePseudonym))
    && (OneLine(bundle.sourceServer) || Blank(bundle.sourceServer))
    && OneLine(if bundle.summary == "" then "" else bundle.summary[..|bundle.summary| - 1])
  }

  /** The payload without its last line. */
  function Header(bundle: Bundle): string {
    bundle.bundleId + "\n" + (bundle.sourcePseudonym + "\n" + (bundle.sourceServer + "\n" + bundle.summary))
  }

  lemma HeaderAndTime(bundle: Bundle)
    ensures BundleSigningPayload(bundle) == Header(bundle) + "\n" + Decimal(bundle.createdAt)
  {
    hide Decimal;
    var time := Decimal(bundle.createdAt);
    var last := bundle.sourceServer + "\n" + bundle.summary;
    assert bundle.sourceServer + "\n" + (bundle.summary + "\n" + time) == last + "\n" + time;
    assert bundle.sourcePseudonym + "\n" + (last + "\n" + time)
      == (bundle.sourcePseudonym + "\n" + last) + "\n" + time;
  }

  /** Where the separators stand in the header. */
  function Cuts(bundle: Bundle): (nat, nat, nat) {
    var first := |bundle.bundleId|;
    var second := first + 1 + |bundle.sourcePseudonym|;
    (first, second, second + 1 + |bundle.sourceServer|)
  }

  lemma CutsAreNewlines(bundle: Bundle)
    ensures var (i, j, k) := Cuts(bundle); var h := Header(bundle);
      && i < j < k < |h| && |h| == k + 1 + |bundle.summary|
      && h[i] == h[j] == h[k] == '\n'
      && bundle.bundleId == h[..i] && bundle.sourcePseudonym == h[i + 1..j]
      && bundle.sourceServer == h[j + 1..k] && bundle.summary == h[k + 1..]
  {}

  lemma NewlineIn(s: string, p: nat)
    requires p < |s| && s[p] == '\n'
    ensures !OneLine(s)
  {}

  /** In a valid bundle with its newlines pinned, every newline of the header is a separator, next to one in
      a blank field, or at an end. */
  lemma PinnedNewlines(bundle: Bundle, p: nat)
    requires Valid(bundle) && NewlinesPinned(bundle)
    requires p < |Header(bundle)| && Header(bundle)[p] == '\n'
    ensures var (i, j, k) := Cuts(bundle);
      p in {0, i, j, k, |Header(bundle)| - 1} || (p == i + 1 && j == i + 2) || (p == j + 1 && k == j + 2)
  {
    CutsAreNewlines(bundle);
    var (i, j, k) := Cuts(bundle);
    var h := Header(bundle);
    hide Header, Cuts, OneLine;
    if 0 < p < i {
      NewlineIn(bundle.bundleId[1..], p - 1);
    } else if i < p < j {
      NewlineIn(bundle.sourcePseudonym, p - i - 1);
    } else if j < p < k {
      NewlineIn(bundle.sourceServer, p - j - 1);
    } else if k < p < |h| - 1 {
      NewlineIn(bundle.summary[..|bundle.summary| - 1], p - k - 1);
    }
  }

  lemma PinnedIsUnique(a: Bundle, b: Bundle)
    requires Valid(a) && Valid(b) && NewlinesPinned(a) && BundleSigningPayload(b) == BundleSigningPayload(a)
    ensures SameSigned(b, a)
  {
    hide Decimal, OneLine;
    HeaderAndTime(a);
    HeaderAndTime(b);
    DecimalIsOneLine(a.createdAt);
    DecimalIsOneLine(b.createdAt);
    hide Header, Cuts, BundleSigningPayload, NewlinesPinned;
    LastLineUnique(Header(a), Decimal(a.createdAt), Header(b), Decimal(b.createdAt));
    DecimalInjective(a.createdAt, b.createdAt);
    CutsAreNewlines(a);
    CutsAreNewlines(b);
    var (i, j, k) := Cuts(b);
    PinnedNewlines(a, i);
    PinnedNewlines(a, j);
    PinnedNewlines(a, k);
    assert Cuts(a) == Cuts(b);
  }

  /** The two ways to move one separator: back to a newline in the text before it, on to one in the text after. */
  lemma MoveBack(x: string, y: string, p: nat)
    requires 0 < p < |x| && x[p] == '\n'
    ensures x[..p] + "\n" + (x[p + 1..] + "\n" + y) == x + "\n" + y
    ensures x[..p] != "" && x[..p] != x
  {
    assert x == x[..p] + "\n" + x[p + 1..];
  }

  lemma MoveOn(x: string, y: string, p: nat)
    requires p < |y| - 1 && y[p] == '\n'
    ensures (x + "\n" + y[..p]) + "\n" + y[p + 1..] == x + "\n" + y
    ensures y[p + 1..] != "" && |x + "\n" + y[..p]| > |x|
  {
    assert y == y[..p] + "\n" + y[p + 1..];
  }

  lemma Reparted(x: string, y: string, newX: string, newY: string, rest: string)
    requires newX + "\n" + newY == x + "\n" + y
    ensures newX + "\n" + (newY + rest) == x + "\n" + (y + rest)
  {
    assert newX + "\n" + (newY + rest) == (newX + "\n" + newY) + rest;
    assert x + "\n" + (y + rest) == (x + "\n" + y) + rest;
  }

  /** Two adjacent texts have a newline that could part them instead, leaving neither empty. */
  predicate Movable(x: string, y: string) {
    || (exists p :: 0 < p < |x| && x[p] == '\n')
    || (exists p :: 0 <= p < |y| - 1 && y[p] == '\n')
  }

  lemma Repart(x: string, y: string) returns (newX: string, newY: string)
    requires Movable(x, y)
    ensures newX + "\n" + newY == x + "\n" + y && newX != "" && newY != "" && newX != x
  {
    if p :| 0 < p < |x| && x[p] == '\n' {
      MoveBack(x, y, p);
      newX, newY := x[..p], x[p + 1..] + "\n" + y;
    } else {
      var p :| 0 <= p < |y| - 1 && y[p] == '\n';
      MoveOn(x, y, p);
      newX, newY := x + "\n" + y[..p], y[p + 1..];
    }
  }

  lemma PinnedExactly(bundle: Bundle)
    requires Valid(bundle)
    ensures NewlinesPinned(bundle) <==>
      && !Movable(bundle.bundleId, bundle.sourcePseudonym)
      && !Movable(bundle.sourcePseudonym, bundle.sourceServer)
      && !Movable(bundle.sourceServer, bundle.summary)
  {
    OneLineParts(bundle.bundleId);
    OneLineParts(bundle.sourcePseudonym);
    OneLineParts(bundle.sourceServer);
    OneLineParts(bundle.summary);
    hide OneLine;
  }

  lemma OneLineParts(s: string)
    requires s != ""
    ensures OneLine(s[1..]) <==> forall p :: 0 < p < |s| ==> s[p] != '\n'
    ensures OneLine(s[..|s| - 1]) <==> forall p :: 0 <= p < |s| - 1 ==> s[p] != '\n'
    ensures OneLine(s) || Blank(s) <==>
      (forall p :: 0 < p < |s| ==> s[p] != '\n') && (forall p :: 0 <= p < |s| - 1 ==> s[p] != '\n')
  {
    assert forall p :: 0 < p < |s| ==> s[p] == s[1..][p - 1];
    assert forall p :: 0 <= p < |s| - 1 ==> s[p] == s[..|s| - 1][p];
    if |s| == 1 {
      assert s == [s[0]];
    }
  }

  /** The payload, cut behind the second, third and fourth text. */
  lemma PayloadParts(a: Bundle)
    ensures var time := Decimal(a.createdAt);
      var third := a.sourceServer + "\n" + (a.summary + "\n" + time);
      && BundleSigningPayload(a) == a.bundleId + "\n" + (a.sourcePseudonym + ("\n" + third))
      && BundleSigningPayload(a) == a.bundleId + "\n"
        + (a.sourcePseudonym + "\n" + (a.sourceServer + ("\n" + (a.summary + "\n" + time))))
      && BundleSigningPayload(a) == a.bundleId + "\n"
        + (a.sourcePseudonym + "\n" + (a.sourceServer + "\n" + (a.summary + ("\n" + time))))
  {
    hide Decimal;
    var time := Decimal(a.createdAt);
    var third := a.sourceServer + "\n" + (a.summary + "\n" + time);
    assert third == a.sourceServer + ("\n" + (a.summary + "\n" + time));
    assert a.summary + "\n" + time == a.summary + ("\n" + time);
    assert a.sourcePseudonym + "\n" + third == a.sourcePseudonym + ("\n" + third);
  }

  lemma MovableTwin(a: Bundle) returns (b: Bundle)
    requires Valid(a) && !NewlinesPinned(a)
    ensures Valid(b) && BundleSigningPayload(b) == BundleSigningPayload(a) && !SameSigned(b, a)
  {
    PinnedExactly(a);
    hide Movable, NewlinesPinned, Decimal, BundleSigningPayload;
    PayloadParts(a);
    if Movable(a.bundleId, a.sourcePseudonym) {
      var x, y := Repart(a.bundleId, a.sourcePseudonym);
      b := a.(bundleId := x, sourcePseudonym := y);
      Reparted(a.bundleId, a.sourcePseudonym, x, y,
        "\n" + (a.sourceServer + "\n" + (a.summary + "\n" + Decimal(a.createdAt))));
    } else if Movable(a.sourcePseudonym, a.sourceServer) {
      var x, y := Repart(a.sourcePseudonym, a.sourceServer);
      b := a.(sourcePseudonym := x, sourceServer := y);
      Reparted(a.sourcePseudonym, a.sourceServer, x, y, "\n" + (a.summary + "\n" + Decimal(a.createdAt)));
    } else {
      var x, y := Repart(a.sourceServer, a.summary);
      b := a.(sourceServer := x, summary := y);
      Reparted(a.sourceServer, a.summary, x, y, "\n" + Decimal(a.createdAt));
    }
    PayloadParts(b);
  }

  /** Between valid bundles, none of whose signed texts is empty, the payload belongs to one bundle's fields
      alone exactly when a newline occurs in the id only as its first character, in the summary only as its
      last, and in the pseudonym and the server only as the whole text. */
  lemma ValidUnambiguousExactly(bundle: Bundle)
    requires Valid(bundle)
    ensures UnambiguousAmongValid(bundle) <==> NewlinesPinned(bundle)
  {
    hide BundleSigningPayload, SameSigned, NewlinesPinned, Valid;
    if NewlinesPinned(bundle) {
      forall b: Bundle | Valid(b) && BundleSigningPayload(b) == BundleSigningPayload(bundle)
        ensures SameSigned(b, bundle)
      {
        PinnedIsUnique(bundle, b);
      }
    } else {
      var twin := MovableTwin(bundle);
    }
  }

  /** The structural check does not ask for single lines, and without them the payload is ambiguous: here two
      valid bundles with different fields have the same payload. */
  lemma PayloadAmbiguousWithNewlines()
    ensures var a := Bundle("i\np", "q", "s", [], "m", None, [], 1, "g", "v");
      var b := Bundle("i", "p\nq", "s", [], "m", None, [], 1, "g", "v");
      && ValidateBundleStructure(a).Ok? && ValidateBundleStructure(b).Ok?
      && (a.bundleId, a.sourcePseudonym) != (b.bundleId, b.sourcePseudonym)
      && BundleSigningPayload(a) == BundleSigningPayload(b)
  {
    var tail := "s" + "\n" + ("m" + "\n" + Decimal(1));
    assert "i\np" + "\n" + ("q" + "\n" + tail) == "i" + "\n" + ("p\nq" + "\n" + tail);
    var a := Bundle("i\np", "q", "s", [], "m", None, [], 1, "g", "v");
    assert a.bundleId[1] != a.bundleId[0] && |a.bundleId| == 3;
  }
}
