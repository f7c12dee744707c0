/** The anchor memo: its parser, its printer and exactly which strings parse to what. */
module AnchorMemo {
  import opened Bytes
  import opened Codec

  const PREFIX: string := "twzrd-log-anchor:v1:"

  datatype AnchorPayload = AnchorPayload(logId: string, treeSize: int, root: string)

  // ---------------------------------------------------------------- lastIndexOf and decimals

  function LastAt(s: string, c: char, i: int): (r: int)
    requires i < |s|
    ensures -1 <= r <= i || r == -1
    ensures r >= 0 ==> s[r] == c
    ensures forall k :: 0 <= k <= i && r < k ==> s[k] != c
    decreases i
  {
    if i < 0 then -1 else if s[i] == c then i else LastAt(s, c, i - 1)
  }

  /** JavaScript's lastIndexOf for one character: a starting index outside the string is clamped into it. */
  function LastIndexOf(s: string, c: char, from: int): int {
    if s == "" then -1
    else LastAt(s, c, if from < 0 then 0 else if from >= |s| then |s| - 1 else from)
  }

  predicate IsDigit(c: char) { '0' <= c <= '9' }

  predicate AllDigits(s: string) { forall i :: 0 <= i < |s| ==> IsDigit(s[i]) }

  function DecimalValue(s: string): nat
    requires AllDigits(s)
  {
    if s == "" then 0 else 10 * DecimalValue(s[..|s| - 1]) + (s[|s| - 1] as int - '0' as int)
  }

  function FormatDecimal(n: nat): (s: string)
    ensures s != "" && AllDigits(s)
  {
    if n < 10 then ['0' + n as char] else FormatDecimal(n / 10) + ['0' + (n % 10) as char]
  }

  lemma {:induction false} DecimalRoundTrip(n: nat)
    ensures DecimalValue(FormatDecimal(n)) == n
  {
    if n >= 10 {
      DecimalRoundTrip(n / 10);
      assert FormatDecimal(n)[..|FormatDecimal(n)| - 1] == FormatDecimal(n / 10);
    } else {
      assert FormatDecimal(n)[..0] == "";
    }
  }

  // ---------------------------------------------------------------- parser and printer

  /** The fields between the colons found from the end. */
  function ParseFields(logId: string, sizeStr: string, rootHex: string): Option<AnchorPayload> {
    if logId == "" then None
    else if sizeStr == "" || !AllDigits(sizeStr) then None
    else if DecimalValue(sizeStr) > MAX_SAFE then None
    else if |rootHex| != 64 || !IsHex(rootHex) then None
    else Some(AnchorPayload(logId, DecimalValue(sizeStr), rootHex))
  }

  function ParseRest(rest: string): Option<AnchorPayload> {
    var lastColon := LastIndexOf(rest, ':', |rest| - 1);
    if lastColon < 0 then None
    else
      var secondLastColon := LastIndexOf(rest, ':', lastColon - 1);
      if secondLastColon < 0 then None
      else
        // A lone colon at the front is found twice; the empty log id then refuses the memo.
        var sizeStr := if secondLastColon < lastColon then rest[secondLastColon + 1..lastColon] else "";
        ParseFields(rest[..secondLastColon], sizeStr, LowerAll(rest[lastColon + 1..]))
  }

  function ParseAnchorMemo(memo: string): Option<AnchorPayload> {
    if PREFIX <= memo then ParseRest(memo[|PREFIX|..]) else None
  }

  function JoinFields(logId: string, sizeStr: string, rootStr: string): string {
    logId + (":" + (sizeStr + (":" + rootStr)))
  }

  /** The memo of a payload; None when its root is not 32 bytes of hex. */
  function FormatAnchorMemo(p: AnchorPayload): Option<string>
    requires p.treeSize >= 0
  {
    var root := HexToBytes(p.root);
    if root.None? || |root.value| != 32 then None
    else Some(PREFIX + JoinFields(p.logId, FormatDecimal(p.treeSize), BytesToHex(root.value)))
  }

  // ---------------------------------------------------------------- exactly which memos parse

  ghost predicate FieldsSpell(p: AnchorPayload, sizeStr: string, rootStr: string) {
    && p.logId != "" && sizeStr != "" && AllDigits(sizeStr) && DecimalValue(sizeStr) == p.treeSize <= MAX_SAFE
    && LowerAll(rootStr) == p.root && |p.root| == 64 && IsHex(p.root)
  }

  /** The memo is the prefix, the log id, a decimal of the size and a hex spelling of the root. */
  ghost predicate Spells(memo: string, p: AnchorPayload, sizeStr: string, rootStr: string) {
    && memo == PREFIX + JoinFields(p.logId, sizeStr, rootStr) && FieldsSpell(p, sizeStr, rootStr)
  }

  lemma NoColon(s: string)
    requires AllDigits(s) || IsHex(LowerAll(s))
    ensures forall i :: 0 <= i < |s| ==> s[i] != ':'
  {
    forall i | 0 <= i < |s| ensures s[i] != ':' {
      if IsHex(LowerAll(s)) {
        assert LowerAll(s)[i] == Lower(s[i]);
      }
    }
  }

  /** The last colon is the one followed by none. */
  lemma FindColon(s: string, from: int, at: nat)
    requires at <= from < |s| && s[at] == ':'
    requires forall i :: at < i <= from ==> s[i] != ':'
    ensures LastIndexOf(s, ':', from) == at
  {
    assert LastAt(s, ':', from) >= at;
  }

  lemma LastColonIs(head: string, tail: string)
    requires forall i :: 0 <= i < |tail| ==> tail[i] != ':'
    ensures LastIndexOf(head + (":" + tail), ':', |head| + |tail|) == |head|
  {
    var s := head + (":" + tail);
    assert forall i :: |head| < i < |s| ==> s[i] == tail[i - |head| - 1];
    FindColon(s, |s| - 1, |head|);
  }

  /** Searching from inside a prefix does not see what follows it. */
  lemma {:induction false} LastAtPrefix(s: string, t: string, c: char, i: int)
    requires i < |s|
    ensures LastAt(s + t, c, i) == LastAt(s, c, i)
    decreases i
  {
    if i >= 0 {
      LastAtPrefix(s, t, c, i - 1);
    }
  }

  /** The two colons found from the end delimit the three fields, whatever colons the first one holds. */
  lemma ColonsFromEnd(logId: string, sizeStr: string, rootStr: string)
    requires forall i :: 0 <= i < |sizeStr| ==> sizeStr[i] != ':'
    requires forall i :: 0 <= i < |rootStr| ==> rootStr[i] != ':'
    ensures var front := logId + (":" + sizeStr);
            var rest := front + (":" + rootStr);
            && LastIndexOf(rest, ':', |rest| - 1) == |front|
            && LastIndexOf(rest, ':', |front| - 1) == |logId|
  {
    var front := logId + (":" + sizeStr);
    LastColonIs(front, rootStr);
    LastColonIs(logId, sizeStr);
    LastAtPrefix(front, ":" + rootStr, ':', |front| - 1);
  }

  /** What the two colons found cut the rest into. */
  lemma ParseRestBetween(rest: string, first: nat, last: nat, logId: string, sizeStr: string, rootStr: string)
    requires first < last < |rest|
    requires LastIndexOf(rest, ':', |rest| - 1) == last && LastIndexOf(rest, ':', last - 1) == first
    requires rest[..first] == logId && rest[first + 1..last] == sizeStr && rest[last + 1..] == rootStr
    ensures ParseRest(rest) == ParseFields(logId, sizeStr, LowerAll(rootStr))
  {
  }

  lemma JoinedSlices(logId: string, sizeStr: string, rootStr: string)
    ensures var rest, last := JoinFields(logId, sizeStr, rootStr), |logId| + 1 + |sizeStr|;
            && |rest| == last + 1 + |rootStr| && rest[..|logId|] == logId
            && rest[|logId| + 1..last] == sizeStr && rest[last + 1..] == rootStr
  {
  }

  lemma JoinRegroups(logId: string, sizeStr: string, rootStr: string)
    ensures JoinFields(logId, sizeStr, rootStr) == (logId + (":" + sizeStr)) + (":" + rootStr)
  {
  }

  lemma JoinedColons(logId: string, sizeStr: string, rootStr: string)
    requires forall i :: 0 <= i < |sizeStr| ==> sizeStr[i] != ':'
    requires forall i :: 0 <= i < |rootStr| ==> rootStr[i] != ':'
    ensures var rest, last := JoinFields(logId, sizeStr, rootStr), |logId| + 1 + |sizeStr|;
            LastIndexOf(rest, ':', |rest| - 1) == last && LastIndexOf(rest, ':', last - 1) == |logId|
  {
    JoinRegroups(logId, sizeStr, rootStr);
    ColonsFromEnd(logId, sizeStr, rootStr);
  }

  lemma FieldsParse(p: AnchorPayload, sizeStr: string, rootStr: string)
    requires FieldsSpell(p, sizeStr, rootStr)
    ensures ParseFields(p.logId, sizeStr, LowerAll(rootStr)) == Some(p)
  {
  }

  lemma JoinedFieldsParse(p: AnchorPayload, sizeStr: string, rootStr: string)
    requires FieldsSpell(p, sizeStr, rootStr)
    ensures ParseRest(JoinFields(p.logId, sizeStr, rootStr)) == Some(p)
  {
    NoColon(sizeStr);
    NoColon(rootStr);
    JoinedColons(p.logId, sizeStr, rootStr);
    JoinedSlices(p.logId, sizeStr, rootStr);
    FieldsParse(p, sizeStr, rootStr);
    ParseRestBetween(JoinFields(p.logId, sizeStr, rootStr), |p.logId|, |p.logId| + 1 + |sizeStr|, p.logId, sizeStr,
                     rootStr);
  }

  lemma CutAtColons(rest: string, first: nat, last: nat)
    requires first < last < |rest| && rest[first] == ':' && rest[last] == ':'
    ensures rest == JoinFields(rest[..first], rest[first + 1..last], rest[last + 1..])
  {
  }

  lemma ParseRestCuts(rest: string) returns (first: nat, last: nat)
    requires ParseRest(rest).Some?
    ensures first < last < |rest| && rest[first] == ':' && rest[last] == ':'
    ensures ParseRest(rest) == ParseFields(rest[..first], rest[first + 1..last], LowerAll(rest[last + 1..]))
  {
    last := LastIndexOf(rest, ':', |rest| - 1);
    first := LastIndexOf(rest, ':', last - 1);
  }

  lemma ParsedFieldsSpell(logId: string, sizeStr: string, rootStr: string)
    requires ParseFields(logId, sizeStr, LowerAll(rootStr)).Some?
    ensures var p := ParseFields(logId, sizeStr, LowerAll(rootStr)).value;
            p.logId == logId && FieldsSpell(p, sizeStr, rootStr)
  {
  }

  lemma ParsedFieldsJoin(rest: string) returns (sizeStr: string, rootStr: string)
    requires ParseRest(rest).Some?
    ensures FieldsSpell(ParseRest(rest).value, sizeStr, rootStr)
    ensures rest == JoinFields(ParseRest(rest).value.logId, sizeStr, rootStr)
  {
    var first, last := ParseRestCuts(rest);
    sizeStr, rootStr := rest[first + 1..last], rest[last + 1..];
    CutAtColons(rest, first, last);
    ParsedFieldsSpell(rest[..first], sizeStr, rootStr);
  }

  lemma AfterPrefix(prefix: string, rest: string)
    ensures prefix <= prefix + rest && (prefix + rest)[|prefix|..] == rest
  {
  }

  lemma PrefixAndRest(prefix: string, memo: string)
    requires prefix <= memo
    ensures memo == prefix + memo[|prefix|..]
  {
  }

  /** Any spelling of a payload parses to it, whatever colons its log id holds. */
  lemma SpellingParses(memo: string, p: AnchorPayload, sizeStr: string, rootStr: string)
    requires Spells(memo, p, sizeStr, rootStr)
    ensures ParseAnchorMemo(memo) == Some(p)
  {
    JoinedFieldsParse(p, sizeStr, rootStr);
    AfterPrefix(PREFIX, JoinFields(p.logId, sizeStr, rootStr));
  }

  /** Whatever parses is a spelling of the payload it parses to. */
  lemma ParsedIsSpelling(memo: string) returns (sizeStr: string, rootStr: string)
    requires ParseAnchorMemo(memo).Some?
    ensures Spells(memo, ParseAnchorMemo(memo).value, sizeStr, rootStr)
    ensures memo == "twzrd-log-anchor:v1:" + (ParseAnchorMemo(memo).value.logId + (":" + (sizeStr + (":" + rootStr))))
  {
    PrefixAndRest(PREFIX, memo);
    sizeStr, rootStr := ParsedFieldsJoin(memo[|PREFIX|..]);
  }

  /** The parser undoes the printer: the same log id and size, and the root in clean lower case. */
  lemma MemoRoundTrip(p: AnchorPayload)
    requires p.logId != "" && 0 <= p.treeSize <= MAX_SAFE
    requires HexToBytes(p.root).Some? && |HexToBytes(p.root).value| == 32
    ensures ParseAnchorMemo(FormatAnchorMemo(p).value) == Some(p.(root := Clean(p.root)))
  {
    var hex := BytesToHex(HexToBytes(p.root).value);
    CleanDecides(p.root, p.root);
    DecimalRoundTrip(p.treeSize);
    assert forall i :: 0 <= i < |hex| ==> IsHexChar(hex[i]) && Lower(hex[i]) == hex[i];
    assert LowerAll(hex) == hex;
    SpellingParses(FormatAnchorMemo(p).value, p.(root := hex), FormatDecimal(p.treeSize), hex);
  }

  /** So no two payloads with different fields print to one memo. */
  lemma PrinterInjective(p: AnchorPayload, q: AnchorPayload)
    requires p.logId != "" && 0 <= p.treeSize <= MAX_SAFE && q.logId != "" && 0 <= q.treeSize <= MAX_SAFE
    requires FormatAnchorMemo(p).Some? && FormatAnchorMemo(p) == FormatAnchorMemo(q)
    ensures p.logId == q.logId && p.treeSize == q.treeSize && HexToBytes(p.root) == HexToBytes(q.root)
  {
    MemoRoundTrip(p);
    MemoRoundTrip(q);
    CleanDecides(p.root, q.root);
  }
}
