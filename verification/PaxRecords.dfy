/** PAX `<length> <keyword>=<value>` records: evidence against exact payload bytes. */
module PaxRecords {
  import opened Prelude
  import opened Decimal
  import Utf8

  const MAX_RECORD_LENGTH_DIGITS := 20
  const MAX_KEYWORD_BYTES := 16
  const MAX_EFFECTIVE_PATH_BYTES := 8191

  const SPACE: byte := 0x20
  const EQUALS: byte := 0x3D
  const NEWLINE: byte := 0x0A

  datatype Keyword = Path | Size

  datatype RecordEvidence = RecordEvidence(
    record: ByteRange,
    value: ByteRange,
    keyword: Keyword,
    rawValue: seq<byte>,
    parsedSize: Option<u64>)

  function KeywordBytes(k: Keyword): (s: seq<byte>)
    ensures |s| == 4
  {
    match k
    case Path => [0x70, 0x61, 0x74, 0x68]
    case Size => [0x73, 0x69, 0x7A, 0x65]
  }

  // ---- What acceptance means ----

  /** The text of a record whose length field says `r.record.len`. */
  function Line(r: RecordEvidence): seq<byte> {
    Numeral(r.record.len) + [SPACE] + KeywordBytes(r.keyword) + [EQUALS] + r.rawValue + [NEWLINE]
  }

  predicate PathValueOk(value: seq<byte>) {
    0 < |value| <= MAX_EFFECTIVE_PATH_BYTES && 0 !in value && Utf8.Valid(value)
  }

  predicate ValueOk(r: RecordEvidence) {
    match r.keyword
    case Path => PathValueOk(r.rawValue) && r.parsedSize.None?
    case Size => r.parsedSize.Some? && r.rawValue == Numeral(r.parsedSize.value)
  }

  /** The length field counts the whole line, and both ranges point at the line found at absolute offset `at`. */
  predicate RecordOk(r: RecordEvidence, at: nat) {
    && r.record.len == |Line(r)|
    && r.record.offset == at
    && r.value.offset == at + |Numeral(r.record.len)| + 6
    && r.value.len == |r.rawValue|
    && ValueOk(r)
  }

  function Lines(records: seq<RecordEvidence>): seq<byte> {
    if records == [] then [] else Line(records[0]) + Lines(records[1..])
  }

  /** Each record sits where the previous one ended. */
  predicate Consecutive(records: seq<RecordEvidence>, at: nat) {
    if records == [] then true
    else RecordOk(records[0], at) && Consecutive(records[1..], at + records[0].record.len)
  }

  /** The payload is exactly the concatenation of one or two such lines with distinct keywords. */
  predicate Accepts(payload: seq<byte>, payloadOffset: nat, records: seq<RecordEvidence>) {
    && 1 <= |records| <= 2
    && (|records| == 2 ==> records[0].keyword != records[1].keyword)
    && payload == Lines(records)
    && Consecutive(records, payloadOffset)
  }

  // ---- One line inside a payload ----

  /** The parts of a line, located in the payload; `d` is the number of length digits. */
  predicate PartsAt(payload: seq<byte>, start: nat, r: RecordEvidence, d: nat) {
    && Occurs(payload, start, Numeral(r.record.len) + [SPACE])
    && Occurs(payload, start + d + 1, KeywordBytes(r.keyword))
    && Occurs(payload, start + d + 5, [EQUALS])
    && Occurs(payload, start + d + 6, r.rawValue)
    && Occurs(payload, start + d + 6 + |r.rawValue|, [NEWLINE])
  }

  lemma LineParts(payload: seq<byte>, start: nat, r: RecordEvidence)
    ensures Occurs(payload, start, Line(r)) <==> PartsAt(payload, start, r, |Numeral(r.record.len)|)
    ensures |Line(r)| == |Numeral(r.record.len)| + 7 + |r.rawValue|
  {
    hide Occurs, Numeral;
    var head := Numeral(r.record.len) + [SPACE];
    OccursAppend(payload, start, head, KeywordBytes(r.keyword));
    OccursAppend(payload, start, head + KeywordBytes(r.keyword), [EQUALS]);
    OccursAppend(payload, start, head + KeywordBytes(r.keyword) + [EQUALS], r.rawValue);
    OccursAppend(payload, start, head + KeywordBytes(r.keyword) + [EQUALS] + r.rawValue, [NEWLINE]);
  }

  // ---- The audit of one record ----

  /** The keyword the bytes before the first `=` spell, if the closed profile knows it. */
  function ReadKeyword(bytes: seq<byte>): Option<Keyword> {
    if bytes == KeywordBytes(Path) then Some(Path)
    else if bytes == KeywordBytes(Size) then Some(Size)
    else None
  }

  /** `position(|byte| byte == b'=')` in `payload[from..to]`, or `to`. */
  method FindEquals(payload: seq<byte>, from: nat, to: nat) returns (at: nat)
    requires from <= to <= |payload|
    ensures from <= at <= to
    ensures forall i :: from <= i < at ==> payload[i] != EQUALS
    ensures at < to ==> payload[at] == EQUALS
  {
    at := from;
    while at < to && payload[at] != EQUALS
      invariant from <= at <= to
      invariant forall i :: from <= i < at ==> payload[i] != EQUALS
    {
      at := at + 1;
    }
  }

  /** The keyword arm of the match: checks the value against the evidence. */
  method AuditValue(keyword: Keyword, value: seq<byte>, evidence: RecordEvidence) returns (ok: bool)
    ensures evidence.keyword == keyword && evidence.rawValue == value ==> (ok <==> ValueOk(evidence))
  {
    match keyword
    case Path =>
      return 0 < |value| <= MAX_EFFECTIVE_PATH_BYTES && 0 !in value && Utf8.Valid(value) && evidence.parsedSize.None?;
    case Size =>
      if evidence.parsedSize.Some? && value == Numeral(evidence.parsedSize.value) {
        U64NumeralLength(evidence.parsedSize.value);
        ValueOfNumeral(evidence.parsedSize.value);
      }
      if value == [] || |value| > MAX_RECORD_LENGTH_DIGITS || (exists i :: 0 <= i < |value| && !IsDigit(value[i]))
         || (|value| > 1 && value[0] == 0x30)
      {
        return false;
      }
      ParseIsValue(value);
      NumeralOfValue(value);
      var parsed := ParseU64(value);
      if parsed.None? {
        return false;
      }
      return evidence.parsedSize == parsed;
  }

  predicate IsScan(payload: seq<byte>, start: nat, cursor: nat) {
    start <= cursor <= |payload| && forall i :: start <= i < cursor ==> IsDigit(payload[i])
  }

  /** Wherever a digit scan of a length field stops, it stops at the space. */
  lemma ScanStopsAtSpace(payload: seq<byte>, start: nat, n: u64, cursor: nat)
    requires Occurs(payload, start, Numeral(n) + [SPACE]) && IsScan(payload, start, cursor)
    ensures cursor <= start + |Numeral(n)| <= start + MAX_RECORD_LENGTH_DIGITS
    ensures cursor == |payload| || !IsDigit(payload[cursor]) ==> cursor == start + |Numeral(n)|
  {
    U64NumeralLength(n);
    var field := Numeral(n) + [SPACE];
    assert forall i :: 0 <= i < |field| ==> payload[start + i] == payload[start..start + |field|][i] == field[i];
    assert !IsDigit(payload[start + |Numeral(n)|]);
    assert cursor < start + |Numeral(n)| ==> payload[cursor] == field[cursor - start];
  }

  /** The digit scan of one record: `None` past twenty digits. */
  method ScanLength(payload: seq<byte>, start: nat) returns (end: Option<nat>)
    requires start <= |payload|
    ensures end.Some? ==> IsScan(payload, start, end.value)
    ensures end.Some? ==> end.value == |payload| || !IsDigit(payload[end.value])
    ensures end.None? ==> IsScan(payload, start, start + MAX_RECORD_LENGTH_DIGITS + 1)
  {
    var cursor := start;
    while cursor < |payload| && IsDigit(payload[cursor])
      invariant IsScan(payload, start, cursor)
      invariant cursor - start <= MAX_RECORD_LENGTH_DIGITS
    {
      cursor := cursor + 1;
      if cursor - start > MAX_RECORD_LENGTH_DIGITS {
        return None;
      }
    }
    return Some(cursor);
  }

  /** The length field: exactly the number whose numeral and a space occur at `start`. */
  method ReadLength(payload: seq<byte>, start: nat) returns (length: Option<u64>, space: nat)
    requires start <= |payload|
    ensures forall n: u64 :: Occurs(payload, start, Numeral(n) + [SPACE]) <==> length == Some(n)
    ensures length.Some? ==> space == start + |Numeral(length.value)|
  {
    hide Numeral;
    var scanned := ScanLength(payload, start);
    forall n: u64 | Occurs(payload, start, Numeral(n) + [SPACE])
      ensures scanned.Some? && scanned.value == start + |Numeral(n)|
      ensures Occurs(payload, start, Numeral(n)) && Occurs(payload, start + |Numeral(n)|, [SPACE])
    {
      OccursAppend(payload, start, Numeral(n), [SPACE]);
      ScanStopsAtSpace(payload, start, n,
                       if scanned.Some? then scanned.value else start + MAX_RECORD_LENGTH_DIGITS + 1);
    }
    if scanned.None? {
      return None, start;
    }
    space := scanned.value;
    if space == start || space == |payload| || payload[space] != SPACE {
      return None, start;
    }
    var digits := payload[start..space];
    forall n: u64 | Occurs(payload, start, Numeral(n) + [SPACE])
      ensures digits == Numeral(n) && Value(digits) == n && Canonical(digits)
    {
      ValueOfNumeral(n);
    }
    if |digits| > 1 && digits[0] == 0x30 {
      return None, start;
    }
    ParseIsValue(digits);
    NumeralOfValue(digits);
    length := ParseU64(digits);
    if length.Some? {
      OccursAppend(payload, start, digits, [SPACE]);
    }
  }

  lemma KeywordHasNoEquals(payload: seq<byte>, at: nat, k: Keyword)
    requires Occurs(payload, at, KeywordBytes(k))
    ensures forall i :: at <= i < at + 4 ==> payload[i] != EQUALS
  {
    assert forall i :: at <= i < at + 4 ==> payload[i] == payload[at..at + 4][i - at];
  }

  /** The `keyword=value` body between the space and the newline. */
  method AuditBody(payload: seq<byte>, bodyStart: nat, bodyEnd: nat, evidence: RecordEvidence, seen: set<Keyword>)
    returns (ok: bool, equals: nat)
    requires bodyStart < bodyEnd <= |payload|
    ensures ok <==> && Occurs(payload, bodyStart, KeywordBytes(evidence.keyword))
                    && Occurs(payload, bodyStart + 4, [EQUALS])
                    && bodyStart + 5 <= bodyEnd && payload[bodyStart + 5..bodyEnd] == evidence.rawValue
                    && ValueOk(evidence) && evidence.keyword !in seen
    ensures ok ==> equals == bodyStart + 4
  {
    equals := FindEquals(payload, bodyStart, bodyEnd);
    if Occurs(payload, bodyStart, KeywordBytes(evidence.keyword)) && Occurs(payload, bodyStart + 4, [EQUALS]) {
      KeywordHasNoEquals(payload, bodyStart, evidence.keyword);
      assert payload[bodyStart + 4] == payload[bodyStart + 4..bodyStart + 5][0];
      assert bodyStart + 5 <= bodyEnd ==> equals == bodyStart + 4;
    }
    if equals == bodyEnd || equals == bodyStart || equals - bodyStart > MAX_KEYWORD_BYTES {
      return false, equals;
    }
    var keyword := ReadKeyword(payload[bodyStart..equals]);
    var value := payload[equals + 1..bodyEnd];
    if keyword.None? || keyword.value in seen {
      return false, equals;
    }
    var valueOk := AuditValue(keyword.value, value, evidence);
    return valueOk && evidence.keyword == keyword.value && evidence.rawValue == value, equals;
  }

  /** One pass of the record loop; `seen` are the keywords of the records before it. */
  method AuditRecord(payload: seq<byte>, start: nat, payloadOffset: u64, evidence: RecordEvidence, seen: set<Keyword>)
    returns (ok: bool)
    requires start < |payload|
    ensures ok <==> && Occurs(payload, start, Line(evidence))
                    && RecordOk(evidence, payloadOffset + start)
                    && evidence.keyword !in seen
  {
    hide Line, Numeral, ValueOk, KeywordBytes;
    LineParts(payload, start, evidence);
    var length, space := ReadLength(payload, start);
    if length.None? {
      return false;
    }
    var recordLen := length.value;
    var recordEnd := start + recordLen;
    if recordLen == 0 || recordEnd > |payload| || payload[recordEnd - 1] != NEWLINE {
      return false;
    }
    var bodyStart := space + 1;
    if bodyStart >= recordEnd - 1 {
      return false;
    }
    var bodyOk, equals := AuditBody(payload, bodyStart, recordEnd - 1, evidence, seen);
    if !bodyOk {
      return false;
    }
    if payloadOffset + start > U64_MAX || payloadOffset + equals + 1 > U64_MAX {
      return false;
    }
    return && evidence.record == ByteRange(payloadOffset + start, recordLen)
           && evidence.value == ByteRange(payloadOffset + equals + 1, |evidence.rawValue|);
  }

  // ---- The record loop ----

  /** A suffix of the payload is a list of lines exactly when it starts with the first and goes on with the rest. */
  lemma LinesStep(payload: seq<byte>, start: nat, records: seq<RecordEvidence>)
    requires start <= |payload| && records != []
    ensures payload[start..] == Lines(records) <==>
            && Occurs(payload, start, Line(records[0]))
            && payload[start + |Line(records[0])|..] == Lines(records[1..])
  {
    hide Line;
    var line := Line(records[0]);
    if payload[start..] == Lines(records) {
      assert payload[start..][..|line|] == line && payload[start..][|line|..] == Lines(records[1..]);
    }
    if Occurs(payload, start, line) {
      assert payload[start..] == payload[start..start + |line|] + payload[start + |line|..];
    }
  }

  /** `audit_pax_records`. */
  method AuditRecords(payload: seq<byte>, payloadOffset: u64, records: seq<RecordEvidence>) returns (ok: bool)
    ensures ok <==> Accepts(payload, payloadOffset, records)
  {
    hide RecordOk, Line;
    if records == [] || |records| > 2 {
      return false;
    }
    var cursor: nat, index: nat := 0, 0;
    var seen: set<Keyword> := {};
    assert payload[0..] == payload && records[0..] == records;
    while cursor < |payload|
      invariant cursor <= |payload| && index <= |records|
      invariant payload == Lines(records) && Consecutive(records, payloadOffset) <==>
                payload[cursor..] == Lines(records[index..]) && Consecutive(records[index..], payloadOffset + cursor)
      invariant seen == set i | 0 <= i < index :: records[i].keyword
      invariant forall i, j :: 0 <= i < j < index ==> records[i].keyword != records[j].keyword
      decreases |payload| - cursor
    {
      if index == |records| {
        return false;
      }
      LinesStep(payload, cursor, records[index..]);
      assert records[index..][1..] == records[index + 1..];
      var agrees := AuditRecord(payload, cursor, payloadOffset, records[index], seen);
      if !agrees {
        return false;
      }
      LineLength(records[index], payloadOffset + cursor);
      cursor := cursor + records[index].record.len;
      seen := seen + {records[index].keyword};
      index := index + 1;
    }
    if index < |records| {
      LineLength(records[index], payloadOffset + cursor);
      assert Lines(records[index..]) != [];
    }
    return index == |records|;
  }

  lemma LineLength(r: RecordEvidence, at: nat)
    ensures |Line(r)| > 0
    ensures RecordOk(r, at) ==> |Line(r)| == r.record.len
  {
  }

  // ---- One payload, one evidence list ----

  /** Two lines that start the same bytes have the same length field, keyword and value. */
  lemma LineIsUnique(payload: seq<byte>, start: nat, at: nat, r: RecordEvidence, s: RecordEvidence)
    requires Occurs(payload, start, Line(r)) && RecordOk(r, at)
    requires Occurs(payload, start, Line(s)) && RecordOk(s, at)
    ensures r == s
  {
    hide Line, Numeral, Utf8.Valid;
    LineParts(payload, start, r);
    LineParts(payload, start, s);
    var d := |Numeral(r.record.len)|;
    SameLengthField(payload, start, r.record.len, s.record.len);
    assert payload[start + d + 1] == KeywordBytes(r.keyword)[0] == KeywordBytes(s.keyword)[0];
    if r.keyword == Size {
      ValueOfNumeral(r.parsedSize.value);
      ValueOfNumeral(s.parsedSize.value);
    }
  }

  lemma SameLengthField(payload: seq<byte>, start: nat, m: u64, n: u64)
    requires Occurs(payload, start, Numeral(m) + [SPACE]) && Occurs(payload, start, Numeral(n) + [SPACE])
    ensures m == n
  {
    hide Numeral;
    var k := start + |Numeral(m)|;
    OccursAppend(payload, start, Numeral(m), [SPACE]);
    OccursAppend(payload, start, Numeral(n), [SPACE]);
    assert forall i :: start <= i < k ==> payload[i] == payload[start..k][i - start];
    assert payload[k] == payload[k..k + 1][0] == SPACE;
    ScanStopsAtSpace(payload, start, n, k);
    ValueOfNumeral(m);
    ValueOfNumeral(n);
  }

  lemma {:induction false} LinesAreUnique(
    payload: seq<byte>, start: nat, at: nat, a: seq<RecordEvidence>, b: seq<RecordEvidence>)
    requires start <= |payload| && payload[start..] == Lines(a) == Lines(b)
    requires Consecutive(a, at) && Consecutive(b, at)
    ensures a == b
    decreases |a|
  {
    hide RecordOk, Line;
    if a != [] { LineLength(a[0], at); LinesStep(payload, start, a); }
    if b != [] { LineLength(b[0], at); LinesStep(payload, start, b); }
    if a != [] {
      LineIsUnique(payload, start, at, a[0], b[0]);
      LinesAreUnique(payload, start + a[0].record.len, at + a[0].record.len, a[1..], b[1..]);
      assert a == [a[0]] + a[1..] && b == [b[0]] + b[1..];
    }
  }

  /** At most one evidence list is accepted for a payload at a given offset. */
  lemma EvidenceIsUnique(payload: seq<byte>, payloadOffset: u64, a: seq<RecordEvidence>, b: seq<RecordEvidence>)
    requires Accepts(payload, payloadOffset, a) && Accepts(payload, payloadOffset, b)
    ensures a == b
  {
    assert payload[0..] == payload;
    LinesAreUnique(payload, 0, payloadOffset, a, b);
  }

  /**
   The length field counts its own digits, so one keyword and value can have two lines, each accepted as a
   whole payload: ninety-seven further bytes make both 99 and 100 correct lengths.
   */
  lemma LengthFieldIsNotCanonical(at: u64) returns (shorter: RecordEvidence, longer: RecordEvidence)
    requires at <= U64_MAX - 100
    ensures Accepts(Line(shorter), at, [shorter]) && Accepts(Line(longer), at, [longer])
    ensures shorter.keyword == longer.keyword && shorter.rawValue == longer.rawValue
    ensures |Line(shorter)| == 99 && |Line(longer)| == 100
  {
    var value: seq<byte> := seq(90, _ => 0x61);
    Utf8.AsciiIsUtf8(value);
    assert PathValueOk(value);
    assert |Numeral(9)| == 1 && |Numeral(10)| == 2;
    assert |Numeral(99)| == 2 && |Numeral(100)| == 3;
    hide Numeral, PathValueOk;
    shorter := RecordEvidence(ByteRange(at, 99), ByteRange(at + 8, 90), Path, value, None);
    longer := RecordEvidence(ByteRange(at, 100), ByteRange(at + 9, 90), Path, value, None);
    OneLine(shorter, at);
    OneLine(longer, at);
  }

  lemma OneLine(r: RecordEvidence, at: nat)
    requires RecordOk(r, at)
    ensures Accepts(Line(r), at, [r])
  {
    hide Line;
    assert Lines([r]) == Line(r) + Lines([]) == Line(r);
    assert Consecutive([r], at) <==> RecordOk(r, at) && Consecutive([], at + r.record.len);
  }

  /** A second record of the same keyword and value at the same place. */
  predicate Rival(r: RecordEvidence, s: RecordEvidence, at: nat) {
    RecordOk(s, at) && s.keyword == r.keyword && s.rawValue == r.rawValue && s != r
  }

  lemma LengthCountsItself(r: RecordEvidence, at: nat)
    requires RecordOk(r, at)
    ensures CountsItself(|r.rawValue| + 7, r.record.len)
  {
  }

  /** A record has a rival exactly when its value is 10^d - 8 - d bytes long for some d: 1, 90, 989, ... */
  lemma RivalsExistAroundPowersOfTen(r: RecordEvidence, at: nat, b: nat)
    requires RecordOk(r, at) && at + |Line(r)| < U64_MAX && b == |r.rawValue| + 7
    ensures (exists s :: Rival(r, s, at)) <==> exists d :: HasTwoCounts(b, d)
  {
    hide Numeral, Pow10;
    LengthCountsItself(r, at);
    if s :| Rival(r, s, at) {
      LengthCountsItself(s, at);
      if r.keyword == Size {
        ValueOfNumeral(r.parsedSize.value);
        ValueOfNumeral(s.parsedSize.value);
      }
      assert s.record.len != r.record.len;
      if s.record.len < r.record.len {
        CountsAreNeighbours(b, s.record.len, r.record.len);
      } else {
        CountsAreNeighbours(b, r.record.len, s.record.len);
      }
    }
    if d :| HasTwoCounts(b, d) {
      TwoCounts(b, d);
      OnlyTwoCounts(b, d, r.record.len);
      var n := if r.record.len == Pow10(d) then Pow10(d) - 1 else Pow10(d);
      var s := r.(record := ByteRange(at, n), value := ByteRange(at + |Numeral(n)| + 6, |r.rawValue|));
      assert Rival(r, s, at);
    }
  }

  lemma OnlyTwoCounts(b: nat, d: nat, n: nat)
    requires HasTwoCounts(b, d) && CountsItself(b, n)
    ensures n == Pow10(d) || n == Pow10(d) - 1
  {
    var m: nat, next: nat := Pow10(d) - 1, Pow10(d);
    hide Pow10, Numeral;
    TwoCounts(b, d);
    if n < m {
      CountsAreNeighbours(b, n, m);
      CountsAreNeighbours(b, n, next);
    } else if next < n {
      CountsAreNeighbours(b, m, n);
      CountsAreNeighbours(b, next, n);
    }
  }
}
