/** The 512-byte TAR headers as the covering audits read them: POSIX ustar for PAX, old GNU for long names. */
module TarHeader {
  import opened Prelude

  const BLOCK_LEN := 512

  type Header = h: seq<byte> | |h| == BLOCK_LEN witness seq(BLOCK_LEN, _ => 0)

  // ---- Text fields ----

  function FirstNul(field: seq<byte>): (end: nat)
    ensures end <= |field| && (forall i :: 0 <= i < end ==> field[i] != 0)
    ensures end < |field| ==> field[end] == 0
  {
    if field == [] || field[0] == 0 then 0 else 1 + FirstNul(field[1..])
  }

  /** `pax_text_field`: the bytes before the first NUL, with nothing but NUL after it. */
  function TextField(field: seq<byte>, emptyAllowed: bool): (text: Option<seq<byte>>)
    ensures text.Some? ==> text.value <= field && 0 !in text.value && AllZero(field[|text.value|..])
  {
    var end := FirstNul(field);
    if !AllZero(field[end..]) || (!emptyAllowed && end == 0) then None else Some(field[..end])
  }

  predicate OwnerFieldIsCanonical(field: seq<byte>) {
    var end := FirstNul(field);
    && end < |field|
    && AllZero(field[end..])
    && forall i :: 0 <= i < end ==> 0x20 <= field[i] <= 0x7E
  }

  // ---- Octal fields ----

  predicate IsOctal(b: byte) {
    0x30 <= b <= 0x37
  }

  function OctalPrefix(field: seq<byte>): (end: nat)
    ensures end <= |field| && (forall i :: 0 <= i < end ==> IsOctal(field[i]))
    ensures end < |field| ==> !IsOctal(field[end])
  {
    if field == [] || !IsOctal(field[0]) then 0 else 1 + OctalPrefix(field[1..])
  }

  function OctalDigits(digits: seq<byte>): Option<u64>
    requires forall i :: 0 <= i < |digits| ==> IsOctal(digits[i])
  {
    if digits == [] then Some(0)
    else
      var front := OctalDigits(digits[..|digits| - 1]);
      if front.None? then None
      else
        assert IsOctal(digits[|digits| - 1]);
        var next: nat := 8 * (front.value as nat) + (digits[|digits| - 1] as nat - 0x30);
        if next <= U64_MAX then Some(next) else None
  }

  /** `parse_pax_octal`: octal digits, then at least one NUL or space and nothing else. */
  function OctalField(field: seq<byte>): Option<u64> {
    var end := OctalPrefix(field);
    if end == |field| || end == 0 || (exists i :: end <= i < |field| && field[i] != 0 && field[i] != 0x20) then None
    else OctalDigits(field[..end])
  }

  predicate DeviceFieldIsZero(field: seq<byte>) {
    AllZero(field) || OctalField(field) == Some(0)
  }

  // ---- Checksums ----

  function ByteSum(s: seq<byte>): nat {
    if s == [] then 0 else ByteSum(s[..|s| - 1]) + s[|s| - 1] as nat
  }

  /** The header sum with the eight checksum bytes read as spaces. */
  function HeaderSum(h: Header): nat {
    ByteSum(h[..148]) + 8 * 0x20 + ByteSum(h[156..])
  }

  /** The stored checksum: six octal digits, NUL, space, equal to the sum of the header. */
  function StoredChecksum(h: Header): Option<u32> {
    if (forall i :: 148 <= i < 154 ==> IsOctal(h[i])) && h[154] == 0 && h[155] == 0x20 then
      var stored := OctalDigits(h[148..154]);
      if stored.Some? && stored.value <= U32_MAX && stored.value == HeaderSum(h) then Some(stored.value) else None
    else None
  }

  // ---- Header facts ----

  datatype HeaderFacts = HeaderFacts(typeflag: byte, size: u64, mode: u32, mtime: u64, checksum: u32)

  /** The numeric fields both dialects share; a directory must have size zero. */
  function NumericFacts(h: Header): Option<HeaderFacts> {
    var checksum := StoredChecksum(h);
    var mode, uid, gid := OctalField(h[100..108]), OctalField(h[108..116]), OctalField(h[116..124]);
    var size, mtime := OctalField(h[124..136]), OctalField(h[136..148]);
    if checksum.None? || mode.None? || mode.value > 0x0FFF || uid.None? || gid.None? || size.None? || mtime.None?
       || (h[156] == 0x35 && size.value != 0) || !DeviceFieldIsZero(h[329..337]) || !DeviceFieldIsZero(h[337..345])
    then None
    else Some(HeaderFacts(h[156], size.value, mode.value, mtime.value, checksum.value))
  }

  const POSIX_MAGIC: seq<byte> := [0x75, 0x73, 0x74, 0x61, 0x72, 0x00, 0x30, 0x30]
  const GNU_MAGIC: seq<byte> := [0x75, 0x73, 0x74, 0x61, 0x72, 0x20, 0x20, 0x00]

  /** `audit_pax_header`. */
  function PaxFacts(h: Header): Option<HeaderFacts> {
    if h[257..265] != POSIX_MAGIC || !AllZero(h[500..]) || !AllZero(h[157..257])
       || !OwnerFieldIsCanonical(h[265..297]) || !OwnerFieldIsCanonical(h[297..329])
    then None
    else NumericFacts(h)
  }

  /** The file name of a ustar header: prefix, slash, name, or just the name. */
  function PaxHeaderName(h: Header): Option<seq<byte>> {
    var name, prefix := TextField(h[0..100], false), TextField(h[345..500], true);
    if name.None? || prefix.None? then None
    else if prefix.value == [] then name
    else Some(prefix.value + [0x2F] + name.value)
  }

  lemma JoinedNameParts(prefix: seq<byte>, name: seq<byte>, expected: seq<byte>)
    requires |expected| == |prefix| + 1 + |name|
    ensures prefix + [0x2F] + name == expected <==>
            prefix <= expected && expected[|prefix|] == 0x2F && expected[|prefix| + 1..] == name
  {
    var cut := |prefix|;
    var joined := prefix + [0x2F] + name;
    assert joined[..cut] == prefix && joined[cut] == 0x2F && joined[cut + 1..] == name;
    assert expected == expected[..cut] + [expected[cut]] + expected[cut + 1..];
  }

  /** `pax_header_name_matches`: compared piecewise, without building the joined name. */
  predicate PaxHeaderNameMatches(h: Header, expected: seq<byte>): (matches: bool)
    ensures matches <==> PaxHeaderName(h) == Some(expected)
  {
    var name, prefix := TextField(h[0..100], false), TextField(h[345..500], true);
    if name.None? || prefix.None? then false
    else
      var expectedLen := |prefix.value| + (if prefix.value == [] then 0 else 1) + |name.value|;
      if expectedLen != |expected| then false
      else if prefix.value == [] then expected == name.value
      else
        var cut := |prefix.value|;
        JoinedNameParts(prefix.value, name.value, expected);
        prefix.value <= expected && expected[cut] == 0x2F && expected[cut + 1..] == name.value
  }

  datatype GnuFacts = GnuFacts(name: seq<byte>, header: HeaderFacts)

  /** `audit_gnu_header`: exact old-GNU framing, a closed set of types and a nonempty name. */
  function GnuHeaderFacts(h: Header): Option<GnuFacts> {
    if h[257..265] != GNU_MAGIC || !AllZero(h[157..257]) || !AllZero(h[345..])
       || !OwnerFieldIsCanonical(h[265..297]) || !OwnerFieldIsCanonical(h[297..329])
    then None
    else
      var facts, name := NumericFacts(h), TextField(h[..100], false);
      if facts.None? || name.None? || h[156] !in {0x00, 0x30, 0x35, 0x4C} then None
      else Some(GnuFacts(name.value, facts.value))
  }

  // ---- One aligned record ----

  /** SHA-256 in hexadecimal; every statement about an audit holds for any such function. */
  type HexDigest = seq<byte> -> string

  datatype MemberKind = File | Directory

  datatype TarEvidence = TarEvidence(
    header: ByteRange,
    payload: ByteRange,
    padding: ByteRange,
    mode: u32,
    mtime: u64,
    headerChecksum: u32,
    headerSha256: string)

  function Padding(payloadLen: nat): nat {
    (BLOCK_LEN - payloadLen % BLOCK_LEN) % BLOCK_LEN
  }

  /** Header block, payload and zero padding follow each other from `at` and end on a block boundary before `end`. */
  predicate AlignedRecord(header: ByteRange, payload: ByteRange, padding: ByteRange, at: nat, end: nat) {
    && header.EndFits() && payload.EndFits() && padding.EndFits()
    && header.offset == at
    && header.len == BLOCK_LEN
    && payload.offset == header.End()
    && padding.offset == payload.End()
    && padding.len == Padding(payload.len)
    && padding.End() % BLOCK_LEN == 0
    && padding.End() <= end
  }

  /** Three ranges that split the member-record area, the two-block terminator and the trailing zeros. */
  datatype TarCovering = TarCovering(memberRecords: ByteRange, terminator: ByteRange, trailingZeros: ByteRange)

  predicate TopLevelTiles(bytes: seq<byte>, c: TarCovering) {
    && c.memberRecords.EndFits() && c.terminator.EndFits() && c.trailingZeros.EndFits()
    && c.memberRecords.offset == 0
    && c.terminator.offset == c.memberRecords.End()
    && c.terminator.len == 2 * BLOCK_LEN
    && c.trailingZeros.offset == c.terminator.End()
    && c.trailingZeros.End() == |bytes|
  }

  /** `audit_zero_range`, which reads the range in bounded chunks. */
  method AuditZeroRange(bytes: seq<byte>, range: ByteRange) returns (ok: bool)
    ensures ok <==> Holds(bytes, range) && AllZero(Slice(bytes, range))
  {
    if range.End() > |bytes| {
      return false;
    }
    var offset: nat := range.offset;
    while offset < range.End()
      invariant range.offset <= offset <= range.End()
      invariant forall i :: range.offset <= i < offset ==> bytes[i] == 0
    {
      var len := if range.End() - offset < 0x2000 then range.End() - offset else 0x2000;
      var chunk := bytes[offset..offset + len];
      if exists i :: 0 <= i < |chunk| && chunk[i] != 0 {
        var i :| 0 <= i < |chunk| && chunk[i] != 0;
        assert Slice(bytes, range)[offset + i - range.offset] != 0;
        return false;
      }
      assert forall i :: offset <= i < offset + len ==> bytes[i] == chunk[i - offset];
      offset := offset + len;
    }
    return true;
  }
}
