/** The string languages of the wire: canonical relative paths, finding codes and finding detail. */
module WireStrings {
  import opened Prelude
  import opened Wire
  import Utf8

  /** A string of the program: its UTF-8 bytes. */
  type Text = s: seq<byte> | Utf8.Valid(s)

  const BACKSLASH: byte := 0x5C
  const COLON: byte := 0x3A
  const DOT: byte := 0x2E
  const SPACE: byte := 0x20
  const UNDERSCORE: byte := 0x5F

  const MAX_PATH_BYTES: nat := 4 * 1024
  const MAX_FINDING_CODE_BYTES: nat := 128
  const MAX_FINDING_DETAIL_BYTES: nat := 1024

  datatype StringKind = PathString | FindingCode | Detail

  /** Device names that Windows resolves in every directory. */
  const RESERVED_STEMS: seq<string> := [
    "CON", "PRN", "AUX", "NUL",
    "COM1", "COM2", "COM3", "COM4", "COM5", "COM6", "COM7", "COM8", "COM9",
    "LPT1", "LPT2", "LPT3", "LPT4", "LPT5", "LPT6", "LPT7", "LPT8", "LPT9"]

  predicate IsControl(b: byte) {
    b < 0x20 || b == 0x7F
  }

  /** One of `<>"|?*`. */
  predicate IsWildcard(b: byte) {
    b in {0x3C, 0x3E, 0x22, 0x7C, 0x3F, 0x2A}
  }

  function AsciiUpper(b: byte): byte {
    if 0x61 <= b <= 0x7A then b - 0x20 else b
  }

  /** `eq_ignore_ascii_case` against an upper-case ASCII name. */
  predicate IsName(s: seq<byte>, name: string) {
    |s| == |name| && forall i :: 0 <= i < |s| ==> AsciiUpper(s[i]) == name[i] as int
  }

  /** `split`: the parts between marks; always at least one. */
  function Split(s: seq<byte>, mark: byte): (parts: seq<seq<byte>>)
    ensures parts != []
  {
    if s == [] then [[]]
    else
      var rest := Split(s[1..], mark);
      if s[0] == mark then [[]] + rest else [[s[0]] + rest[0]] + rest[1..]
  }

  /** `valid_path_component`. */
  predicate ValidComponent(c: seq<byte>) {
    && c != [] && c != [DOT] && c != [DOT, DOT]
    && COLON !in c
    && c[|c| - 1] != DOT && c[|c| - 1] != SPACE
    && (forall i :: 0 <= i < |c| ==> !IsControl(c[i]) && !IsWildcard(c[i]))
    && !(exists i :: 0 <= i < |RESERVED_STEMS| && IsName(Split(c, DOT)[0], RESERVED_STEMS[i]))
  }

  predicate ValidPath(p: seq<byte>) {
    && p != [] && |p| <= MAX_PATH_BYTES
    && Utf8.IsAscii(p)
    && p[0] != SLASH && p[|p| - 1] != SLASH
    && BACKSLASH !in p
    && forall i :: 0 <= i < |Split(p, SLASH)| ==> ValidComponent(Split(p, SLASH)[i])
  }

  predicate IsLower(b: byte) {
    0x61 <= b <= 0x7A
  }

  predicate ValidCode(s: seq<byte>) {
    && s != [] && |s| <= MAX_FINDING_CODE_BYTES
    && IsLower(s[0])
    && forall i :: 0 <= i < |s| ==> IsLower(s[i]) || 0x30 <= s[i] <= 0x39 || s[i] == DOT || s[i] == UNDERSCORE
  }

  /** `char::is_control`: general category Cc. */
  predicate IsControlScalar(c: Utf8.Scalar) {
    c < 0x20 || 0x7F <= c < 0xA0
  }

  predicate ValidDetail(s: Text) {
    && |s| <= MAX_FINDING_DETAIL_BYTES
    && var text := Utf8.Decode(s).value; forall i :: 0 <= i < |text| ==> !IsControlScalar(text[i])
  }

  /** `validate_string`. */
  predicate ValidString(s: Text, kind: StringKind) {
    match kind
    case PathString => ValidPath(s)
    case FindingCode => ValidCode(s)
    case Detail => ValidDetail(s)
  }

  // ---- What the path language is ----

  /** A byte string that is one component of a canonical path. */
  predicate CanonicalComponent(c: seq<byte>) {
    ValidComponent(c) && Utf8.IsAscii(c) && SLASH !in c && BACKSLASH !in c
  }

  lemma {:induction false} JoinSplit(s: seq<byte>, mark: byte)
    ensures Join(Split(s, mark), mark) == s
    ensures forall i :: 0 <= i < |Split(s, mark)| ==> mark !in Split(s, mark)[i]
  {
    if s != [] {
      var rest := Split(s[1..], mark);
      JoinSplit(s[1..], mark);
      if s[0] == mark {
        assert ([[]] + rest)[1..] == rest;
        assert s == [] + [mark] + s[1..];
      } else {
        var parts := [[s[0]] + rest[0]] + rest[1..];
        assert parts[1..] == rest[1..];
        assert Join(parts, mark) == [s[0]] + Join(rest, mark);
        assert s == [s[0]] + s[1..];
      }
    }
  }

  lemma {:induction false} SplitJoin(parts: seq<seq<byte>>, mark: byte)
    requires parts != [] && forall i :: 0 <= i < |parts| ==> mark !in parts[i]
    ensures Split(Join(parts, mark), mark) == parts
    decreases |Join(parts, mark)|
  {
    var s := Join(parts, mark);
    if s == [] {
      assert |parts| == 1;
    } else if parts[0] == [] {
      assert s[1..] == Join(parts[1..], mark);
      SplitJoin(parts[1..], mark);
      assert parts == [[]] + parts[1..];
    } else {
      var fewer := [parts[0][1..]] + parts[1..];
      assert fewer[1..] == parts[1..];
      assert s[1..] == Join(fewer, mark);
      SplitJoin(fewer, mark);
      assert s[0] == parts[0][0] && parts[0] == [s[0]] + parts[0][1..];
      assert parts == [parts[0]] + parts[1..];
    }
  }

  lemma {:induction false} JoinBytes(parts: seq<seq<byte>>, mark: byte, b: byte)
    requires parts != [] && b != mark
    ensures b in Join(parts, mark) <==> exists i :: 0 <= i < |parts| && b in parts[i]
  {
    if |parts| > 1 {
      JoinBytes(parts[1..], mark, b);
      if i :| 0 <= i < |parts| && b in parts[i] {
        if i > 0 { assert b in parts[1..][i - 1]; }
      }
    }
  }

  lemma {:induction false} JoinEnds(parts: seq<seq<byte>>, mark: byte)
    requires parts != [] && forall i :: 0 <= i < |parts| ==> parts[i] != [] && mark !in parts[i]
    ensures var s := Join(parts, mark); s != [] && s[0] != mark && s[|s| - 1] != mark
  {
    if |parts| > 1 {
      JoinEnds(parts[1..], mark);
    }
  }

  /** The valid paths are the slash-joined lists of canonical components, up to the length limit. */
  lemma PathLanguage(p: seq<byte>)
    requires |p| <= MAX_PATH_BYTES
    ensures ValidPath(p) <==> exists parts :: parts != [] && p == Join(parts, SLASH)
                                            && forall i :: 0 <= i < |parts| ==> CanonicalComponent(parts[i])
  {
    hide ValidComponent;
    JoinSplit(p, SLASH);
    if ValidPath(p) {
      var parts := Split(p, SLASH);
      forall i | 0 <= i < |parts| ensures CanonicalComponent(parts[i]) {
        forall k | 0 <= k < |parts[i]| && parts[i][k] != SLASH ensures parts[i][k] in p {
          JoinBytes(parts, SLASH, parts[i][k]);
        }
        JoinBytes(parts, SLASH, BACKSLASH);
      }
    }
    if parts :| parts != [] && p == Join(parts, SLASH)
                && forall i :: 0 <= i < |parts| ==> CanonicalComponent(parts[i])
    {
      SplitJoin(parts, SLASH);
      forall i | 0 <= i < |parts| ensures parts[i] != [] { ComponentNotEmpty(parts[i]); }
      JoinEnds(parts, SLASH);
      forall k | 0 <= k < |p| ensures p[k] < 0x80 {
        if p[k] != SLASH { JoinBytes(parts, SLASH, p[k]); }
      }
      JoinBytes(parts, SLASH, BACKSLASH);
    }
  }

  lemma ComponentNotEmpty(c: seq<byte>)
    requires ValidComponent(c)
    ensures c != []
  {
  }

  /** The path depth a request is held to: separators plus one. */
  function Depth(p: seq<byte>): nat {
    if p == [] then 1 else Depth(p[1..]) + (if p[0] == SLASH then 1 else 0)
  }

  /** Counting separators counts components. */
  lemma {:induction false} DepthIsComponentCount(p: seq<byte>)
    ensures Depth(p) == |Split(p, SLASH)|
  {
    if p != [] { DepthIsComponentCount(p[1..]); }
  }

  /** What keeps these bytes from being a string of this kind. */
  function BytesFault(bytes: seq<byte>, kind: StringKind): Option<ErrorKind> {
    if !Utf8.Valid(bytes) then Some(InvalidUtf8)
    else if !ValidString(bytes, kind) then Some(InvalidString)
    else None
  }

  /** What keeps the `len` bytes at `at` from being a string of this kind. */
  function StringFault(s: seq<byte>, at: nat, len: nat, kind: StringKind): Option<ErrorKind> {
    if at + len > |s| then Some(Truncated) else BytesFault(s[at..at + len], kind)
  }

  lemma StringFaultIs(s: seq<byte>, at: nat, len: nat, kind: StringKind)
    ensures at + len > |s| ==> StringFault(s, at, len, kind) == Some(Truncated)
    ensures at + len <= |s| ==> StringFault(s, at, len, kind) == BytesFault(s[at..at + len], kind)
  {
  }

  /** The string of this length that stands at `at` is what the bytes say, if nothing is at fault. */
  lemma StandingString(s: seq<byte>, at: nat, len: nat, kind: StringKind, r: Result<Text, ProtocolError>)
    requires StringFault(s, at, len, kind) == if r.Err? then Some(r.error.kind) else None
    requires r.Ok? ==> at + len <= |s| && r.value == s[at..at + len]
    ensures forall t: Text :: |t| == len && ValidString(t, kind) && Occurs(s, at, t) <==> r == Ok(t)
  {
    hide Utf8.Valid, ValidString;
  }

  method CheckString(bytes: seq<byte>, kind: StringKind, offset: nat) returns (r: Result<Text, ProtocolError>)
    ensures BytesFault(bytes, kind) == if r.Err? then Some(r.error.kind) else None
    ensures r.Ok? ==> r.value == bytes
    ensures r.Err? ==> r.error.offset == offset
  {
    hide Utf8.Valid, ValidString;
    if !Utf8.Valid(bytes) {
      return Err(ProtocolError(InvalidUtf8, offset));
    }
    if !ValidString(bytes, kind) {
      return Err(ProtocolError(InvalidString, offset));
    }
    return Ok(bytes);
  }

  /** `bounded_string`: the next `len` bytes if they are UTF-8 and in the language. */
  method BoundedString(cursor: Cursor, len: nat, kind: StringKind) returns (r: Result<Text, ProtocolError>)
    requires cursor.Valid()
    modifies cursor
    ensures cursor.Valid()
    ensures forall t: Text ::
              |t| == len && ValidString(t, kind) && Occurs(cursor.input, old(cursor.position), t) <==> r == Ok(t)
    ensures r.Ok? ==> cursor.position == old(cursor.position) + len
    ensures StringFault(cursor.input, old(cursor.position), len, kind) == if r.Err? then Some(r.error.kind) else None
    ensures r.Err? ==> r.error.offset == cursor.base + old(cursor.position) <= cursor.base + |cursor.input|
  {
    ghost var s, at := cursor.input, cursor.position;
    assert at <= |s|;
    var offset := cursor.Absolute();
    assert offset == cursor.base + at;
    hide *;
    StringFaultIs(s, at, len, kind);
    var bytes := cursor.Bytes(len);
    if bytes.Err? {
      r := Err(bytes.error);
    } else {
      r := CheckString(bytes.value, kind, offset);
    }
    StandingString(s, at, len, kind, r);
  }
}
