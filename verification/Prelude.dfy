/** Shared value types: machine-width numbers, byte ranges, snapshots and results. */
module Prelude {

  type byte = b: nat | b < 0x100
  type u16 = n: nat | n < 0x1_0000
  type u32 = n: nat | n < 0x1_0000_0000
  type u64 = n: nat | n < 0x1_0000_0000_0000_0000

  const U32_MAX: u32 := 0xFFFF_FFFF
  const U64_MAX: u64 := 0xFFFF_FFFF_FFFF_FFFF

  /** The separator of path components. */
  const SLASH: byte := 0x2F

  datatype Option<+T> = None | Some(value: T)

  datatype Result<+T, +E> = Ok(value: T) | Err(error: E)
  {
    predicate IsFailure() {
      Err?
    }

    function PropagateFailure<U>(): Result<U, E>
      requires Err?
    {
      Err(error)
    }

    function Extract(): T
      requires Ok?
    {
      value
    }
  }

  /** `ByteRange` of the evidence records: an offset and a length, unchecked. */
  datatype ByteRange = ByteRange(offset: u64, len: u64)
  {
    /** `checked_add` succeeds exactly when the end is still a u64. */
    predicate EndFits() {
      offset + len <= U64_MAX
    }

    function End(): nat {
      offset + len
    }
  }

  datatype ArchiveFormat =
    | Zip32 | Zip64 | TarUstar | TarGzipUstar | TarPax | TarGnuLongName | TarGzipPax | TarGzipGnuLongName
    | TarZstdUstar | TarXzUstar | TarBzip2Ustar | SevenZCopy

  /** A retained source: its bytes and the digest recorded when they were read. */
  datatype SourceDigest = Available(sha256: string) | Unavailable

  datatype Snapshot = Snapshot(bytes: seq<byte>, digest: SourceDigest)

  /** Little-endian fields at a byte offset. */
  function LeU16(s: seq<byte>, at: nat): u16
    requires at + 2 <= |s|
  {
    s[at] as nat + 0x100 * (s[at + 1] as nat)
  }

  function LeU32(s: seq<byte>, at: nat): u32
    requires at + 4 <= |s|
  {
    LeU16(s, at) as nat + 0x1_0000 * (LeU16(s, at + 2) as nat)
  }

  function LeU64(s: seq<byte>, at: nat): u64
    requires at + 8 <= |s|
  {
    LeU32(s, at) as nat + 0x1_0000_0000 * (LeU32(s, at + 4) as nat)
  }

  /** All bytes of `s` are zero. */
  predicate AllZero(s: seq<byte>) {
    forall i :: 0 <= i < |s| ==> s[i] == 0
  }

  /** The bytes of a range, provided the snapshot holds all of them. */
  predicate Holds(bytes: seq<byte>, range: ByteRange) {
    range.End() <= |bytes|
  }

  function Slice(bytes: seq<byte>, range: ByteRange): seq<byte>
    requires Holds(bytes, range)
  {
    bytes[range.offset..range.End()]
  }

  /** The parts with a mark between every two. */
  function Join(parts: seq<seq<byte>>, mark: byte): seq<byte> {
    if parts == [] then []
    else if |parts| == 1 then parts[0]
    else parts[0] + [mark] + Join(parts[1..], mark)
  }

  lemma {:induction false} JoinAppend(parts: seq<seq<byte>>, last: seq<byte>, mark: byte)
    ensures Join(parts + [last], mark) == if parts == [] then last else Join(parts, mark) + [mark] + last
  {
    if |parts| > 1 {
      assert (parts + [last])[1..] == parts[1..] + [last];
      JoinAppend(parts[1..], last, mark);
    } else if |parts| == 1 {
      assert (parts + [last])[1..] == [last];
    }
  }

  /** `part` occurs in `s` at offset `at`. */
  predicate Occurs<T(==)>(s: seq<T>, at: nat, part: seq<T>) {
    at + |part| <= |s| && s[at..at + |part|] == part
  }

  lemma OccursAppend<T>(s: seq<T>, at: nat, a: seq<T>, b: seq<T>)
    ensures Occurs(s, at, a + b) <==> Occurs(s, at, a) && Occurs(s, at + |a|, b)
  {
    if at + |a| + |b| <= |s| {
      var whole := s[at..at + |a| + |b|];
      assert whole == s[at..at + |a|] + s[at + |a|..at + |a| + |b|];
      assert whole[..|a|] == s[at..at + |a|] && whole[|a|..] == s[at + |a|..at + |a| + |b|];
      assert (a + b)[..|a|] == a && (a + b)[|a|..] == b;
    }
  }

  lemma SliceOfSlice<T>(s: seq<T>, i: nat, j: nat, m: nat, n: nat)
    requires i <= j <= |s| && m <= n <= j - i
    ensures s[i..j][m..n] == s[i + m..i + n]
  {
    var part, whole := s[i..j][m..n], s[i + m..i + n];
    assert |part| == |whole| == n - m;
    assert forall k :: 0 <= k < n - m ==> part[k] == s[i..j][m + k] == s[i + m + k] == whole[k];
  }

  /** Dropping the same element from two permutations leaves permutations. */
  lemma RemoveMatching<T>(a: seq<T>, b: seq<T>, i: nat)
    requires a != [] && i < |b| && a[0] == b[i] && multiset(a) == multiset(b)
    ensures multiset(a[1..]) == multiset(b[..i] + b[i + 1..])
  {
    assert a == [a[0]] + a[1..];
    assert b == b[..i] + ([b[i]] + b[i + 1..]);
    calc {
      multiset(a[1..]);
      multiset(a) - multiset{a[0]};
      multiset(b) - multiset{b[i]};
      multiset(b[..i] + b[i + 1..]);
    }
  }
}
