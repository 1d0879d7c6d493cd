/** RFC 8785 canonical JSON over integers: the documents, their domain and their canonical bytes. */
module CanonicalJson {
  import opened Prelude
  import opened Utf16
  import Utf8
  import Decimal

  /** What a JSON integer can be in the source tree: an i64 or a u64. */
  type TreeInteger = n: int | -0x8000_0000_0000_0000 <= n < 0x1_0000_0000_0000_0000

  datatype Number = Integer(value: TreeInteger) | NonInteger

  datatype Json =
    | Null
    | Bool(flag: bool)
    | Num(number: Number)
    | Str(text: Text)
    | Array(items: seq<Json>)
    | Object(members: map<Text, Json>)

  datatype ErrorCategory = NonIntegerNumber | IntegerRange

  const MAX_CANONICAL_INTEGER: int := 0x1F_FFFF_FFFF_FFFF

  // ---- The domain ----

  function Fault(n: Number): Option<ErrorCategory> {
    if n.NonInteger? then Some(NonIntegerNumber)
    else if -MAX_CANONICAL_INTEGER <= n.value <= MAX_CANONICAL_INTEGER then None
    else Some(IntegerRange)
  }

  /** Some number of the document has this fault. */
  ghost predicate HasFault(v: Json, e: ErrorCategory) {
    match v
    case Num(n) => Fault(n) == Some(e)
    case Array(items) => exists i :: 0 <= i < |items| && HasFault(items[i], e)
    case Object(members) => exists k :: k in members && HasFault(members[k], e)
    case _ => false
  }

  /** No number of the document has a fault. */
  ghost predicate InDomain(v: Json) {
    match v
    case Num(n) => Fault(n).None?
    case Array(items) => forall i :: 0 <= i < |items| ==> InDomain(items[i])
    case Object(members) => forall k :: k in members ==> InDomain(members[k])
    case _ => true
  }

  /** The documents outside the domain are those with a number that is not an integer or out of range. */
  lemma {:induction false} DomainHasNoFault(v: Json)
    ensures InDomain(v) <==> !HasFault(v, NonIntegerNumber) && !HasFault(v, IntegerRange)
  {
    match v
    case Num(n) =>
    case Array(items) =>
      forall i | 0 <= i < |items|
        ensures InDomain(items[i]) <==> !HasFault(items[i], NonIntegerNumber) && !HasFault(items[i], IntegerRange)
      {
        DomainHasNoFault(items[i]);
      }
    case Object(members) =>
      forall k | k in members
        ensures InDomain(members[k]) <==> !HasFault(members[k], NonIntegerNumber) && !HasFault(members[k], IntegerRange)
      {
        DomainHasNoFault(members[k]);
      }
    case _ =>
  }

  // ---- Keys in order ----

  predicate Sorted(keys: seq<Text>) {
    forall i, j :: 0 <= i < j < |keys| ==> KeyLess(keys[i], keys[j])
  }

  lemma {:induction false} LeastExists(keys: set<Text>)
    requires keys != {}
    ensures exists k :: k in keys && forall j :: j in keys && j != k ==> KeyLess(k, j)
  {
    hide KeyLess;
    var k :| k in keys;
    var rest := keys - {k};
    if rest == {} {
      assert forall j :: j in keys && j != k ==> j in rest;
    } else {
      LeastExists(rest);
      var m :| m in rest && forall j :: j in rest && j != m ==> KeyLess(m, j);
      KeyOrderIsStrict(k, m, m);
      if KeyLess(k, m) {
        forall j | j in keys && j != k ensures KeyLess(k, j) { KeyOrderIsStrict(k, m, j); }
      } else {
        forall j | j in keys && j != m ensures KeyLess(m, j) { }
      }
    }
  }

  /** The keys of an object in the order of RFC 8785 section 3.2.3. */
  ghost function KeysInOrder(keys: set<Text>): (order: seq<Text>)
    ensures forall k :: k in order <==> k in keys
    ensures Sorted(order)
  {
    if keys == {} then [] else
    LeastExists(keys);
    var k :| k in keys && forall j :: j in keys && j != k ==> KeyLess(k, j);
    [k] + KeysInOrder(keys - {k})
  }

  lemma NothingInEmpty(a: seq<Text>)
    ensures a == [] <==> forall k :: k !in a
  {
    if a != [] { assert a[0] in a; }
  }

  /** There is one way to sort a set of keys. */
  lemma {:induction false} SortedIsUnique(a: seq<Text>, b: seq<Text>)
    requires Sorted(a) && Sorted(b) && forall k :: k in a <==> k in b
    ensures a == b
  {
    hide KeyLess;
    NothingInEmpty(a);
    NothingInEmpty(b);
    if a != [] && b != [] {
      assert a[0] in b && b[0] in a;
      KeyOrderIsStrict(a[0], b[0], a[0]);
      KeyOrderIsStrict(b[0], a[0], b[0]);
      assert a[0] == b[0];
      forall k ensures k in a[1..] <==> k in b[1..] {
        KeyOrderIsStrict(a[0], a[0], a[0]);
        if k in a[1..] { assert k in a; }
        if k in b[1..] { assert k in b; }
      }
      SortedIsUnique(a[1..], b[1..]);
      assert a == [a[0]] + a[1..] && b == [b[0]] + b[1..];
    }
  }

  // ---- The canonical form ----

  const QUOTE: byte := 0x22
  const BACKSLASH: byte := 0x5C
  const COMMA: byte := 0x2C
  const COLON: byte := 0x3A
  const MINUS: byte := 0x2D
  const OPEN_ARRAY: byte := 0x5B
  const CLOSE_ARRAY: byte := 0x5D
  const OPEN_OBJECT: byte := 0x7B
  const CLOSE_OBJECT: byte := 0x7D

  const NULL: seq<byte> := [0x6E, 0x75, 0x6C, 0x6C]
  const TRUE: seq<byte> := [0x74, 0x72, 0x75, 0x65]
  const FALSE: seq<byte> := [0x66, 0x61, 0x6C, 0x73, 0x65]

  /** A lower-case hexadecimal digit. */
  function HexDigit(n: nat): byte
    requires n < 16
  {
    if n < 10 then 0x30 + n else 0x57 + n
  }

  /** The second byte of a two-character escape. */
  function ShortEscape(c: Utf8.Scalar): Option<byte> {
    if c == 0x22 then Some(0x22)
    else if c == 0x5C then Some(0x5C)
    else if c == 0x08 then Some(0x62)
    else if c == 0x09 then Some(0x74)
    else if c == 0x0A then Some(0x6E)
    else if c == 0x0C then Some(0x66)
    else if c == 0x0D then Some(0x72)
    else None
  }

  /** RFC 8785 section 3.2.2.2: one character of a string. */
  function Escape(c: Utf8.Scalar): (e: seq<byte>)
    ensures e != []
  {
    if ShortEscape(c).Some? then [BACKSLASH, ShortEscape(c).value]
    else if c < 0x20 then [BACKSLASH, 0x75, 0x30, 0x30, HexDigit(c / 16), HexDigit(c % 16)]
    else Utf8.EncodeScalar(c)
  }

  function Escaped(text: Text): seq<byte> {
    if text == [] then [] else Escape(text[0]) + Escaped(text[1..])
  }

  lemma {:induction false} EscapedAppend(text: Text, c: Utf8.Scalar)
    ensures Escaped(text + [c]) == Escaped(text) + Escape(c)
  {
    if text != [] {
      assert (text + [c])[1..] == text[1..] + [c];
      EscapedAppend(text[1..], c);
    } else {
      assert (text + [c])[1..] == [];
    }
  }

  function StringBytes(text: Text): seq<byte> {
    [QUOTE] + (Escaped(text) + [QUOTE])
  }

  function IntegerBytes(n: int): seq<byte> {
    if n < 0 then [MINUS] + Decimal.Numeral(-n) else Decimal.Numeral(n)
  }

  /** The canonical bytes of a document; numbers outside the domain have none. */
  ghost function Emit(v: Json): seq<byte>
    decreases v, 1
  {
    match v
    case Null => NULL
    case Bool(flag) => if flag then TRUE else FALSE
    case Num(n) => if n.Integer? then IntegerBytes(n.value) else []
    case Str(text) => StringBytes(text)
    case Array(items) =>
      [OPEN_ARRAY] + (Join(seq(|items|, i requires 0 <= i < |items| => Emit(items[i])), COMMA) + [CLOSE_ARRAY])
    case Object(members) => [OPEN_OBJECT] + (Join(MemberParts(v, KeysInOrder(members.Keys)), COMMA) + [CLOSE_OBJECT])
  }

  /** `"key":value` for some keys of an object. */
  ghost function MemberParts(v: Json, keys: seq<Text>): (parts: seq<seq<byte>>)
    requires v.Object? && forall k :: k in keys ==> k in v.members
    ensures |parts| == |keys|
    decreases v, 0
  {
    seq(|keys|, i requires 0 <= i < |keys| => StringBytes(keys[i]) + ([COLON] + Emit(v.members[keys[i]])))
  }

  ghost function ItemParts(items: seq<Json>): (parts: seq<seq<byte>>)
    ensures |parts| == |items|
  {
    seq(|items|, i requires 0 <= i < |items| => Emit(items[i]))
  }

  lemma EmitArray(v: Json)
    requires v.Array?
    ensures Emit(v) == [OPEN_ARRAY] + (Join(ItemParts(v.items), COMMA) + [CLOSE_ARRAY])
  {
    var items := v.items;
    assert seq(|items|, i requires 0 <= i < |items| => Emit(items[i])) == ItemParts(items);
  }
}
