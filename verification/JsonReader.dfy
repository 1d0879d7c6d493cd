/** A reference reader of JSON texts without whitespace, and the proof that canonical bytes are uniquely readable. */
module JsonReader {
  import opened Prelude
  import opened Utf16
  import opened CanonicalJson
  import Utf8
  import Decimal

  // ---- Strings ----

  function HexValue(b: byte): Option<nat> {
    if 0x30 <= b <= 0x39 then Some(b - 0x30)
    else if 0x61 <= b <= 0x66 then Some(b - 0x57)
    else if 0x41 <= b <= 0x46 then Some(b - 0x37)
    else None
  }

  /** Four hexadecimal digits. */
  function Hex4(s: seq<byte>): Option<nat>
    requires |s| >= 4
  {
    var a, b, c, d := HexValue(s[0]), HexValue(s[1]), HexValue(s[2]), HexValue(s[3]);
    if a.Some? && b.Some? && c.Some? && d.Some? then Some(((a.value * 16 + b.value) * 16 + c.value) * 16 + d.value)
    else None
  }

  function ShortUnescape(b: byte): Option<Utf8.Scalar> {
    if b == 0x22 || b == 0x5C || b == 0x2F then Some(b as nat)
    else if b == 0x62 then Some(0x08)
    else if b == 0x74 then Some(0x09)
    else if b == 0x6E then Some(0x0A)
    else if b == 0x66 then Some(0x0C)
    else if b == 0x72 then Some(0x0D)
    else None
  }

  /** The character a string goes on with, and how many bytes it takes. */
  function ReadCharacter(s: seq<byte>): (r: Option<(Utf8.Scalar, nat)>)
    ensures r.Some? ==> 1 <= r.value.1 <= |s|
  {
    if s == [] || s[0] < 0x20 || s[0] == QUOTE then None
    else if s[0] != BACKSLASH then Utf8.DecodeFirst(s)
    else if |s| < 2 then None
    else if ShortUnescape(s[1]).Some? then Some((ShortUnescape(s[1]).value, 2))
    else if s[1] == 0x75 && |s| >= 6 && Hex4(s[2..]).Some? && Utf8.IsScalar(Hex4(s[2..]).value) then
      Some((Hex4(s[2..]).value, 6))
    else None
  }

  /** The rest of a string up to its closing quote, and what follows. */
  function ReadString(s: seq<byte>): (r: Option<(Text, seq<byte>)>)
    ensures r.Some? ==> |r.value.1| < |s|
    decreases |s|
  {
    if s == [] then None
    else if s[0] == QUOTE then Some(([], s[1..]))
    else
      var c := ReadCharacter(s);
      if c.None? then None
      else
        var more := ReadString(s[c.value.1..]);
        if more.None? then None else Some(([c.value.0] + more.value.0, more.value.1))
  }

  lemma HexRoundTrip(c: Utf8.Scalar)
    requires c < 0x20
    ensures Hex4([0x30, 0x30, HexDigit(c / 16), HexDigit(c % 16)]) == Some(c as nat)
  {
  }

  lemma EncodedLead(c: Utf8.Scalar)
    requires c >= 0x20 && c != 0x22 && c != 0x5C
    ensures Utf8.EncodeScalar(c) != [] && Utf8.EncodeScalar(c)[0] >= 0x20
    ensures Utf8.EncodeScalar(c)[0] != QUOTE && Utf8.EncodeScalar(c)[0] != BACKSLASH
  {
  }

  lemma CharacterIsReadBack(c: Utf8.Scalar, rest: seq<byte>)
    ensures ReadCharacter(Escape(c) + rest) == Some((c, |Escape(c)|))
    ensures Escape(c)[0] != QUOTE
  {
    var s := Escape(c) + rest;
    if ShortEscape(c).Some? {
      assert s[1] == ShortEscape(c).value;
    } else if c < 0x20 {
      HexRoundTrip(c);
      assert s[2..6] == [0x30, 0x30, HexDigit(c / 16), HexDigit(c % 16)];
      assert Hex4(s[2..]) == Hex4(s[2..6]);
      assert s[0] == BACKSLASH && s[1] == 0x75;
    } else {
      EncodedLead(c);
      Utf8.DecodeFirstEncoded(c, rest);
    }
  }

  lemma ReadOneMore(head: seq<byte>, tail: seq<byte>, c: Utf8.Scalar, more: Text, rest: seq<byte>)
    requires head != [] && head[0] != QUOTE && ReadCharacter(head + tail) == Some((c, |head|))
             && ReadString(tail) == Some((more, rest))
    ensures ReadString(head + tail) == Some(([c] + more, rest))
  {
    hide ReadCharacter;
    assert (head + tail)[|head|..] == tail;
  }

  lemma {:induction false} StringIsReadBack(text: Text, rest: seq<byte>)
    ensures ReadString(Escaped(text) + [QUOTE] + rest) == Some((text, rest))
  {
    var s := Escaped(text) + [QUOTE] + rest;
    if text == [] {
      assert s[0] == QUOTE && s[1..] == rest;
    } else {
      var head, tail := Escape(text[0]), Escaped(text[1..]) + [QUOTE] + rest;
      assert s == head + tail by { assert Escaped(text) == head + Escaped(text[1..]); }
      hide Escape, ReadCharacter, Escaped;
      CharacterIsReadBack(text[0], tail);
      StringIsReadBack(text[1..], rest);
      ReadOneMore(head, tail, text[0], text[1..], rest);
      assert text == [text[0]] + text[1..];
    }
  }

  // ---- Numbers ----

  /** How many digits a text starts with. */
  function DigitRun(s: seq<byte>): (n: nat)
    ensures n <= |s| && Decimal.AllDigits(s[..n])
    ensures n < |s| ==> !Decimal.IsDigit(s[n])
  {
    if s == [] || !Decimal.IsDigit(s[0]) then 0
    else
      var n := 1 + DigitRun(s[1..]);
      assert s[..n] == [s[0]] + s[1..][..n - 1];
      n
  }

  /** No digit could be read on. */
  predicate Terminated(rest: seq<byte>) {
    rest == [] || !Decimal.IsDigit(rest[0])
  }

  lemma {:induction false} DigitRunStops(digits: seq<byte>, rest: seq<byte>)
    requires Decimal.AllDigits(digits) && Terminated(rest)
    ensures DigitRun(digits + rest) == |digits|
  {
    if digits == [] {
      assert digits + rest == rest;
    } else {
      assert (digits + rest)[1..] == digits[1..] + rest;
      DigitRunStops(digits[1..], rest);
    }
  }

  function ReadNatural(s: seq<byte>): (r: Option<(nat, seq<byte>)>)
    ensures r.Some? ==> |r.value.1| < |s|
  {
    var digits := s[..DigitRun(s)];
    if Decimal.Canonical(digits) then Some((Decimal.Value(digits), s[|digits|..])) else None
  }

  function ReadNumber(s: seq<byte>): (r: Option<(Json, seq<byte>)>)
    requires s != []
    ensures r.Some? ==> |r.value.1| < |s|
  {
    var negative := s[0] == MINUS;
    var r := ReadNatural(if negative then s[1..] else s);
    if r.None? then None
    else
      var magnitude: int := r.value.0;
      var n := if negative then -magnitude else magnitude;
      if -0x8000_0000_0000_0000 <= n < 0x1_0000_0000_0000_0000 && !(negative && n == 0) then
        Some((Num(Integer(n)), r.value.1))
      else None
  }

  lemma NaturalIsReadBack(n: nat, rest: seq<byte>)
    requires Terminated(rest)
    ensures ReadNatural(Decimal.Numeral(n) + rest) == Some((n, rest))
  {
    var digits := Decimal.Numeral(n);
    DigitRunStops(digits, rest);
    assert (digits + rest)[..|digits|] == digits && (digits + rest)[|digits|..] == rest;
    Decimal.ValueOfNumeral(n);
  }

  lemma NumberIsReadBack(n: TreeInteger, rest: seq<byte>)
    requires Terminated(rest)
    ensures ReadNumber(IntegerBytes(n) + rest) == Some((Num(Integer(n)), rest))
  {
    hide ReadNatural;
    if n < 0 {
      NaturalIsReadBack(-n, rest);
      assert (IntegerBytes(n) + rest)[1..] == Decimal.Numeral(-n) + rest;
    } else {
      NaturalIsReadBack(n, rest);
    }
  }

  // ---- Documents ----

  /** One JSON value and what follows it. */
  function ReadValue(s: seq<byte>): (r: Option<(Json, seq<byte>)>)
    ensures r.Some? ==> |r.value.1| < |s|
    decreases |s|, 0
  {
    if s == [] then None
    else if s[0] == NULL[0] then if NULL <= s then Some((Null, s[4..])) else None
    else if s[0] == TRUE[0] then if TRUE <= s then Some((Bool(true), s[4..])) else None
    else if s[0] == FALSE[0] then if FALSE <= s then Some((Bool(false), s[5..])) else None
    else if s[0] == QUOTE then
      var t := ReadString(s[1..]);
      if t.None? then None else Some((Str(t.value.0), t.value.1))
    else if s[0] == OPEN_ARRAY then
      if |s| > 1 && s[1] == CLOSE_ARRAY then Some((Array([]), s[2..]))
      else
        var items := ReadItems(s[1..]);
        if items.None? then None else Some((Array(items.value.0), items.value.1))
    else if s[0] == OPEN_OBJECT then
      if |s| > 1 && s[1] == CLOSE_OBJECT then Some((Object(map[]), s[2..]))
      else
        var members := ReadMembers(s[1..]);
        if members.None? then None else Some((Object(members.value.0), members.value.1))
    else ReadNumber(s)
  }

  /** One or more array elements up to the closing bracket. */
  function ReadItems(s: seq<byte>): (r: Option<(seq<Json>, seq<byte>)>)
    ensures r.Some? ==> |r.value.1| < |s|
    decreases |s|, 1
  {
    var first := ReadValue(s);
    if first.None? || first.value.1 == [] then None
    else
      var after := first.value.1;
      if after[0] == CLOSE_ARRAY then Some(([first.value.0], after[1..]))
      else if after[0] != COMMA then None
      else
        var more := ReadItems(after[1..]);
        if more.None? then None else Some(([first.value.0] + more.value.0, more.value.1))
  }

  /** One `"key":value`. */
  function ReadMember(s: seq<byte>): (r: Option<(Text, Json, seq<byte>)>)
    ensures r.Some? ==> |r.value.2| < |s|
    decreases |s|, 1
  {
    if s == [] || s[0] != QUOTE then None
    else
      var key := ReadString(s[1..]);
      if key.None? || key.value.1 == [] || key.value.1[0] != COLON then None
      else
        var v := ReadValue(key.value.1[1..]);
        if v.None? then None else Some((key.value.0, v.value.0, v.value.1))
  }

  /** One or more members up to the closing brace; a repeated key is refused. */
  function ReadMembers(s: seq<byte>): (r: Option<(map<Text, Json>, seq<byte>)>)
    ensures r.Some? ==> |r.value.1| < |s|
    decreases |s|, 2
  {
    var first := ReadMember(s);
    if first.None? || first.value.2 == [] then None
    else
      var after := first.value.2;
      if after[0] == CLOSE_OBJECT then Some((map[first.value.0 := first.value.1], after[1..]))
      else if after[0] != COMMA then None
      else
        var more := ReadMembers(after[1..]);
        if more.None? || first.value.0 in more.value.0 then None
        else Some((more.value.0[first.value.0 := first.value.1], more.value.1))
  }

  // ---- Reading canonical bytes back ----

  lemma EmittedLead(v: Json)
    requires InDomain(v)
    ensures Emit(v) != [] && Emit(v)[0] != CLOSE_ARRAY
  {
  }

  lemma LiteralsAreReadBack(rest: seq<byte>)
    ensures ReadValue(NULL + rest) == Some((Null, rest))
    ensures ReadValue(TRUE + rest) == Some((Bool(true), rest))
    ensures ReadValue(FALSE + rest) == Some((Bool(false), rest))
  {
    hide ReadString, ReadItems, ReadMembers, ReadNumber;
    assert (NULL + rest)[4..] == rest && (TRUE + rest)[4..] == rest && (FALSE + rest)[5..] == rest;
  }

  lemma NumberValueIsReadBack(n: TreeInteger, rest: seq<byte>)
    requires Terminated(rest)
    ensures ReadValue(IntegerBytes(n) + rest) == Some((Num(Integer(n)), rest))
  {
    NumberIsReadBack(n, rest);
    hide ReadString, ReadItems, ReadMembers, ReadNumber, Decimal.Numeral;
    var s := IntegerBytes(n) + rest;
    assert s[0] == MINUS || Decimal.IsDigit(s[0]) by {
      assert IntegerBytes(n)[0] == MINUS || Decimal.IsDigit(IntegerBytes(n)[0]);
    }
  }

  lemma StringValueIsReadBack(text: Text, rest: seq<byte>)
    ensures ReadValue(StringBytes(text) + rest) == Some((Str(text), rest))
  {
    hide ReadString, ReadItems, ReadMembers, ReadNumber, Escaped;
    StringIsReadBack(text, rest);
    var s := StringBytes(text) + rest;
    assert s[0] == QUOTE && s[1..] == Escaped(text) + [QUOTE] + rest;
  }

  lemma {:induction false} ValueIsReadBack(v: Json, rest: seq<byte>)
    requires InDomain(v) && Terminated(rest)
    ensures ReadValue(Emit(v) + rest) == Some((v, rest))
    decreases v, 2
  {
    hide ReadValue, ReadString, ReadNumber, IntegerBytes, Escaped;
    match v
    case Null => LiteralsAreReadBack(rest);
    case Bool(flag) => LiteralsAreReadBack(rest);
    case Num(n) => NumberValueIsReadBack(n.value, rest);
    case Str(text) => StringValueIsReadBack(text, rest);
    case Array(items) => ArrayIsReadBack(v, rest);
    case Object(members) => ObjectIsReadBack(v, rest);
  }

  lemma ReadEmptyBodies(rest: seq<byte>)
    ensures ReadValue([OPEN_ARRAY] + ([] + [CLOSE_ARRAY]) + rest) == Some((Array([]), rest))
    ensures ReadValue([OPEN_OBJECT] + ([] + [CLOSE_OBJECT]) + rest) == Some((Object(map[]), rest))
  {
    hide ReadItems, ReadMembers, ReadNumber, ReadString;
    var s, t := [OPEN_ARRAY] + ([] + [CLOSE_ARRAY]) + rest, [OPEN_OBJECT] + ([] + [CLOSE_OBJECT]) + rest;
    assert s[0] == OPEN_ARRAY && s[1] == CLOSE_ARRAY && s[2..] == rest;
    assert t[0] == OPEN_OBJECT && t[1] == CLOSE_OBJECT && t[2..] == rest;
  }

  lemma ReadArrayBody(body: seq<byte>, rest: seq<byte>)
    requires body != [] && body[0] != CLOSE_ARRAY && ReadItems(body + [CLOSE_ARRAY] + rest).Some?
    ensures var r := ReadItems(body + [CLOSE_ARRAY] + rest).value;
            ReadValue([OPEN_ARRAY] + (body + [CLOSE_ARRAY]) + rest) == Some((Array(r.0), r.1))
  {
    hide ReadItems, ReadMembers, ReadNumber, ReadString;
    var s := [OPEN_ARRAY] + (body + [CLOSE_ARRAY]) + rest;
    assert s[0] == OPEN_ARRAY && s[1] == body[0] && s[1..] == body + [CLOSE_ARRAY] + rest;
  }

  lemma ReadObjectBody(body: seq<byte>, rest: seq<byte>)
    requires body != [] && body[0] != CLOSE_OBJECT && ReadMembers(body + [CLOSE_OBJECT] + rest).Some?
    ensures var r := ReadMembers(body + [CLOSE_OBJECT] + rest).value;
            ReadValue([OPEN_OBJECT] + (body + [CLOSE_OBJECT]) + rest) == Some((Object(r.0), r.1))
  {
    hide ReadItems, ReadMembers, ReadNumber, ReadString;
    var s := [OPEN_OBJECT] + (body + [CLOSE_OBJECT]) + rest;
    assert s[0] == OPEN_OBJECT && s[1] == body[0] && s[1..] == body + [CLOSE_OBJECT] + rest;
  }

  /** A list of elements read element by element. */
  lemma ReadLastItem(head: seq<byte>, v: Json, rest: seq<byte>)
    requires ReadValue(head + ([CLOSE_ARRAY] + rest)) == Some((v, [CLOSE_ARRAY] + rest))
    ensures ReadItems(head + [CLOSE_ARRAY] + rest) == Some(([v], rest))
  {
    hide ReadValue;
    assert head + [CLOSE_ARRAY] + rest == head + ([CLOSE_ARRAY] + rest);
    assert ([CLOSE_ARRAY] + rest)[1..] == rest;
  }

  lemma ReadFirstItem(head: seq<byte>, v: Json, tail: seq<byte>, items: seq<Json>, rest: seq<byte>)
    requires ReadValue(head + ([COMMA] + tail)) == Some((v, [COMMA] + tail)) && ReadItems(tail) == Some((items, rest))
    ensures ReadItems(head + ([COMMA] + tail)) == Some(([v] + items, rest))
  {
    hide ReadValue;
    assert ([COMMA] + tail)[1..] == tail;
  }

  lemma {:induction false} ArrayIsReadBack(v: Json, rest: seq<byte>)
    requires v.Array? && InDomain(v)
    ensures ReadValue(Emit(v) + rest) == Some((v, rest))
    decreases v, 1
  {
    var items := v.items;
    EmitArray(v);
    hide Emit, ReadValue, ReadItems;
    if items == [] {
      ReadEmptyBodies(rest);
    } else {
      ItemsAreReadBack(v, items, rest);
      EmittedLead(items[0]);
      assert Join(ItemParts(items), COMMA)[0] == Emit(items[0])[0];
      ReadArrayBody(Join(ItemParts(items), COMMA), rest);
    }
  }

  lemma {:induction false} ItemsAreReadBack(v: Json, items: seq<Json>, rest: seq<byte>)
    requires items != [] && forall i :: 0 <= i < |items| ==> items[i] < v && InDomain(items[i])
    ensures ReadItems(Join(ItemParts(items), COMMA) + [CLOSE_ARRAY] + rest) == Some((items, rest))
    ensures Join(ItemParts(items), COMMA) != [] && Emit(items[0]) <= Join(ItemParts(items), COMMA)
    decreases v, 0, |items|
  {
    hide Emit, ReadValue, ReadItems, InDomain;
    EmittedLead(items[0]);
    var head := Emit(items[0]);
    if |items| == 1 {
      ValueIsReadBack(items[0], [CLOSE_ARRAY] + rest);
      ReadLastItem(head, items[0], rest);
      assert items == [items[0]];
    } else {
      var more := Join(ItemParts(items[1..]), COMMA);
      var tail := more + [CLOSE_ARRAY] + rest;
      assert ItemParts(items)[1..] == ItemParts(items[1..]);
      assert Join(ItemParts(items), COMMA) == head + [COMMA] + more;
      assert head + [COMMA] + more + [CLOSE_ARRAY] + rest == head + ([COMMA] + tail);
      hide Join;
      ValueIsReadBack(items[0], [COMMA] + tail);
      ItemsAreReadBack(v, items[1..], rest);
      ReadFirstItem(head, items[0], tail, items[1..], rest);
      assert items == [items[0]] + items[1..];
    }
  }

  lemma {:induction false} MemberIsReadBack(v: Json, key: Text, rest: seq<byte>)
    requires v.Object? && key in v.members && InDomain(v.members[key]) && Terminated(rest)
    ensures ReadMember(StringBytes(key) + ([COLON] + Emit(v.members[key])) + rest) == Some((key, v.members[key], rest))
    decreases v, 0, 0
  {
    hide Emit, Escaped, ReadString, ReadValue;
    var value := v.members[key];
    var s := StringBytes(key) + ([COLON] + Emit(value)) + rest;
    var after := [COLON] + (Emit(value) + rest);
    StringIsReadBack(key, after);
    assert s[1..] == Escaped(key) + [QUOTE] + after;
    ValueIsReadBack(value, rest);
    assert after[1..] == Emit(value) + rest;
  }

  lemma ReadLastMember(head: seq<byte>, key: Text, v: Json, rest: seq<byte>)
    requires ReadMember(head + ([CLOSE_OBJECT] + rest)) == Some((key, v, [CLOSE_OBJECT] + rest))
    ensures ReadMembers(head + [CLOSE_OBJECT] + rest) == Some((map[key := v], rest))
  {
    hide ReadMember;
    assert head + [CLOSE_OBJECT] + rest == head + ([CLOSE_OBJECT] + rest);
    assert ([CLOSE_OBJECT] + rest)[1..] == rest;
  }

  lemma ReadFirstMember(head: seq<byte>, key: Text, v: Json, tail: seq<byte>, members: map<Text, Json>, rest: seq<byte>)
    requires ReadMember(head + ([COMMA] + tail)) == Some((key, v, [COMMA] + tail))
    requires ReadMembers(tail) == Some((members, rest)) && key !in members
    ensures ReadMembers(head + ([COMMA] + tail)) == Some((members[key := v], rest))
  {
    hide ReadMember;
    assert ([COMMA] + tail)[1..] == tail;
  }

  lemma FirstKeyIsNew(members: map<Text, Json>, keys: seq<Text>)
    requires keys != [] && (forall k :: k in keys ==> k in members) && Sorted(keys)
    ensures keys[0] !in keys[1..]
    ensures (map k | k in keys[1..] :: members[k])[keys[0] := members[keys[0]]] == map k | k in keys :: members[k]
  {
    hide KeyLess;
    KeyOrderIsStrict(keys[0], keys[0], keys[0]);
    assert keys == [keys[0]] + keys[1..];
  }

  lemma {:induction false} MembersAreReadBack(v: Json, keys: seq<Text>, rest: seq<byte>)
    requires v.Object? && keys != [] && Sorted(keys)
    requires forall k :: k in keys ==> k in v.members && InDomain(v.members[k])
    ensures ReadMembers(Join(MemberParts(v, keys), COMMA) + [CLOSE_OBJECT] + rest) ==
            Some((map k | k in keys :: v.members[k], rest))
    decreases v, 0, |keys|
  {
    hide Emit, StringBytes, ReadMember, ReadMembers, KeyLess, InDomain;
    var parts := MemberParts(v, keys);
    var head, value := parts[0], v.members[keys[0]];
    if |keys| == 1 {
      MemberIsReadBack(v, keys[0], [CLOSE_OBJECT] + rest);
      ReadLastMember(head, keys[0], value, rest);
      assert keys == [keys[0]];
      assert (map k | k in keys :: v.members[k]) == map[keys[0] := value];
    } else {
      var more := Join(MemberParts(v, keys[1..]), COMMA);
      var tail := more + [CLOSE_OBJECT] + rest;
      assert parts[1..] == MemberParts(v, keys[1..]);
      assert Join(parts, COMMA) == head + [COMMA] + more;
      assert head + [COMMA] + more + [CLOSE_OBJECT] + rest == head + ([COMMA] + tail);
      hide Join;
      MemberIsReadBack(v, keys[0], [COMMA] + tail);
      MembersAreReadBack(v, keys[1..], rest);
      FirstKeyIsNew(v.members, keys);
      ReadFirstMember(head, keys[0], value, tail, map k | k in keys[1..] :: v.members[k], rest);
    }
  }

  lemma {:induction false} ObjectIsReadBack(v: Json, rest: seq<byte>)
    requires v.Object? && InDomain(v)
    ensures ReadValue(Emit(v) + rest) == Some((v, rest))
    decreases v, 1
  {
    hide KeyLess, ReadValue, ReadMembers;
    var keys := KeysInOrder(v.members.Keys);
    var body := Join(MemberParts(v, keys), COMMA);
    assert Emit(v) == [OPEN_OBJECT] + (body + [CLOSE_OBJECT]);
    hide Emit;
    if keys == [] {
      assert forall k :: k !in v.members;
      assert v.members == map[] && MemberParts(v, keys) == [];
      ReadEmptyBodies(rest);
    } else {
      MembersAreReadBack(v, keys, rest);
      assert (map k | k in keys :: v.members[k]) == v.members;
      assert body != [] && body[0] == QUOTE by { assert MemberParts(v, keys)[0][0] == QUOTE; }
      ReadObjectBody(body, rest);
    }
  }

  /** Reading canonical bytes gives back the document, with nothing left over. */
  lemma DocumentIsReadBack(v: Json)
    requires InDomain(v)
    ensures ReadValue(Emit(v)) == Some((v, []))
  {
    ValueIsReadBack(v, []);
    assert Emit(v) + [] == Emit(v);
  }

  /** Equal canonical bytes mean equal documents. */
  lemma CanonicalBytesIdentifyTheDocument(a: Json, b: Json)
    requires InDomain(a) && InDomain(b)
    ensures Emit(a) == Emit(b) <==> a == b
  {
    DocumentIsReadBack(a);
    DocumentIsReadBack(b);
  }
}
