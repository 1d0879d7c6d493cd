/** `jcs_bytes`: emitting the canonical form into an output buffer. */
module JsonWriter {
  import opened Prelude
  import opened Wire
  import opened Utf16
  import opened CanonicalJson
  import Utf8
  import Decimal

  /** `write_string`. */
  method WriteString(text: Text, output: Output)
    modifies output
    ensures output.bytes == old(output.bytes) + StringBytes(text)
  {
    hide Escape;
    output.Push(QUOTE);
    for i := 0 to |text|
      invariant output.bytes == old(output.bytes) + [QUOTE] + Escaped(text[..i])
    {
      WriteCharacter(text[i], output);
      assert text[..i + 1] == text[..i] + [text[i]];
      EscapedAppend(text[..i], text[i]);
    }
    assert text[..|text|] == text;
    output.Push(QUOTE);
  }

  /** The escape table. */
  method WriteCharacter(character: Utf8.Scalar, output: Output)
    modifies output
    ensures output.bytes == old(output.bytes) + Escape(character)
  {
    if character == 0x22 {
      output.Extend([BACKSLASH, QUOTE]);
    } else if character == 0x5C {
      output.Extend([BACKSLASH, BACKSLASH]);
    } else if character == 0x08 {
      output.Extend([BACKSLASH, 0x62]);
    } else if character == 0x09 {
      output.Extend([BACKSLASH, 0x74]);
    } else if character == 0x0A {
      output.Extend([BACKSLASH, 0x6E]);
    } else if character == 0x0C {
      output.Extend([BACKSLASH, 0x66]);
    } else if character == 0x0D {
      output.Extend([BACKSLASH, 0x72]);
    } else if character < 0x20 {
      output.Extend([BACKSLASH, 0x75, 0x30, 0x30, HexDigit(character / 16), HexDigit(character % 16)]);
    } else {
      output.Extend(Utf8.EncodeScalar(character));
    }
  }

  /** `map.keys()`: every key once, in whatever order the map yields them. */
  method CollectKeys(members: map<Text, Json>) returns (keys: seq<Text>)
    ensures forall k :: k in keys <==> k in members
    ensures forall i, j :: 0 <= i < j < |keys| ==> keys[i] != keys[j]
  {
    keys := [];
    var left := members.Keys;
    while left != {}
      invariant left <= members.Keys
      invariant forall k :: k in keys <==> k in members.Keys - left
      invariant forall i, j :: 0 <= i < j < |keys| ==> keys[i] != keys[j]
      decreases left
    {
      var k :| k in left;
      assert k !in keys;
      keys := keys + [k];
      left := left - {k};
    }
  }

  /** `sort_by` on distinct keys, as insertion of each key into what is sorted already. */
  method SortKeys(keys: seq<Text>) returns (sorted: seq<Text>)
    requires forall i, j :: 0 <= i < j < |keys| ==> keys[i] != keys[j]
    ensures Sorted(sorted) && forall k :: k in sorted <==> k in keys
  {
    hide KeyLess;
    sorted := [];
    for i := 0 to |keys|
      invariant Sorted(sorted) && forall k :: k in sorted <==> k in keys[..i]
    {
      assert keys[..i + 1] == keys[..i] + [keys[i]];
      assert keys[i] !in keys[..i];
      sorted := InsertKey(sorted, keys[i]);
    }
    assert keys[..|keys|] == keys;
  }

  method InsertKey(sorted: seq<Text>, key: Text) returns (r: seq<Text>)
    requires Sorted(sorted) && key !in sorted
    ensures Sorted(r) && forall k :: k in r <==> k in sorted || k == key
  {
    hide KeyLess;
    var at := 0;
    while at < |sorted| && KeyLess(sorted[at], key)
      invariant at <= |sorted| && forall i :: 0 <= i < at ==> KeyLess(sorted[i], key)
    {
      at := at + 1;
    }
    forall i | at <= i < |sorted| ensures KeyLess(key, sorted[i]) {
      assert sorted[at] in sorted && sorted[at] != key;
      KeyOrderIsStrict(key, sorted[at], sorted[i]);
    }
    r := sorted[..at] + [key] + sorted[at..];
    assert sorted == sorted[..at] + sorted[at..];
  }

  method WriteNumber(number: Number, output: Output) returns (r: Result<(), ErrorCategory>)
    modifies output
    ensures r == (if Fault(number).None? then Ok(()) else Err(Fault(number).value))
    ensures r.Ok? ==> output.bytes == old(output.bytes) + IntegerBytes(number.value)
  {
    match number {
      case NonInteger => return Err(NonIntegerNumber);
      case Integer(n) => {
        if n >= 0 {
          if n > MAX_CANONICAL_INTEGER {
            return Err(IntegerRange);
          }
          output.Extend(Decimal.Numeral(n));
        } else {
          if -n > MAX_CANONICAL_INTEGER {
            return Err(IntegerRange);
          }
          output.Extend([MINUS] + Decimal.Numeral(-n));
        }
        return Ok(());
      }
    }
  }

  /** `write_value`: the canonical bytes of a document in the domain; otherwise a fault it really has. */
  method WriteValue(value: Json, output: Output) returns (r: Result<(), ErrorCategory>)
    modifies output
    ensures r.Ok? <==> InDomain(value)
    ensures r.Ok? ==> output.bytes == old(output.bytes) + Emit(value)
    ensures r.Err? ==> HasFault(value, r.error)
    decreases value, 1
  {
    match value {
      case Null => output.Extend(NULL);
      case Bool(flag) => output.Extend(if flag then TRUE else FALSE);
      case Num(number) => {
        r := WriteNumber(number, output);
        return;
      }
      case Str(text) => WriteString(text, output);
      case Array(items) => {
        r := WriteArray(value, output);
        return;
      }
      case Object(members) => {
        r := WriteObject(value, output);
        return;
      }
    }
    return Ok(());
  }

  lemma JoinNothing(parts: seq<seq<byte>>)
    ensures Join(parts[..0], COMMA) == []
  {
  }

  /** One more part after a comma, unless it is the first. */
  lemma JoinStep(front: seq<byte>, parts: seq<seq<byte>>, i: nat)
    requires i < |parts|
    ensures (if i > 0 then front + Join(parts[..i], COMMA) + [COMMA] else front + Join(parts[..i], COMMA)) + parts[i]
            == front + Join(parts[..i + 1], COMMA)
  {
    hide Join;
    var joined := Join(parts[..i], COMMA);
    JoinAppend(parts[..i], parts[i], COMMA);
    assert parts[..i + 1] == parts[..i] + [parts[i]];
    if i == 0 {
      JoinNothing(parts);
      assert front + joined == front;
    } else {
      assert front + joined + [COMMA] + parts[i] == front + (joined + [COMMA] + parts[i]);
    }
  }

  lemma ItemPart(items: seq<Json>, i: nat)
    requires i < |items|
    ensures ItemParts(items)[i] == Emit(items[i])
  {
    hide Emit;
  }

  /** The elements, separated by commas. */
  method WriteItems(value: Json, output: Output) returns (r: Result<(), ErrorCategory>)
    requires value.Array?
    modifies output
    ensures r.Ok? <==> forall i :: 0 <= i < |value.items| ==> InDomain(value.items[i])
    ensures r.Ok? ==> output.bytes == old(output.bytes) + Join(ItemParts(value.items), COMMA)
    ensures r.Err? ==> exists i :: 0 <= i < |value.items| && HasFault(value.items[i], r.error)
    decreases value, 0, 0
  {
    var items := value.items;
    ghost var parts := ItemParts(items);
    hide Emit, ItemParts, Join, InDomain, HasFault;
    JoinNothing(parts);
    for index := 0 to |items|
      invariant forall i :: 0 <= i < index ==> InDomain(items[i])
      invariant output.bytes == old(output.bytes) + Join(parts[..index], COMMA)
    {
      if index > 0 {
        output.Push(COMMA);
      }
      r := WriteValue(items[index], output);
      if r.Err? {
        return;
      }
      ItemPart(items, index);
      JoinStep(old(output.bytes), parts, index);
    }
    assert parts[..|items|] == parts;
    return Ok(());
  }

  method WriteArray(value: Json, output: Output) returns (r: Result<(), ErrorCategory>)
    requires value.Array?
    modifies output
    ensures r.Ok? <==> InDomain(value)
    ensures r.Ok? ==> output.bytes == old(output.bytes) + Emit(value)
    ensures r.Err? ==> HasFault(value, r.error)
    decreases value, 0, 1
  {
    EmitArray(value);
    hide Emit, Join, ItemParts;
    output.Push(OPEN_ARRAY);
    r := WriteItems(value, output);
    if r.Err? {
      return;
    }
    output.Push(CLOSE_ARRAY);
  }

  /** One `"key":value`. */
  method WriteMember(value: Json, key: Text, output: Output) returns (r: Result<(), ErrorCategory>)
    requires value.Object? && key in value.members
    modifies output
    ensures r.Ok? <==> InDomain(value.members[key])
    ensures r.Ok? ==> output.bytes == old(output.bytes) + (StringBytes(key) + ([COLON] + Emit(value.members[key])))
    ensures r.Err? ==> HasFault(value.members[key], r.error)
    decreases value, 0, 0
  {
    hide Emit, StringBytes;
    WriteString(key, output);
    output.Push(COLON);
    r := WriteValue(value.members[key], output);
  }

  lemma MemberPart(value: Json, keys: seq<Text>, i: nat)
    requires value.Object? && (forall k :: k in keys ==> k in value.members) && i < |keys|
    ensures MemberParts(value, keys)[i] == StringBytes(keys[i]) + ([COLON] + Emit(value.members[keys[i]]))
  {
    hide StringBytes, Emit;
  }

  /** One more member, after a comma unless it is the first. */
  method WriteNextMember(value: Json, keys: seq<Text>, index: nat, ghost front: seq<byte>, output: Output)
    returns (r: Result<(), ErrorCategory>)
    requires value.Object? && (forall k :: k in keys ==> k in value.members) && index < |keys|
    requires output.bytes == front + Join(MemberParts(value, keys)[..index], COMMA)
    modifies output
    ensures r.Ok? <==> InDomain(value.members[keys[index]])
    ensures r.Ok? ==> output.bytes == front + Join(MemberParts(value, keys)[..index + 1], COMMA)
    ensures r.Err? ==> HasFault(value.members[keys[index]], r.error)
    decreases value, 0, 1
  {
    hide *;
    if index > 0 {
      output.Push(COMMA);
    }
    r := WriteMember(value, keys[index], output);
    MemberPart(value, keys, index);
    JoinStep(front, MemberParts(value, keys), index);
  }

  /** The members under these keys, separated by commas. */
  method WriteMembers(value: Json, keys: seq<Text>, output: Output) returns (r: Result<(), ErrorCategory>)
    requires value.Object? && forall k :: k in keys ==> k in value.members
    modifies output
    ensures r.Ok? <==> forall i :: 0 <= i < |keys| ==> InDomain(value.members[keys[i]])
    ensures r.Ok? ==> output.bytes == old(output.bytes) + Join(MemberParts(value, keys), COMMA)
    ensures r.Err? ==> exists i :: 0 <= i < |keys| && HasFault(value.members[keys[i]], r.error)
    decreases value, 0, 2
  {
    hide *;
    ghost var parts := MemberParts(value, keys);
    JoinNothing(parts);
    for index := 0 to |keys|
      invariant forall i :: 0 <= i < index ==> InDomain(value.members[keys[i]])
      invariant output.bytes == old(output.bytes) + Join(parts[..index], COMMA)
    {
      r := WriteNextMember(value, keys, index, old(output.bytes), output);
      if r.Err? {
        return;
      }
    }
    assert parts[..|keys|] == parts;
    return Ok(());
  }

  method WriteObject(value: Json, output: Output) returns (r: Result<(), ErrorCategory>)
    requires value.Object?
    modifies output
    ensures r.Ok? <==> InDomain(value)
    ensures r.Ok? ==> output.bytes == old(output.bytes) + Emit(value)
    ensures r.Err? ==> HasFault(value, r.error)
    decreases value, 0, 3
  {
    hide KeyLess, MemberParts, Join;
    var members := value.members;
    var collected := CollectKeys(members);
    var keys := SortKeys(collected);
    SortedIsUnique(keys, KeysInOrder(members.Keys));
    assert Emit(value) == [OPEN_OBJECT] + (Join(MemberParts(value, keys), COMMA) + [CLOSE_OBJECT]);
    hide Emit;
    assert forall k :: k in members ==> k in keys;
    output.Push(OPEN_OBJECT);
    r := WriteMembers(value, keys, output);
    if r.Err? {
      return;
    }
    output.Push(CLOSE_OBJECT);
  }

  /** `jcs_bytes`: all the canonical bytes, or an error and none. */
  method JcsBytes(tree: Json) returns (r: Result<seq<byte>, ErrorCategory>)
    ensures r.Ok? <==> !HasFault(tree, NonIntegerNumber) && !HasFault(tree, IntegerRange)
    ensures r.Ok? ==> r.value == Emit(tree)
    ensures r.Err? ==> HasFault(tree, r.error)
  {
    hide Emit;
    DomainHasNoFault(tree);
    var output := new Output();
    var written := WriteValue(tree, output);
    if written.Err? {
      return Err(written.error);
    }
    assert [] + Emit(tree) == Emit(tree);
    return Ok(output.bytes);
  }
}
