/**
 The search for the fields of an attachment reference in a JSON value of unknown shape: by several
 names, in depth and in order, until something that is no object is found.
 */
module BlobReference {
  import opened Basics
  import opened Json
  import opened CborJson

  // ---------- the search ----------

  function Get(members: seq<Member>, name: string): (r: Option<Json>)
    ensures r.Some? ==> exists i :: 0 <= i < |members| && members[i] == Member(name, r.value)
  {
    if members == [] then None
    else if members[0].name == name then Some(members[0].value)
    else
      var r := Get(members[1..], name);
      assert r.Some? ==> forall i :: 0 <= i < |members| - 1 ==> members[1..][i] == members[i + 1];
      r
  }

  /** The member of the first of the names that the object has. */
  function GetAny(members: seq<Member>, names: seq<string>): (r: Option<Json>)
    ensures r.Some? ==> exists i :: 0 <= i < |members| && members[i].value == r.value
  {
    if names == [] then None
    else
      match Get(members, names[0])
      case Some(v) => Some(v)
      case None => GetAny(members, names[1..])
  }

  function Own(j: Json, names: seq<string>): Option<Json> {
    if j.Object? then GetAny(j.members, names) else None
  }

  function FindValue(j: Json, names: seq<string>): Option<Json>
    decreases j, 1, 0
  {
    match j
    case Object(members) =>
      (match GetAny(members, names)
       case Some(v) => Some(v)
       case None => FindInMembers(j, names, 0))
    case Array(_) => FindInItems(j, names, 0)
    case _ => None
  }

  function FindInMembers(j: Json, names: seq<string>, i: nat): Option<Json>
    requires j.Object? && i <= |j.members|
    decreases j, 0, |j.members| - i
  {
    if i == |j.members| then None
    else
      match FindValue(j.members[i].value, names)
      case Some(v) => Some(v)
      case None => FindInMembers(j, names, i + 1)
  }

  function FindInItems(j: Json, names: seq<string>, i: nat): Option<Json>
    requires j.Array? && i <= |j.items|
    decreases j, 0, |j.items| - i
  {
    if i == |j.items| then None
    else
      match FindValue(j.items[i], names)
      case Some(v) => Some(v)
      case None => FindInItems(j, names, i + 1)
  }

  // ---------- reference: list all values in pre-order, then take the first match ----------

  function PreOrder(j: Json): (r: seq<Json>)
    ensures r != [] && r[0] == j
    decreases j, 1, 0
  {
    [j] + if j.Object? then PreOrderMembers(j, 0) else if j.Array? then PreOrderItems(j, 0) else []
  }

  function PreOrderMembers(j: Json, i: nat): seq<Json>
    requires j.Object? && i <= |j.members|
    decreases j, 0, |j.members| - i
  {
    if i == |j.members| then [] else PreOrder(j.members[i].value) + PreOrderMembers(j, i + 1)
  }

  function PreOrderItems(j: Json, i: nat): seq<Json>
    requires j.Array? && i <= |j.items|
    decreases j, 0, |j.items| - i
  {
    if i == |j.items| then [] else PreOrder(j.items[i]) + PreOrderItems(j, i + 1)
  }

  function FirstMatch(values: seq<Json>, names: seq<string>): Option<Json> {
    if values == [] then None
    else
      match Own(values[0], names)
      case Some(v) => Some(v)
      case None => FirstMatch(values[1..], names)
  }

  lemma {:induction false} FirstMatchAppend(a: seq<Json>, b: seq<Json>, names: seq<string>)
    ensures FirstMatch(a + b, names)
            == if FirstMatch(a, names).Some? then FirstMatch(a, names) else FirstMatch(b, names)
  {
    if a == [] {
      assert a + b == b;
    } else {
      FirstMatchAppend(a[1..], b, names);
      assert (a + b)[1..] == a[1..] + b;
    }
  }

  /** The search finds the first match in pre-order, and of several names in one object the first named. */
  lemma {:induction false} FindValueIs(j: Json, names: seq<string>)
    ensures FindValue(j, names) == FirstMatch(PreOrder(j), names)
    decreases j, 1, 0
  {
    if j.Object? {
      FindInMembersIs(j, names, 0);
      assert PreOrder(j)[1..] == PreOrderMembers(j, 0);
    } else if j.Array? {
      FindInItemsIs(j, names, 0);
      assert PreOrder(j)[1..] == PreOrderItems(j, 0);
    } else {
      assert PreOrder(j)[1..] == [];
    }
  }

  lemma {:induction false} FindInMembersIs(j: Json, names: seq<string>, i: nat)
    requires j.Object? && i <= |j.members|
    ensures FindInMembers(j, names, i) == FirstMatch(PreOrderMembers(j, i), names)
    decreases j, 0, |j.members| - i
  {
    if i < |j.members| {
      FindValueIs(j.members[i].value, names);
      FindInMembersIs(j, names, i + 1);
      FirstMatchAppend(PreOrder(j.members[i].value), PreOrderMembers(j, i + 1), names);
    }
  }

  lemma {:induction false} FindInItemsIs(j: Json, names: seq<string>, i: nat)
    requires j.Array? && i <= |j.items|
    ensures FindInItems(j, names, i) == FirstMatch(PreOrderItems(j, i), names)
    decreases j, 0, |j.items| - i
  {
    if i < |j.items| {
      FindValueIs(j.items[i], names);
      FindInItemsIs(j, names, i + 1);
      FirstMatchAppend(PreOrder(j.items[i]), PreOrderItems(j, i + 1), names);
    }
  }

  ghost predicate HasAny(j: Json, names: seq<string>) {
    j.Object? && exists i, k :: 0 <= i < |j.members| && 0 <= k < |names| && j.members[i].name == names[k]
  }

  lemma {:induction false} GetIff(members: seq<Member>, name: string)
    ensures Get(members, name).Some? <==> exists i :: 0 <= i < |members| && members[i].name == name
  {
    if members != [] && members[0].name != name {
      GetIff(members[1..], name);
      if i :| 0 <= i < |members| && members[i].name == name {
        assert members[1..][i - 1].name == name;
      }
    }
  }

  lemma {:induction false} GetAnyIff(members: seq<Member>, names: seq<string>)
    ensures GetAny(members, names).Some? <==> HasAny(Object(members), names)
  {
    if names != [] {
      GetIff(members, names[0]);
      GetAnyIff(members, names[1..]);
      if i, k :| 0 <= i < |members| && 0 <= k < |names| && members[i].name == names[k] {
        if k > 0 {
          assert names[1..][k - 1] == names[k];
        }
      }
      if i, k :| 0 <= i < |members| && 0 <= k < |names[1..]| && members[i].name == names[1..][k] {
        assert names[k + 1] == names[1..][k];
      }
    }
  }

  lemma {:induction false} FirstMatchIff(values: seq<Json>, names: seq<string>)
    ensures FirstMatch(values, names).Some? <==> exists v :: v in values && HasAny(v, names)
  {
    if values != [] {
      FirstMatchIff(values[1..], names);
      if values[0].Object? {
        GetAnyIff(values[0].members, names);
      }
    }
  }

  /** Something is found exactly if some object anywhere in the value has one of the names. */
  lemma {:induction false} FoundIff(j: Json, names: seq<string>)
    ensures FindValue(j, names).Some? <==> exists v :: v in PreOrder(j) && HasAny(v, names)
  {
    FindValueIs(j, names);
    FirstMatchIff(PreOrder(j), names);
  }

  // ---------- what is found lies strictly inside ----------

  /** All values strictly inside, in pre-order. */
  function Inside(j: Json): seq<Json> {
    PreOrder(j)[1..]
  }

  lemma {:induction false} InsideIs(j: Json)
    ensures Inside(j) == if j.Object? then PreOrderMembers(j, 0) else if j.Array? then PreOrderItems(j, 0) else []
  {
  }

  lemma {:induction false} MemberInside(j: Json, i: nat, k: nat)
    requires j.Object? && i <= k < |j.members|
    ensures forall v :: v in PreOrder(j.members[k].value) ==> v in PreOrderMembers(j, i)
    decreases k - i
  {
    if i < k {
      MemberInside(j, i + 1, k);
    }
  }

  /** What is found is one of the values strictly inside. */
  lemma {:induction false} FoundInside(j: Json, names: seq<string>)
    ensures FindValue(j, names).Some? ==> FindValue(j, names).value in Inside(j)
    decreases j, 1, 0
  {
    InsideIs(j);
    if j.Object? {
      if GetAny(j.members, names).Some? {
        var k :| 0 <= k < |j.members| && j.members[k].value == GetAny(j.members, names).value;
        MemberInside(j, 0, k);
        assert PreOrder(j.members[k].value)[0] == j.members[k].value;
      } else {
        FoundInMembers(j, names, 0);
      }
    } else if j.Array? {
      FoundInItems(j, names, 0);
    }
  }

  lemma {:induction false} FoundInMembers(j: Json, names: seq<string>, i: nat)
    requires j.Object? && i <= |j.members|
    ensures FindInMembers(j, names, i).Some? ==> FindInMembers(j, names, i).value in PreOrderMembers(j, i)
    decreases j, 0, |j.members| - i
  {
    if i < |j.members| {
      FoundInside(j.members[i].value, names);
      FoundInMembers(j, names, i + 1);
    }
  }

  lemma {:induction false} FoundInItems(j: Json, names: seq<string>, i: nat)
    requires j.Array? && i <= |j.items|
    ensures FindInItems(j, names, i).Some? ==> FindInItems(j, names, i).value in PreOrderItems(j, i)
    decreases j, 0, |j.items| - i
  {
    if i < |j.items| {
      FoundInside(j.items[i], names);
      FoundInItems(j, names, i + 1);
    }
  }

  function Size(j: Json): nat
    decreases j, 1, 0
  {
    1 + if j.Object? then SizeMembers(j, 0) else if j.Array? then SizeItems(j, 0) else 0
  }

  function SizeMembers(j: Json, i: nat): nat
    requires j.Object? && i <= |j.members|
    decreases j, 0, |j.members| - i
  {
    if i == |j.members| then 0 else Size(j.members[i].value) + SizeMembers(j, i + 1)
  }

  function SizeItems(j: Json, i: nat): nat
    requires j.Array? && i <= |j.items|
    decreases j, 0, |j.items| - i
  {
    if i == |j.items| then 0 else Size(j.items[i]) + SizeItems(j, i + 1)
  }

  /** Everything inside is smaller than the whole. */
  lemma {:induction false} InsideSmaller(j: Json, v: Json)
    requires v in Inside(j)
    ensures Size(v) < Size(j)
    decreases j, 1, 0
  {
    InsideIs(j);
    if j.Object? {
      AmongMembers(j, v, 0);
    } else if j.Array? {
      AmongItems(j, v, 0);
    }
  }

  lemma {:induction false} AmongMembers(j: Json, v: Json, i: nat)
    requires j.Object? && i <= |j.members| && v in PreOrderMembers(j, i)
    ensures Size(v) <= SizeMembers(j, i)
    decreases j, 0, |j.members| - i
  {
    if v in PreOrder(j.members[i].value) {
      if v != j.members[i].value {
        assert v in Inside(j.members[i].value);
        InsideSmaller(j.members[i].value, v);
      }
    } else {
      AmongMembers(j, v, i + 1);
    }
  }

  lemma {:induction false} AmongItems(j: Json, v: Json, i: nat)
    requires j.Array? && i <= |j.items| && v in PreOrderItems(j, i)
    ensures Size(v) <= SizeItems(j, i)
    decreases j, 0, |j.items| - i
  {
    if v in PreOrder(j.items[i]) {
      if v != j.items[i] {
        assert v in Inside(j.items[i]);
        InsideSmaller(j.items[i], v);
      }
    } else {
      AmongItems(j, v, i + 1);
    }
  }

  /** What is found is smaller, so the extraction below ends. */
  lemma {:induction false} FoundSmaller(j: Json, names: seq<string>)
    ensures FindValue(j, names).Some? ==> Size(FindValue(j, names).value) < Size(j)
  {
    if FindValue(j, names).Some? {
      FoundInside(j, names);
      InsideSmaller(j, FindValue(j, names).value);
    }
  }

  /** What lies inside something inside lies inside. */
  lemma {:induction false} InsideTransitive(j: Json, v: Json, w: Json)
    requires v in PreOrder(j) && w in PreOrder(v)
    ensures w in PreOrder(j)
    decreases j, 1, 0
  {
    if v != j {
      assert v in Inside(j);
      InsideIs(j);
      if j.Object? {
        InsideMembers(j, v, w, 0);
      } else if j.Array? {
        InsideItems(j, v, w, 0);
      }
    }
  }

  lemma {:induction false} InsideMembers(j: Json, v: Json, w: Json, i: nat)
    requires j.Object? && i <= |j.members| && v in PreOrderMembers(j, i) && w in PreOrder(v)
    ensures w in PreOrderMembers(j, i)
    decreases j, 0, |j.members| - i
  {
    if v in PreOrder(j.members[i].value) {
      InsideTransitive(j.members[i].value, v, w);
    } else {
      InsideMembers(j, v, w, i + 1);
    }
  }

  lemma {:induction false} InsideItems(j: Json, v: Json, w: Json, i: nat)
    requires j.Array? && i <= |j.items| && v in PreOrderItems(j, i) && w in PreOrder(v)
    ensures w in PreOrderItems(j, i)
    decreases j, 0, |j.items| - i
  {
    if v in PreOrder(j.items[i]) {
      InsideTransitive(j.items[i], v, w);
    } else {
      InsideItems(j, v, w, i + 1);
    }
  }

  // ---------- extraction ----------

  const OBJECT_KEY_NAMES: seq<string> := ["object_key", "objectKey", "key", "path", "value"]

  const FILE_KEY_NAMES: seq<string> := ["file_key", "fileKey", "bytes", "data", "value"]

  /** An array of numbers from 0 to 255. */
  function JsonArrayToBytes(items: seq<Json>): Option<Bytes> {
    if items == [] then Some([])
    else
      match items[0]
      case Num(PosInt(u)) =>
        (if u > 255 then None
         else
           match JsonArrayToBytes(items[1..])
           case None => None
           case Some(rest) => Some([u] + rest))
      case _ => None
  }

  /** Decoding of UTF-8 and of base64 is left to the libraries. */
  datatype Decoders = Decoders(utf8: Bytes -> Option<string>, base64: string -> Option<Bytes>)

  function ExtractText(j: Json, d: Decoders): Option<string>
    decreases Size(j)
  {
    match j
    case Text(s) => Some(s)
    case Array(items) =>
      (match JsonArrayToBytes(items)
       case None => None
       case Some(bytes) => d.utf8(bytes))
    case Object(_) =>
      FoundSmaller(j, OBJECT_KEY_NAMES);
      (match FindValue(j, OBJECT_KEY_NAMES)
       case None => None
       case Some(v) => ExtractText(v, d))
    case _ => None
  }

  function ExtractBytes(j: Json, d: Decoders): Option<Bytes>
    decreases Size(j)
  {
    match j
    case Array(items) => JsonArrayToBytes(items)
    case Text(s) => d.base64(s)
    case Object(_) =>
      FoundSmaller(j, FILE_KEY_NAMES);
      (match FindValue(j, FILE_KEY_NAMES)
       case None => None
       case Some(v) => ExtractBytes(v, d))
    case _ => None
  }

  /** Where repeated search ends: the first value on the way that is not an object. */
  function Leaf(j: Json, names: seq<string>): (r: Option<Json>)
    decreases Size(j)
  {
    FoundSmaller(j, names);
    if !j.Object? then Some(j)
    else
      match FindValue(j, names)
      case None => None
      case Some(v) => Leaf(v, names)
  }

  /** Text extraction: the text where the search ends, or the UTF-8 of an array of bytes there. */
  lemma {:induction false} ExtractFromLeaf(j: Json, d: Decoders)
    ensures ExtractText(j, d)
         == match Leaf(j, OBJECT_KEY_NAMES)
            case Some(Text(s)) => Some(s)
            case Some(Array(items)) =>
              if JsonArrayToBytes(items).Some? then d.utf8(JsonArrayToBytes(items).value) else None
            case _ => None
    decreases Size(j)
  {
    if j.Object? && FindValue(j, OBJECT_KEY_NAMES).Some? {
      FoundSmaller(j, OBJECT_KEY_NAMES);
      ExtractFromLeaf(FindValue(j, OBJECT_KEY_NAMES).value, d);
    }
  }

  /** Byte extraction: the bytes of an array where the search ends, or those of a base64 text. */
  lemma {:induction false} ExtractBytesFromLeaf(j: Json, d: Decoders)
    ensures ExtractBytes(j, d)
         == match Leaf(j, FILE_KEY_NAMES)
            case Some(Text(s)) => d.base64(s)
            case Some(Array(items)) => JsonArrayToBytes(items)
            case _ => None
    decreases Size(j)
  {
    if j.Object? && FindValue(j, FILE_KEY_NAMES).Some? {
      FoundSmaller(j, FILE_KEY_NAMES);
      ExtractBytesFromLeaf(FindValue(j, FILE_KEY_NAMES).value, d);
    }
  }

  /** An array is bytes exactly if each item is a number from 0 to 255. */
  lemma {:induction false} JsonArrayToBytesIff(items: seq<Json>, bytes: Bytes)
    ensures JsonArrayToBytes(items) == Some(bytes)
       <==> |items| == |bytes| && forall i :: 0 <= i < |items| ==> items[i] == Num(PosInt(bytes[i]))
  {
    if items != [] {
      if bytes != [] {
        JsonArrayToBytesIff(items[1..], bytes[1..]);
        assert bytes == [bytes[0]] + bytes[1..];
      }
      if JsonArrayToBytes(items) == Some(bytes) {
        assert bytes[1..] == JsonArrayToBytes(items[1..]).value;
        assert forall i :: 1 <= i < |items| ==> items[i] == items[1..][i - 1] && bytes[i] == bytes[1..][i - 1];
      }
    }
  }

  /** CBOR bytes that were converted to JSON are extracted as they were. */
  lemma {:induction false} OctetsExtracted(bytes: Bytes, render: Render, d: Decoders)
    ensures ExtractBytes(FlexibleToJson(Octets(bytes), render), d) == Some(bytes)
  {
    JsonArrayToBytesIff(FlexibleToJson(Octets(bytes), render).items, bytes);
  }

  /** A tagged CBOR value can be found in the JSON value it becomes, and so can its tag. */
  lemma {:induction false} TagFound(tag: nat, inner: Flexible, render: Render)
    ensures FindValue(FlexibleToJson(Tag(tag, inner), render), ["tag"]) == Some(Num(PosInt(tag)))
    ensures FindValue(FlexibleToJson(Tag(tag, inner), render), ["value"]) == Some(FlexibleToJson(inner, render))
  {
    var members := [Member("tag", Num(PosInt(tag))), Member("value", FlexibleToJson(inner, render))];
    assert members[1..][0] == members[1];
    assert Get(members, "value") == Some(FlexibleToJson(inner, render));
  }

  /** That value is no object, and it is the whole or lies inside it. */
  lemma {:induction false} LeafIsNoObject(j: Json, names: seq<string>)
    ensures Leaf(j, names).Some? ==> !Leaf(j, names).value.Object? && Leaf(j, names).value in PreOrder(j)
    decreases Size(j)
  {
    if j.Object? && FindValue(j, names).Some? {
      var v := FindValue(j, names).value;
      FoundSmaller(j, names);
      FoundInside(j, names);
      LeafIsNoObject(v, names);
      if Leaf(v, names).Some? {
        InsideTransitive(j, v, Leaf(v, names).value);
      }
    }
  }
}
