/**
 The conversions between flexible CBOR values and JSON, and what comes back changed when a value is
 converted there and back: bytes, tags, large integers, special floats and names out of order.
 */
module CborJson {
  import opened Json

  datatype Flexible =
    | Integer(i: int)
    | Octets(bytes: seq<nat>)
    | Real(float: Float)
    | FText(s: string)
    | FBool(b: bool)
    | FNull
    | Tag(tag: nat, inner: Flexible)
    | FArray(items: seq<Flexible>)
    | Map(entries: seq<Entry>)

  datatype Entry = Entry(key: Flexible, value: Flexible)

  // ---------- decimal ----------

  function Digits(n: nat): string {
    if n < 10 then [Digit(n)] else Digits(n / 10) + [Digit(n % 10)]
  }

  function Digit(n: nat): char
    requires n < 10
  {
    '0' + n as char
  }

  function Decimal(i: int): string {
    if i < 0 then "-" + Digits(-i) else Digits(i)
  }

  function ReadDigits(s: string): int {
    if s == [] then 0 else 10 * ReadDigits(s[..|s| - 1]) + (s[|s| - 1] as int - '0' as int)
  }

  function ReadDecimal(s: string): int {
    if s != [] && s[0] == '-' then -ReadDigits(s[1..]) else ReadDigits(s)
  }

  lemma {:induction false} DigitsRead(n: nat)
    ensures ReadDigits(Digits(n)) == n
    ensures Digits(n) != [] && Digits(n)[0] != '-'
  {
    if n >= 10 {
      DigitsRead(n / 10);
      assert Digits(n)[..|Digits(n)| - 1] == Digits(n / 10);
    } else {
      assert Digits(n)[..0] == [];
    }
  }

  /** The decimal text of an integer determines it. */
  lemma {:induction false} DecimalRead(i: int)
    ensures ReadDecimal(Decimal(i)) == i
  {
    DigitsRead(if i < 0 then -i else i);
    if i < 0 {
      assert Decimal(i)[1..] == Digits(-i);
    }
  }

  // ---------- conversions ----------

  predicate InRange(i: int) {
    -0x8000_0000_0000_0000 <= i < 0x1_0000_0000_0000_0000
  }

  function IntegerToJson(i: int): Json {
    if !InRange(i) then Text(Decimal(i))
    else if i < 0 then Num(NegInt(i))
    else Num(PosInt(i))
  }

  function FloatText(f: Float): string {
    match f
    case NaN => "NaN"
    case Infinite(negative) => if negative then "-inf" else "inf"
    case Finite(_) => ""
  }

  /** The text of a JSON value used as a name is left to the JSON library. */
  type Render = Json -> string

  function FlexibleToJson(v: Flexible, render: Render): Json
    decreases v, 1
  {
    match v
    case Integer(i) => IntegerToJson(i)
    case Octets(bytes) => Array(seq(|bytes|, i requires 0 <= i < |bytes| => Num(PosInt(bytes[i]))))
    case Real(f) => if f.Finite? then Num(Fraction(f)) else Text(FloatText(f))
    case FText(s) => Text(s)
    case FBool(b) => Bool(b)
    case FNull => Null
    case Tag(tag, inner) => Object([Member("tag", Num(PosInt(tag))), Member("value", FlexibleToJson(inner, render))])
    case FArray(items) => Array(seq(|items|, i requires 0 <= i < |items| => FlexibleToJson(items[i], render)))
    case Map(entries) => Object(Collect(MembersOf(v, render)))
  }

  function MembersOf(v: Flexible, render: Render): (r: seq<Member>)
    requires v.Map?
    ensures |r| == |v.entries|
    ensures forall i :: 0 <= i < |r| ==>
      r[i] == Member(KeyToString(v.entries[i].key, render), FlexibleToJson(v.entries[i].value, render))
    decreases v, 0
  {
    seq(|v.entries|, i requires 0 <= i < |v.entries| =>
      Member(KeyToString(v.entries[i].key, render), FlexibleToJson(v.entries[i].value, render)))
  }

  function KeyToString(key: Flexible, render: Render): string
    decreases key, 2
  {
    match key
    case FText(s) => s
    case _ => render(FlexibleToJson(key, render))
  }

  function NumberToFlexible(n: Number): Flexible {
    match n
    case PosInt(v) => Integer(v)
    case NegInt(i) => Integer(i)
    case Fraction(f) => Real(f)
  }

  function JsonToFlexible(j: Json): Flexible
    decreases j, 1
  {
    match j
    case Null => FNull
    case Bool(b) => FBool(b)
    case Num(n) => NumberToFlexible(n)
    case Text(s) => FText(s)
    case Array(items) => FArray(seq(|items|, i requires 0 <= i < |items| => JsonToFlexible(items[i])))
    case Object(_) => Map(EntriesOf(j))
  }

  function EntriesOf(j: Json): (r: seq<Entry>)
    requires j.Object?
    ensures |r| == |j.members|
    ensures forall i :: 0 <= i < |r| ==> r[i] == Entry(FText(j.members[i].name), JsonToFlexible(j.members[i].value))
    decreases j, 0
  {
    seq(|j.members|, i requires 0 <= i < |j.members| =>
      Entry(FText(j.members[i].name), JsonToFlexible(j.members[i].value)))
  }

  // ---------- round trips ----------

  /** JSON to CBOR and back gives the same value. */
  lemma {:induction false} JsonRoundTrip(j: Json, render: Render)
    requires WellFormed(j)
    ensures FlexibleToJson(JsonToFlexible(j), render) == j
  {
    match j {
      case Array(items) =>
        forall i | 0 <= i < |items| ensures FlexibleToJson(JsonToFlexible(items[i]), render) == items[i] {
          JsonRoundTrip(items[i], render);
        }
      case Object(members) =>
        forall i | 0 <= i < |members|
          ensures FlexibleToJson(JsonToFlexible(members[i].value), render) == members[i].value
        {
          JsonRoundTrip(members[i].value, render);
        }
        CollectIs(members);
        MembersBack(members, render);
      case _ =>
    }
  }

  lemma {:induction false} MembersBack(members: seq<Member>, render: Render)
    requires forall i :: 0 <= i < |members| ==>
               FlexibleToJson(JsonToFlexible(members[i].value), render) == members[i].value
    requires Collect(members) == members
    ensures FlexibleToJson(JsonToFlexible(Object(members)), render) == Object(members)
  {
    var v := Map(EntriesOf(Object(members)));
    forall i | 0 <= i < |members| ensures MembersOf(v, render)[i] == members[i] {
      assert v.entries[i] == Entry(FText(members[i].name), JsonToFlexible(members[i].value));
    }
    assert MembersOf(v, render) == members;
  }

  /** The CBOR values that are JSON values under another name. */
  ghost predicate Plain(v: Flexible) {
    match v
    case Integer(i) => InRange(i)
    case Real(f) => f.Finite?
    case Octets(_) => false
    case Tag(_, _) => false
    case FArray(items) => forall i :: 0 <= i < |items| ==> Plain(items[i])
    case Map(entries) =>
      && (forall i :: 0 <= i < |entries| ==> entries[i].key.FText? && Plain(entries[i].value))
      && (forall i, k :: 0 <= i < k < |entries| ==> Less(entries[i].key.s, entries[k].key.s))
    case _ => true
  }

  /** CBOR bytes are bytes and tags are 64-bit numbers. */
  ghost predicate Encodable(v: Flexible) {
    match v
    case Octets(bytes) => forall i :: 0 <= i < |bytes| ==> bytes[i] < 256
    case Tag(tag, inner) => tag < 0x1_0000_0000_0000_0000 && Encodable(inner)
    case FArray(items) => forall i :: 0 <= i < |items| ==> Encodable(items[i])
    case Map(entries) => forall i :: 0 <= i < |entries| ==> Encodable(entries[i].key) && Encodable(entries[i].value)
    case _ => true
  }

  /** Whatever CBOR value is converted, the JSON value is well formed: names are in order and numbers in range. */
  lemma {:induction false} ToJsonWellFormed(v: Flexible, render: Render)
    requires Encodable(v)
    ensures WellFormed(FlexibleToJson(v, render))
  {
    match v {
      case Tag(tag, inner) =>
        ToJsonWellFormed(inner, render);
      case FArray(items) =>
        forall i | 0 <= i < |items| ensures WellFormed(FlexibleToJson(items[i], render)) {
          ToJsonWellFormed(items[i], render);
        }
      case Map(entries) =>
        var members := MembersOf(v, render);
        forall i | 0 <= i < |entries| ensures WellFormed(members[i].value) {
          ToJsonWellFormed(entries[i].value, render);
        }
        CollectWellFormed(members);
      case _ =>
    }
  }

  lemma {:induction false} CollectWellFormed(members: seq<Member>)
    requires forall i :: 0 <= i < |members| ==> WellFormed(members[i].value)
    ensures WellFormed(Object(Collect(members)))
  {
    CollectExact(members);
    forall x | x in Collect(members) ensures WellFormed(x.value) {
      assert x in members;
    }
  }

  lemma {:induction false} ToFlexiblePlain(j: Json)
    requires WellFormed(j)
    ensures Plain(JsonToFlexible(j))
  {
    match j {
      case Array(items) =>
        forall i | 0 <= i < |items| ensures Plain(JsonToFlexible(items[i])) {
          ToFlexiblePlain(items[i]);
        }
      case Object(members) =>
        forall i | 0 <= i < |members| ensures Plain(JsonToFlexible(members[i].value)) {
          ToFlexiblePlain(members[i].value);
        }
      case _ =>
    }
  }

  lemma {:induction false} PlainRoundTrip(v: Flexible, render: Render)
    requires Plain(v)
    ensures JsonToFlexible(FlexibleToJson(v, render)) == v
  {
    match v {
      case FArray(items) =>
        forall i | 0 <= i < |items| ensures JsonToFlexible(FlexibleToJson(items[i], render)) == items[i] {
          PlainRoundTrip(items[i], render);
        }
      case Map(entries) =>
        var members := MembersOf(v, render);
        forall i | 0 <= i < |entries| ensures JsonToFlexible(members[i].value) == entries[i].value {
          PlainRoundTrip(entries[i].value, render);
        }
        CollectIs(members);
        assert EntriesOf(Object(members)) == entries;
      case _ =>
    }
  }

  /**
   CBOR to JSON and back gives the same value exactly for the plain values; byte strings, tags,
   integers out of range, floats that are not finite and names out of order all come back changed.
   */
  lemma {:induction false} RoundTripIff(v: Flexible, render: Render)
    requires Encodable(v)
    ensures JsonToFlexible(FlexibleToJson(v, render)) == v <==> Plain(v)
  {
    ToJsonWellFormed(v, render);
    ToFlexiblePlain(FlexibleToJson(v, render));
    if Plain(v) {
      PlainRoundTrip(v, render);
    }
  }

  /** A second conversion to JSON changes nothing more. */
  lemma {:induction false} ToJsonStable(v: Flexible, render: Render)
    requires Encodable(v)
    ensures FlexibleToJson(JsonToFlexible(FlexibleToJson(v, render)), render) == FlexibleToJson(v, render)
  {
    ToJsonWellFormed(v, render);
    JsonRoundTrip(FlexibleToJson(v, render), render);
  }

  /** An integer becomes a number exactly if it fits 64 bits, signed or unsigned, and else its decimal text. */
  lemma {:induction false} IntegerToJsonIff(i: int, render: Render)
    ensures var j := FlexibleToJson(Integer(i), render);
            if InRange(i) then j.Num? && JsonToFlexible(j) == Integer(i)
            else j.Text? && ReadDecimal(j.s) == i
  {
    DecimalRead(i);
  }
}
