/**
 JSON values.  The members of an object are kept in the order of their names, as the ordered map of
 the JSON library keeps them: inserting a member replaces one of the same name, and collecting
 members that are in order already changes nothing.  Names are compared character by character.
 */
module Json {

  /** A 64-bit float; the bits of a finite one stand for themselves. */
  datatype Float = Finite(bits: nat) | Infinite(negative: bool) | NaN

  datatype Number = PosInt(u: nat) | NegInt(i: int) | Fraction(float: Float)

  datatype Json =
    | Null
    | Bool(b: bool)
    | Num(n: Number)
    | Text(s: string)
    | Array(items: seq<Json>)
    | Object(members: seq<Member>)

  datatype Member = Member(name: string, value: Json)

  // ---------- names in order ----------

  predicate Less(a: string, b: string) {
    if b == [] then false
    else if a == [] then true
    else if a[0] == b[0] then Less(a[1..], b[1..])
    else a[0] < b[0]
  }

  lemma {:induction false} LessTotal(a: string, b: string)
    ensures Less(a, b) || a == b || Less(b, a)
  {
    if a != [] && b != [] && a[0] == b[0] {
      LessTotal(a[1..], b[1..]);
      assert a == [a[0]] + a[1..] && b == [b[0]] + b[1..];
    }
  }

  lemma {:induction false} LessStrict(a: string, b: string)
    requires Less(a, b)
    ensures a != b && !Less(b, a)
  {
    if a != [] && a[0] == b[0] {
      LessStrict(a[1..], b[1..]);
    }
  }

  lemma {:induction false} LessTransitive(a: string, b: string, c: string)
    requires Less(a, b) && Less(b, c)
    ensures Less(a, c)
  {
    if a != [] && a[0] == b[0] && b[0] == c[0] {
      LessTransitive(a[1..], b[1..], c[1..]);
    }
  }

  ghost predicate Sorted(members: seq<Member>) {
    forall i, j :: 0 <= i < j < |members| ==> Less(members[i].name, members[j].name)
  }

  /** An ordered map takes one more member; a member of the same name is replaced. */
  function Insert(members: seq<Member>, m: Member): (r: seq<Member>)
    ensures forall x :: x in r ==> x == m || x in members
  {
    if members == [] then [m]
    else if members[0].name == m.name then [m] + members[1..]
    else if Less(m.name, members[0].name) then [m] + members
    else [members[0]] + Insert(members[1..], m)
  }

  function Collect(members: seq<Member>): (r: seq<Member>)
    ensures forall x :: x in r ==> x in members
  {
    if members == [] then [] else Insert(Collect(members[..|members| - 1]), members[|members| - 1])
  }

  lemma {:induction false} InsertSorted(members: seq<Member>, m: Member)
    requires Sorted(members)
    ensures Sorted(Insert(members, m))
  {
    if members != [] {
      LessTotal(m.name, members[0].name);
      if Less(m.name, members[0].name) {
        forall x | x in members ensures Less(m.name, x.name) {
          var i :| 0 <= i < |members| && members[i] == x;
          if i > 0 {
            LessTransitive(m.name, members[0].name, x.name);
          }
        }
      } else if m.name != members[0].name {
        InsertSorted(members[1..], m);
        assert forall x :: x in Insert(members[1..], m) ==> Less(members[0].name, x.name);
      }
    }
  }

  /** A new member takes the place of the one of its name, and the others stay. */
  lemma {:induction false} InsertExact(members: seq<Member>, m: Member, x: Member)
    requires Sorted(members)
    ensures x in Insert(members, m) <==> x == m || (x in members && x.name != m.name)
  {
    if members != [] {
      assert x in members <==> x == members[0] || x in members[1..];
      NoneNamed(members[1..], members[0].name, members[0]);
      if members[0].name == m.name {
        NoneNamed(members[1..], m.name, x);
      } else if Less(m.name, members[0].name) {
        LessStrict(m.name, members[0].name);
        if x in members[1..] {
          assert Less(members[0].name, x.name);
          LessTransitive(m.name, members[0].name, x.name);
          LessStrict(m.name, x.name);
        }
      } else {
        InsertExact(members[1..], m, x);
      }
    }
  }

  lemma {:induction false} NoneNamed(members: seq<Member>, name: string, x: Member)
    requires forall y :: y in members ==> Less(name, y.name)
    ensures x in members ==> x.name != name
  {
    if x in members {
      LessStrict(name, x.name);
    }
  }

  /** A member that no later one of the same name follows. */
  ghost predicate LastOfName(members: seq<Member>, x: Member) {
    exists i :: 0 <= i < |members| && members[i] == x && NotNamedAfter(members, i)
  }

  ghost predicate NotNamedAfter(members: seq<Member>, i: nat)
    requires i < |members|
  {
    forall j :: i < j < |members| ==> members[j].name != members[i].name
  }

  lemma {:induction false} LastOfNameStep(members: seq<Member>, x: Member)
    requires members != []
    ensures var front, last := members[..|members| - 1], members[|members| - 1];
            LastOfName(members, x) <==> x == last || (LastOfName(front, x) && x.name != last.name)
  {
    var n := |members| - 1;
    var front, last := members[..n], members[n];
    if x == last {
      assert NotNamedAfter(members, n);
    } else if LastOfName(members, x) {
      var i :| 0 <= i < |members| && members[i] == x && NotNamedAfter(members, i);
      assert front[i] == x && NotNamedAfter(front, i);
    } else if LastOfName(front, x) && x.name != last.name {
      var i :| 0 <= i < |front| && front[i] == x && NotNamedAfter(front, i);
      assert forall j :: i < j < n ==> members[j] == front[j];
      assert members[i] == x && NotNamedAfter(members, i);
    }
  }

  /** What an ordered map holds in the end: in order, of each name the member inserted last. */
  lemma {:induction false} CollectExact(members: seq<Member>)
    ensures Sorted(Collect(members))
    ensures forall x :: x in Collect(members) <==> LastOfName(members, x)
  {
    if members != [] {
      var front, last := members[..|members| - 1], members[|members| - 1];
      CollectExact(front);
      InsertSorted(Collect(front), last);
      forall x ensures x in Collect(members) <==> LastOfName(members, x) {
        InsertExact(Collect(front), last, x);
        LastOfNameStep(members, x);
      }
    }
  }

  lemma {:induction false} InsertLast(members: seq<Member>, m: Member)
    requires forall x :: x in members ==> Less(x.name, m.name)
    ensures Insert(members, m) == members + [m]
  {
    if members != [] {
      assert members[0] in members;
      LessStrict(members[0].name, m.name);
      InsertLast(members[1..], m);
    }
  }

  /** Members already in order, with distinct names, are collected as they are. */
  lemma {:induction false} CollectIs(members: seq<Member>)
    requires Sorted(members)
    ensures Collect(members) == members
  {
    if members != [] {
      var rest := members[..|members| - 1];
      CollectIs(rest);
      InsertLast(rest, members[|members| - 1]);
    }
  }

  // ---------- well-formed values ----------

  predicate NumberOk(n: Number) {
    match n
    case PosInt(v) => v < 0x1_0000_0000_0000_0000
    case NegInt(i) => -0x8000_0000_0000_0000 <= i < 0
    case Fraction(f) => f.Finite?
  }

  /** What the JSON library can hold: numbers in range, members in order. */
  ghost predicate WellFormed(j: Json) {
    match j
    case Num(n) => NumberOk(n)
    case Array(items) => forall i :: 0 <= i < |items| ==> WellFormed(items[i])
    case Object(members) => Sorted(members) && forall i :: 0 <= i < |members| ==> WellFormed(members[i].value)
    case _ => true
  }

  /** Names are in the order of their first different characters, and a beginning comes first. */
  lemma {:induction false} LessIff(a: string, b: string)
    ensures Less(a, b) <==> exists n: nat :: SameUpTo(a, b, n) && n < |b| && (n == |a| || a[n] < b[n])
  {
    if a == [] || b == [] || a[0] != b[0] {
      if Less(a, b) {
        assert SameUpTo(a, b, 0);
      }
    } else {
      LessIff(a[1..], b[1..]);
      if n: nat :| SameUpTo(a[1..], b[1..], n) && n < |b[1..]| && (n == |a[1..]| || a[1..][n] < b[1..][n]) {
        SameNext(a, b, n);
      }
      if n: nat :| SameUpTo(a, b, n) && n < |b| && (n == |a| || a[n] < b[n]) {
        SameRest(a, b, n);
      }
    }
  }

  ghost predicate SameUpTo(a: string, b: string, n: nat) {
    n <= |a| && n <= |b| && a[..n] == b[..n]
  }

  lemma {:induction false} SameNext(a: string, b: string, n: nat)
    requires a != [] && b != [] && a[0] == b[0] && SameUpTo(a[1..], b[1..], n)
    ensures SameUpTo(a, b, n + 1)
  {
    assert a[..n + 1] == [a[0]] + a[1..][..n] && b[..n + 1] == [b[0]] + b[1..][..n];
  }

  lemma {:induction false} SameRest(a: string, b: string, n: nat)
    requires a != [] && b != [] && a[0] == b[0] && SameUpTo(a, b, n) && n < |b| && (n == |a| || a[n] < b[n])
    ensures n > 0 && SameUpTo(a[1..], b[1..], n - 1)
  {
    assert a[1..][..n - 1] == a[..n][1..] && b[1..][..n - 1] == b[..n][1..];
  }
}
