/** JSON trees. An object is a list of members, so that repeated names can be expressed. */
module Json {

  datatype Json =
    | Null
    | Bool(b: bool)
    | Number(token: string)
    | Text(s: string)
    | Array(items: seq<Json>)
    | Object(members: seq<Member>)

  datatype Member = Member(name: string, value: Json)

  ghost predicate Distinct(ms: seq<Member>) {
    forall i, j :: 0 <= i < j < |ms| ==> ms[i].name != ms[j].name
  }

  function Names(ms: seq<Member>): set<string> {
    set m | m in ms :: m.name
  }

  lemma DistinctExtends(ms: seq<Member>, i: nat)
    requires i < |ms|
    ensures Distinct(ms[..i + 1]) <==> Distinct(ms[..i]) && ms[i].name !in Names(ms[..i])
    ensures Names(ms[..i + 1]) == Names(ms[..i]) + {ms[i].name}
    ensures Distinct(ms) ==> Distinct(ms[..i + 1])
  {
    var init, more := ms[..i], ms[..i + 1];
    assert more == init + [ms[i]];
    if ms[i].name in Names(init) {
      var m :| m in init && m.name == ms[i].name;
      var k :| 0 <= k < i && init[k] == m;
      assert more[k].name == more[i].name;
    }
    if Distinct(init) && ms[i].name !in Names(init) {
      forall j, k | 0 <= j < k < i + 1
        ensures more[j].name != more[k].name
      {
        assert more[j] == init[j] && init[j] in init;
        assert k < i ==> more[k] == init[k];
      }
    }
  }

  // ---- Sums over member lists ----

  function Sum(ms: seq<Member>, w: Member -> nat): nat {
    if ms == [] then 0 else Sum(ms[..|ms| - 1], w) + w(ms[|ms| - 1])
  }

  lemma {:induction false} SumWithout(ms: seq<Member>, i: nat, w: Member -> nat)
    requires i < |ms|
    ensures Sum(ms, w) == Sum(Without(ms, i), w) + w(ms[i])
  {
    var rest, n := Without(ms, i), |ms| - 1;
    if i == n {
      assert rest == ms[..n];
    } else {
      assert rest[..|rest| - 1] == Without(ms[..n], i);
      SumWithout(ms[..n], i, w);
    }
  }

  function Without(ms: seq<Member>, i: nat): seq<Member>
    requires i < |ms|
  {
    ms[..i] + ms[i + 1..]
  }

  lemma MultisetWithout(ms: seq<Member>, i: nat)
    requires i < |ms|
    ensures multiset(Without(ms, i)) == multiset(ms) - multiset{ms[i]}
  {
    assert ms == ms[..i] + [ms[i]] + ms[i + 1..];
  }

  lemma {:induction false} SumPermutes(a: seq<Member>, b: seq<Member>, w: Member -> nat)
    requires multiset(a) == multiset(b)
    ensures Sum(a, w) == Sum(b, w)
    decreases |a|
  {
    assert |a| == |multiset(a)| && |b| == |multiset(b)|;
    if a != [] {
      assert a[0] in multiset(b);
      var i :| 0 <= i < |b| && b[i] == a[0];
      MultisetWithout(a, 0);
      MultisetWithout(b, i);
      SumPermutes(Without(a, 0), Without(b, i), w);
      SumWithout(a, 0, w);
      SumWithout(b, i, w);
    }
  }

  function NameCount(name: string): Member -> nat {
    (m: Member) => if m.name == name then 1 else 0
  }

  lemma {:induction false} CountIsZero(ms: seq<Member>, name: string)
    ensures Sum(ms, NameCount(name)) == 0 <==> forall m :: m in ms ==> m.name != name
  {
    if ms != [] {
      var n := |ms| - 1;
      CountIsZero(ms[..n], name);
      assert ms == ms[..n] + [ms[n]];
    }
  }

  lemma {:induction false} DistinctByCount(ms: seq<Member>)
    ensures Distinct(ms) <==> forall name :: Sum(ms, NameCount(name)) <= 1
  {
    if ms != [] {
      var n := |ms| - 1;
      var init, last := ms[..n], ms[n].name;
      DistinctByCount(init);
      CountIsZero(init, last);
      assert forall name :: Sum(ms, NameCount(name)) == Sum(init, NameCount(name)) + NameCount(name)(ms[n]);
      if Distinct(ms) {
        assert Distinct(init);
        assert forall m :: m in init ==> m.name != last;
      }
      if forall name :: Sum(ms, NameCount(name)) <= 1 {
        assert Sum(init, NameCount(last)) == 0;
        assert Distinct(init);
        forall i, j | 0 <= i < j < |ms|
          ensures ms[i].name != ms[j].name
        {
          if j == n { assert ms[i] in init; } else { assert ms[i] == init[i] && ms[j] == init[j]; }
        }
      }
    }
  }

  lemma DistinctPermutes(a: seq<Member>, b: seq<Member>)
    requires multiset(a) == multiset(b)
    ensures Distinct(a) <==> Distinct(b)
  {
    DistinctByCount(a);
    DistinctByCount(b);
    forall name
      ensures Sum(a, NameCount(name)) == Sum(b, NameCount(name))
    {
      SumPermutes(a, b, NameCount(name));
    }
  }
}

/** The key record, the limits, and what the bounded parser accepts and charges. */
module Jwk {
  import opened Json

  const MAX_JWK_MEMBER_BYTES: nat := 16 * 1024
  const MAX_JWK_LIST_ITEMS: nat := 128
  const MAX_JWK_EXTENSION_MEMBERS: nat := 32
  const MAX_JWK_EXTENSION_DEPTH: nat := 8
  const MAX_PUBLIC_JWK_JSON_BYTES: nat := 64 * 1024

  const TEXT_MEMBERS: seq<string> :=
    ["use", "alg", "kid", "x5u", "x5t", "x5t#S256", "crv", "x", "y", "n", "e"]
  const LIST_MEMBERS: seq<string> := ["key_ops", "x5c"]
  const PRIVATE_MEMBERS: seq<string> := ["d", "rsa_d", "p", "q", "dp", "dq", "qi", "oth", "k"]
  const RESERVED_JWK_MEMBERS: seq<string> :=
    ["kty", "use", "key_ops", "alg", "kid", "x5u", "x5c", "x5t", "x5t#S256", "crv", "x", "y", "n",
     "e", "d", "rsa_d", "p", "q", "dp", "dq", "qi", "oth", "k"]

  datatype Kind = KeyType | TextField | ListField | Private | Extension

  /** The arm of the deserialiser that handles a member name. */
  function KindOf(name: string): Kind {
    if name == "kty" then KeyType
    else if name in TEXT_MEMBERS then TextField
    else if name in LIST_MEMBERS then ListField
    else if name in PRIVATE_MEMBERS then Private
    else Extension
  }

  /** A key: its typed fields by JSON name, absent when `None`, and its extensions. */
  datatype Jwk = Jwk(kty: string, texts: map<string, string>, lists: map<string, seq<string>>,
                     extra: map<string, Json>)

  // ---- What the parser accepts and charges ----

  /** Budget charged by the parser for an extension value. */
  function Cost(v: Json): nat
    decreases v, 1
  {
    match v
    case Null => 1
    case Bool(_) => 1
    case Number(_) => 8
    case Text(s) => |s|
    case Array(items) => CostItems(items)
    case Object(members) => CostMembers(members)
  }

  function CostItems(items: seq<Json>): nat
    decreases items, 0
  {
    if items == [] then 0 else CostItems(items[..|items| - 1]) + Cost(items[|items| - 1])
  }

  function CostMembers(ms: seq<Member>): nat
    decreases ms, 0
  {
    if ms == [] then 0
    else CostMembers(ms[..|ms| - 1]) + |ms[|ms| - 1].name| + Cost(ms[|ms| - 1].value)
  }

  /** Depth, width, string-length and uniqueness limits on an extension value. */
  ghost predicate Shape(v: Json, depth: nat)
    decreases v
  {
    && depth <= MAX_JWK_EXTENSION_DEPTH
    && match v
       case Text(s) => |s| <= MAX_JWK_MEMBER_BYTES
       case Array(items) =>
         && |items| <= MAX_JWK_LIST_ITEMS
         && forall i :: 0 <= i < |items| ==> Shape(items[i], depth + 1)
       case Object(ms) =>
         && |ms| <= MAX_JWK_EXTENSION_MEMBERS && Distinct(ms)
         && forall i :: 0 <= i < |ms| ==>
              |ms[i].name| <= MAX_JWK_MEMBER_BYTES && Shape(ms[i].value, depth + 1)
       case _ => true
  }

  predicate ShortText(v: Json) {
    v.Text? && |v.s| <= MAX_JWK_MEMBER_BYTES
  }

  ghost predicate MemberOk(m: Member) {
    && |m.name| <= MAX_JWK_MEMBER_BYTES
    && match KindOf(m.name)
       case KeyType => ShortText(m.value)
       case TextField => m.value.Null? || ShortText(m.value)
       case ListField =>
         || m.value.Null?
         || (&& m.value.Array? && |m.value.items| <= MAX_JWK_LIST_ITEMS
             && forall i :: 0 <= i < |m.value.items| ==> ShortText(m.value.items[i]))
       case Private => false
       case Extension => Shape(m.value, 0)
  }

  /** Budget charged for a top-level member: a null typed field costs only its name. */
  function MemberCost(m: Member): nat {
    |m.name| + if KindOf(m.name) != Extension && m.value.Null? then 0 else Cost(m.value)
  }

  function IsExtension(m: Member): nat {
    if KindOf(m.name) == Extension then 1 else 0
  }

  function Total(ms: seq<Member>): nat {
    Sum(ms, MemberCost)
  }

  ghost predicate Accepts(ms: seq<Member>) {
    && Distinct(ms)
    && (forall i :: 0 <= i < |ms| ==> MemberOk(ms[i]))
    && "kty" in Names(ms)
    && Sum(ms, IsExtension) <= MAX_JWK_EXTENSION_MEMBERS
    && Total(ms) <= MAX_PUBLIC_JWK_JSON_BYTES
  }

  function TextItems(texts: seq<string>): (items: seq<Json>)
    ensures |items| == |texts|
    ensures forall i :: 0 <= i < |texts| ==> items[i] == Text(texts[i])
  {
    seq(|texts|, i requires 0 <= i < |texts| => Text(texts[i]))
  }

  /** `j` holds exactly the non-null values of the members. */
  ghost predicate Holds(j: Jwk, ms: seq<Member>) {
    HoldsKty(j.kty, ms) && HoldsTexts(j.texts, ms) && HoldsLists(j.lists, ms) && HoldsExtra(j.extra, ms)
  }

  ghost predicate HoldsKty(kty: string, ms: seq<Member>) {
    forall m :: m in ms && m.name == "kty" ==> m.value == Text(kty)
  }

  ghost predicate HoldsTexts(texts: map<string, string>, ms: seq<Member>) {
    && (forall n :: n in texts ==> KindOf(n) == TextField && Member(n, Text(texts[n])) in ms)
    && (forall m :: m in ms && KindOf(m.name) == TextField && m.value.Text? ==>
          m.name in texts && texts[m.name] == m.value.s)
  }

  ghost predicate HoldsLists(lists: map<string, seq<string>>, ms: seq<Member>) {
    && (forall n :: n in lists ==> KindOf(n) == ListField && Member(n, Array(TextItems(lists[n]))) in ms)
    && (forall m :: m in ms && KindOf(m.name) == ListField && m.value.Array? ==>
          m.name in lists && TextItems(lists[m.name]) == m.value.items)
  }

  ghost predicate HoldsExtra(extra: map<string, Json>, ms: seq<Member>) {
    && (forall n :: n in extra ==> KindOf(n) == Extension && Member(n, extra[n]) in ms)
    && (forall m :: m in ms && KindOf(m.name) == Extension ==> m.name in extra && extra[m.name] == m.value)
  }
}
