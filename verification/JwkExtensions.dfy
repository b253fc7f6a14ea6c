/** The extension validator with its own cost table, and how that compares with the parser's. */
module JwkExtensions {
  import opened Json
  import opened Jwk
  import opened Options

  // ---- The validator ----

  function CheckedAdd(a: nat, b: nat, usizeMax: nat): Option<nat> {
    if a + b <= usizeMax then Some(a + b) else None
  }

  /** `bounded_json_value_size`; `usizeMax` is the platform's largest length. */
  function BoundedSize(v: Json, depth: nat, usizeMax: nat): Option<nat>
    decreases v, 1
  {
    if depth > MAX_JWK_EXTENSION_DEPTH then None
    else
      match v
      case Null => Some(8)
      case Bool(_) => Some(8)
      case Number(_) => Some(8)
      case Text(s) => if |s| > MAX_JWK_MEMBER_BYTES then None else Some(|s|)
      case Array(items) =>
        if |items| > MAX_JWK_LIST_ITEMS then None else FoldItems(items, depth + 1, usizeMax)
      case Object(ms) =>
        if |ms| > MAX_JWK_EXTENSION_MEMBERS then None else FoldMembers(ms, depth + 1, usizeMax)
  }

  function FoldItems(items: seq<Json>, depth: nat, usizeMax: nat): Option<nat>
    decreases items, 0
  {
    if items == [] then Some(0)
    else
      var n := |items| - 1;
      match FoldItems(items[..n], depth, usizeMax)
      case None => None
      case Some(size) =>
        match BoundedSize(items[n], depth, usizeMax)
        case None => None
        case Some(more) => CheckedAdd(size, more, usizeMax)
  }

  function FoldMembers(ms: seq<Member>, depth: nat, usizeMax: nat): Option<nat>
    decreases ms, 0
  {
    if ms == [] then Some(0)
    else
      var n := |ms| - 1;
      match FoldMembers(ms[..n], depth, usizeMax)
      case None => None
      case Some(size) =>
        if |ms[n].name| > MAX_JWK_MEMBER_BYTES then None
        else
          match BoundedSize(ms[n].value, depth, usizeMax)
          case None => None
          case Some(more) =>
            match CheckedAdd(size, |ms[n].name|, usizeMax)
            case None => None
            case Some(sum) => CheckedAdd(sum, more, usizeMax)
  }

  /** `validate_public_extensions` on the entries of the map, in its iteration order. */
  predicate Validate(ms: seq<Member>, usizeMax: nat) {
    && |ms| <= MAX_JWK_EXTENSION_MEMBERS
    && var size := FoldMembers(ms, 0, usizeMax);
       && size.Some? && size.value <= MAX_PUBLIC_JWK_JSON_BYTES
       && forall i :: 0 <= i < |RESERVED_JWK_MEMBERS| ==> RESERVED_JWK_MEMBERS[i] !in Names(ms)
  }

  class PublicJwk {
    var value: Jwk

    constructor (value: Jwk)
      ensures this.value == value
    {
      this.value := value;
    }

    /** Replaces the extensions by the given map, or changes nothing at all. */
    method SetPublicExtensions(extensions: map<string, Json>, entries: seq<Member>, usizeMax: nat)
      returns (ok: bool)
      requires Distinct(entries) && HoldsEntries(extensions, entries)
      requires usizeMax >= MAX_PUBLIC_JWK_JSON_BYTES && forall m :: m in entries ==> Canonical(m.value)
      modifies this
      ensures ok <==> ValidExtensions(entries)
      ensures value == if ok then old(value).(extra := extensions) else old(value)
    {
      ValidateMeaning(entries, usizeMax);
      ok := Validate(entries, usizeMax);
      if ok {
        value := value.(extra := extensions);
      }
    }
  }

  /** `entries` lists the map. */
  ghost predicate HoldsEntries(extensions: map<string, Json>, entries: seq<Member>) {
    && (forall n :: n in extensions ==> Member(n, extensions[n]) in entries)
    && (forall m :: m in entries ==> m.name in extensions && extensions[m.name] == m.value)
  }

  // ---- What the validator decides ----

  /** The validator's cost table. */
  function Size(v: Json): nat
    decreases v, 1
  {
    match v
    case Null => 8
    case Bool(_) => 8
    case Number(_) => 8
    case Text(s) => |s|
    case Array(items) => SizeItems(items)
    case Object(ms) => SizeMembers(ms)
  }

  function SizeItems(items: seq<Json>): nat
    decreases items, 0
  {
    if items == [] then 0 else SizeItems(items[..|items| - 1]) + Size(items[|items| - 1])
  }

  function SizeMembers(ms: seq<Member>): nat
    decreases ms, 0
  {
    if ms == [] then 0
    else SizeMembers(ms[..|ms| - 1]) + |ms[|ms| - 1].name| + Size(ms[|ms| - 1].value)
  }

  /** A parsed value: no object in it repeats a name. */
  ghost predicate Canonical(v: Json) {
    match v
    case Array(items) => forall i :: 0 <= i < |items| ==> Canonical(items[i])
    case Object(ms) => Distinct(ms) && forall i :: 0 <= i < |ms| ==> Canonical(ms[i].value)
    case _ => true
  }

  ghost predicate ValidExtensions(ms: seq<Member>) {
    && |ms| <= MAX_JWK_EXTENSION_MEMBERS
    && (forall i :: 0 <= i < |ms| ==>
         && |ms[i].name| <= MAX_JWK_MEMBER_BYTES && Shape(ms[i].value, 0)
         && KindOf(ms[i].name) == Extension)
    && SizeMembers(ms) <= MAX_PUBLIC_JWK_JSON_BYTES
  }

  /** The validator agrees with the parser on every shape limit; overflow is the only other failure. */
  lemma {:induction false} SizeMeaning(v: Json, depth: nat, usizeMax: nat)
    requires Canonical(v) && usizeMax >= MAX_JWK_MEMBER_BYTES
    ensures BoundedSize(v, depth, usizeMax)
            == if Shape(v, depth) && Size(v) <= usizeMax then Some(Size(v)) else None
    decreases v, 1
  {
    match v
    case Array(items) => ItemsMeaning(items, depth + 1, usizeMax);
    case Object(ms) => MembersMeaning(ms, depth + 1, usizeMax);
    case _ =>
  }

  lemma {:induction false} ItemsMeaning(items: seq<Json>, depth: nat, usizeMax: nat)
    requires usizeMax >= MAX_JWK_MEMBER_BYTES
    requires forall i :: 0 <= i < |items| ==> Canonical(items[i])
    ensures FoldItems(items, depth, usizeMax)
            == if (forall i :: 0 <= i < |items| ==> Shape(items[i], depth)) && SizeItems(items) <= usizeMax
               then Some(SizeItems(items)) else None
    decreases items, 0
  {
    if items != [] {
      var n := |items| - 1;
      ItemsMeaning(items[..n], depth, usizeMax);
      SizeMeaning(items[n], depth, usizeMax);
      assert forall i :: 0 <= i < n ==> items[i] == items[..n][i];
    }
  }

  lemma {:induction false} MembersMeaning(ms: seq<Member>, depth: nat, usizeMax: nat)
    requires usizeMax >= MAX_JWK_MEMBER_BYTES
    requires forall i :: 0 <= i < |ms| ==> Canonical(ms[i].value)
    ensures FoldMembers(ms, depth, usizeMax)
            == if (forall i :: 0 <= i < |ms| ==>
                     |ms[i].name| <= MAX_JWK_MEMBER_BYTES && Shape(ms[i].value, depth))
                  && SizeMembers(ms) <= usizeMax
               then Some(SizeMembers(ms)) else None
    decreases ms, 0
  {
    if ms != [] {
      var n := |ms| - 1;
      MembersMeaning(ms[..n], depth, usizeMax);
      SizeMeaning(ms[n].value, depth, usizeMax);
      assert forall i :: 0 <= i < n ==> ms[i] == ms[..n][i];
    }
  }

  /** The reserved list is exactly the names the deserialiser does not treat as extensions. */
  lemma ReservedNames(name: string)
    ensures name in RESERVED_JWK_MEMBERS <==> KindOf(name) != Extension
  {
  }

  lemma ValidateMeaning(ms: seq<Member>, usizeMax: nat)
    requires usizeMax >= MAX_PUBLIC_JWK_JSON_BYTES && forall m :: m in ms ==> Canonical(m.value)
    ensures Validate(ms, usizeMax) <==> ValidExtensions(ms)
  {
    hide KindOf, FoldMembers, SizeMembers, Shape;
    MembersMeaning(ms, 0, usizeMax);
    forall name
      ensures name in RESERVED_JWK_MEMBERS <==> KindOf(name) != Extension
    {
      ReservedNames(name);
    }
    assert (forall i :: 0 <= i < |RESERVED_JWK_MEMBERS| ==> RESERVED_JWK_MEMBERS[i] !in Names(ms))
      <==> forall i :: 0 <= i < |ms| ==> ms[i].name !in RESERVED_JWK_MEMBERS;
  }

  // ---- The two cost tables ----

  /** What a value is made of: nulls and booleans, numbers, and characters of strings and names. */
  datatype Tally = Tally(flags: nat, numbers: nat, chars: nat) {
    function Plus(other: Tally): Tally {
      Tally(flags + other.flags, numbers + other.numbers, chars + other.chars)
    }
  }

  function Count(v: Json): Tally
    decreases v, 1
  {
    match v
    case Null => Tally(1, 0, 0)
    case Bool(_) => Tally(1, 0, 0)
    case Number(_) => Tally(0, 1, 0)
    case Text(s) => Tally(0, 0, |s|)
    case Array(items) => CountItems(items)
    case Object(ms) => CountMembers(ms)
  }

  function CountItems(items: seq<Json>): Tally
    decreases items, 0
  {
    if items == [] then Tally(0, 0, 0)
    else CountItems(items[..|items| - 1]).Plus(Count(items[|items| - 1]))
  }

  function CountMembers(ms: seq<Member>): Tally
    decreases ms, 0
  {
    if ms == [] then Tally(0, 0, 0)
    else
      var last := ms[|ms| - 1];
      CountMembers(ms[..|ms| - 1]).Plus(Tally(0, 0, |last.name|)).Plus(Count(last.value))
  }

  /** Reading charges 1 for a null or boolean, 8 for a number and 1 for each character. */
  predicate Charged(cost: nat, t: Tally) {
    cost == t.flags + 8 * t.numbers + t.chars
  }

  /** The validator counts 8 for a null or boolean too. */
  predicate Sized(size: nat, t: Tally) {
    size == 8 * t.flags + 8 * t.numbers + t.chars
  }

  /** Both cost tables, exactly. */
  lemma {:induction false} CostAndSize(v: Json)
    ensures Charged(Cost(v), Count(v)) && Sized(Size(v), Count(v))
    decreases v, 1
  {
    match v
    case Array(items) => ItemsCostAndSize(items);
    case Object(ms) => MembersCostAndSize(ms);
    case _ =>
  }

  lemma {:induction false} ItemsCostAndSize(items: seq<Json>)
    ensures Charged(CostItems(items), CountItems(items)) && Sized(SizeItems(items), CountItems(items))
    decreases items, 0
  {
    if items != [] {
      ItemsCostAndSize(items[..|items| - 1]);
      CostAndSize(items[|items| - 1]);
    }
  }

  lemma {:induction false} MembersCostAndSize(ms: seq<Member>)
    ensures Charged(CostMembers(ms), CountMembers(ms)) && Sized(SizeMembers(ms), CountMembers(ms))
    decreases ms, 0
  {
    if ms != [] {
      MembersCostAndSize(ms[..|ms| - 1]);
      CostAndSize(ms[|ms| - 1].value);
    }
  }

  /** The tables differ by 7 for each null and boolean. */
  lemma CostAgainstSize(v: Json)
    ensures Size(v) == Cost(v) + 7 * Count(v).flags
    ensures Cost(v) <= Size(v) <= 8 * Cost(v)
  {
    hide Cost, Size, Count;
    CostAndSize(v);
  }

  lemma MembersCostAgainstSize(ms: seq<Member>)
    ensures SizeMembers(ms) == CostMembers(ms) + 7 * CountMembers(ms).flags
    ensures CostMembers(ms) <= SizeMembers(ms) <= 8 * CostMembers(ms)
  {
    hide CostMembers, SizeMembers, CountMembers;
    MembersCostAndSize(ms);
  }

  // ---- The shape limits ----

  /** `n` arrays around a null. */
  function Nest(n: nat): Json {
    if n == 0 then Null else Array([Nest(n - 1)])
  }

  lemma {:induction false} NestingLimit(n: nat, depth: nat)
    ensures Shape(Nest(n), depth) <==> n + depth <= 8
  {
    if n > 0 {
      NestingLimit(n - 1, depth + 1);
      assert [Nest(n - 1)][0] == Nest(n - 1);
    }
  }

  /** Strings of 16384, arrays of 128, objects of 32 members and eight levels of nesting, and no more. */
  lemma ShapeLimits(s: string, items: seq<Json>, ms: seq<Member>, n: nat)
    requires forall i :: 0 <= i < |items| ==> items[i] == Null
    requires Distinct(ms) && forall i :: 0 <= i < |ms| ==> ms[i].value == Null
    ensures Shape(Text(s), 0) <==> |s| <= 16384
    ensures Shape(Array(items), 0) <==> |items| <= 128
    ensures Shape(Object(ms), 0) <==> |ms| <= 32 && forall i :: 0 <= i < |ms| ==> |ms[i].name| <= 16384
    ensures Shape(Nest(n), 0) <==> n <= 8
  {
    NestingLimit(n, 0);
    assert Shape(Null, 1);
  }

  lemma {:induction false} ShapeIsCanonical(v: Json, depth: nat)
    requires Shape(v, depth)
    ensures Canonical(v)
  {
    match v
    case Array(items) =>
      forall i | 0 <= i < |items| ensures Canonical(items[i]) { ShapeIsCanonical(items[i], depth + 1); }
    case Object(ms) =>
      forall i | 0 <= i < |ms| ensures Canonical(ms[i].value) { ShapeIsCanonical(ms[i].value, depth + 1); }
    case _ =>
  }
}
