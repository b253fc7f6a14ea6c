/** The recursive deserialiser with its one shared, mutable budget. */
module JwkParser {
  import opened Json
  import opened Jwk
  import opened Options

  class Budget {
    var remaining: nat

    constructor (amount: nat)
      ensures remaining == amount
    {
      remaining := amount;
    }

    method Consume(amount: nat) returns (ok: bool)
      modifies this
      ensures ok <==> amount <= old(remaining)
      ensures remaining == old(remaining) - if ok then amount else 0
    {
      ok := amount <= remaining;
      if ok {
        remaining := remaining - amount;
      }
    }
  }

  lemma {:induction false} ItemsCostMore(items: seq<Json>, i: nat)
    requires i < |items|
    ensures CostItems(items[..i + 1]) == CostItems(items[..i]) + Cost(items[i]) <= CostItems(items)
  {
    assert items[..i + 1][..i] == items[..i];
    if i + 1 == |items| {
      assert items[..i + 1] == items;
    } else {
      ItemsCostMore(items[..|items| - 1], i);
      assert items[..|items| - 1][..i + 1] == items[..i + 1];
    }
  }

  lemma {:induction false} MembersCostMore(ms: seq<Member>, i: nat)
    requires i < |ms|
    ensures CostMembers(ms[..i + 1]) == CostMembers(ms[..i]) + |ms[i].name| + Cost(ms[i].value) <= CostMembers(ms)
  {
    assert ms[..i + 1][..i] == ms[..i];
    if i + 1 == |ms| {
      assert ms[..i + 1] == ms;
    } else {
      MembersCostMore(ms[..|ms| - 1], i);
      assert ms[..|ms| - 1][..i + 1] == ms[..i + 1];
    }
  }

  lemma {:induction false} SumGrows(ms: seq<Member>, i: nat, w: Member -> nat)
    requires i < |ms|
    ensures Sum(ms[..i + 1], w) == Sum(ms[..i], w) + w(ms[i]) <= Sum(ms, w)
  {
    assert ms[..i + 1][..i] == ms[..i];
    if i + 1 == |ms| {
      assert ms[..i + 1] == ms;
    } else {
      SumGrows(ms[..|ms| - 1], i, w);
      assert ms[..|ms| - 1][..i + 1] == ms[..i + 1];
    }
  }

  /** Succeeds exactly on the shapes that fit the budget, and spends exactly their cost. */
  method ParseValue(v: Json, depth: nat, budget: Budget) returns (r: Option<Json>)
    modifies budget
    ensures r.Some? <==> Shape(v, depth) && Cost(v) <= old(budget.remaining)
    ensures r.Some? ==> r.value == v && budget.remaining == old(budget.remaining) - Cost(v)
    decreases v, 1
  {
    if depth > MAX_JWK_EXTENSION_DEPTH {
      return None;
    }
    var ok;
    match v {
      case Null =>
        ok := budget.Consume(1);
      case Bool(_) =>
        ok := budget.Consume(1);
      case Number(_) =>
        ok := budget.Consume(8);
      case Text(s) =>
        if |s| > MAX_JWK_MEMBER_BYTES {
          return None;
        }
        ok := budget.Consume(|s|);
      case Array(items) =>
        var values := ParseItems(items, depth, budget);
        return if values.Some? then Some(Array(values.value)) else None;
      case Object(ms) =>
        var values := ParseMembers(ms, depth, budget);
        return if values.Some? then Some(Object(values.value)) else None;
    }
    return if ok then Some(v) else None;
  }

  method ParseItems(items: seq<Json>, depth: nat, budget: Budget) returns (r: Option<seq<Json>>)
    modifies budget
    ensures r.Some? <==> && |items| <= MAX_JWK_LIST_ITEMS
                         && (forall i :: 0 <= i < |items| ==> Shape(items[i], depth + 1))
                         && CostItems(items) <= old(budget.remaining)
    ensures r.Some? ==> r.value == items && budget.remaining == old(budget.remaining) - CostItems(items)
    decreases items, 0
  {
    var values := [];
    hide Shape, Cost;
    assert items[..0] == [];
    while |values| < MAX_JWK_LIST_ITEMS
      invariant |values| <= |items| && values == items[..|values|] && |values| <= MAX_JWK_LIST_ITEMS
      invariant forall i :: 0 <= i < |values| ==> Shape(items[i], depth + 1)
      invariant budget.remaining + CostItems(values) == old(budget.remaining)
    {
      if |values| == |items| {
        assert items[..|values|] == items;
        return Some(values);
      }
      ItemsCostMore(items, |values|);
      var value := ParseValue(items[|values|], depth + 1, budget);
      if value.None? {
        return None;
      }
      assert values + [value.value] == items[..|values| + 1];
      values := values + [value.value];
    }
    if |values| < |items| {
      return None;
    }
    assert items[..|values|] == items;
    return Some(values);
  }

  /** A member list the value parser accepts below depth `depth`. */
  ghost predicate MembersOk(ms: seq<Member>, depth: nat) {
    && |ms| <= MAX_JWK_EXTENSION_MEMBERS && Distinct(ms)
    && forall i :: 0 <= i < |ms| ==>
         |ms[i].name| <= MAX_JWK_MEMBER_BYTES && Shape(ms[i].value, depth + 1)
  }

  lemma NothingParsed(ms: seq<Member>)
    ensures ms[..0] == [] && Distinct([]) && Names([]) == {} && CostMembers([]) == 0
  {
  }

  method ParseMembers(ms: seq<Member>, depth: nat, budget: Budget) returns (r: Option<seq<Member>>)
    modifies budget
    ensures r.Some? <==> MembersOk(ms, depth) && CostMembers(ms) <= old(budget.remaining)
    ensures r.Some? ==> r.value == ms && budget.remaining == old(budget.remaining) - CostMembers(ms)
    decreases ms, 0
  {
    var values: seq<Member> := [];
    var seen: set<string> := {};
    hide Distinct, Names, CostMembers, Shape, Cost;
    NothingParsed(ms);
    while |values| < MAX_JWK_EXTENSION_MEMBERS
      invariant |values| <= |ms| && values == ms[..|values|] && |values| <= MAX_JWK_EXTENSION_MEMBERS
      invariant Distinct(values) && seen == Names(values)
      invariant forall i :: 0 <= i < |values| ==>
                  |ms[i].name| <= MAX_JWK_MEMBER_BYTES && Shape(ms[i].value, depth + 1)
      invariant budget.remaining + CostMembers(values) == old(budget.remaining)
    {
      if |values| == |ms| {
        assert ms[..|values|] == ms;
        return Some(values);
      }
      var m := ms[|values|];
      MembersCostMore(ms, |values|);
      DistinctExtends(ms, |values|);
      if |m.name| > MAX_JWK_MEMBER_BYTES || m.name in seen {
        return None;
      }
      var ok := budget.Consume(|m.name|);
      if !ok {
        return None;
      }
      var value := ParseValue(m.value, depth + 1, budget);
      if value.None? {
        return None;
      }
      assert values + [m] == ms[..|values| + 1];
      values := values + [Member(m.name, value.value)];
      seen := seen + {m.name};
    }
    if |values| < |ms| {
      return None;
    }
    assert ms[..|values|] == ms;
    return Some(values);
  }

  /** An optional list of short strings: null, or at most 128 of them. */
  method ParseTexts(v: Json) returns (r: Option<Option<seq<string>>>)
    ensures r.Some? <==> || v.Null?
                         || (&& v.Array? && |v.items| <= MAX_JWK_LIST_ITEMS
                             && forall i :: 0 <= i < |v.items| ==> ShortText(v.items[i]))
    ensures r.Some? ==> r.value.Some? == v.Array?
    ensures r.Some? && r.value.Some? ==> v.items == TextItems(r.value.value)
  {
    if v.Null? {
      return Some(None);
    }
    if !v.Array? {
      return None;
    }
    var values: seq<string> := [];
    while |values| < MAX_JWK_LIST_ITEMS
      invariant |values| <= |v.items| && |values| <= MAX_JWK_LIST_ITEMS
      invariant forall i :: 0 <= i < |values| ==> ShortText(v.items[i]) && v.items[i] == Text(values[i])
    {
      if |values| == |v.items| {
        assert v.items == TextItems(values);
        return Some(Some(values));
      }
      if !ShortText(v.items[|values|]) {
        return None;
      }
      values := values + [v.items[|values|].s];
    }
    if |values| < |v.items| {
      return None;
    }
    assert v.items == TextItems(values);
    return Some(Some(values));
  }

  /** Charges the lengths of the parsed strings one after the other. */
  method ConsumeTexts(values: seq<string>, budget: Budget) returns (ok: bool)
    modifies budget
    ensures ok <==> CostItems(TextItems(values)) <= old(budget.remaining)
    ensures ok ==> budget.remaining == old(budget.remaining) - CostItems(TextItems(values))
  {
    var items := TextItems(values);
    for i := 0 to |values|
      invariant budget.remaining + CostItems(items[..i]) == old(budget.remaining)
    {
      ItemsCostMore(items, i);
      ok := budget.Consume(|values[i]|);
      if !ok {
        return;
      }
    }
    assert items[..|values|] == items;
    return true;
  }

  /** One turn of the member loop, after the duplicate check. */
  method ParseMember(m: Member, jwk: Jwk, budget: Budget) returns (r: Option<Jwk>)
    modifies budget
    ensures r.Some? <==> && MemberOk(m) && MemberCost(m) <= old(budget.remaining)
                         && (KindOf(m.name) == Extension ==> |jwk.extra| != MAX_JWK_EXTENSION_MEMBERS)
    ensures r.Some? ==> r.value == Store(jwk, m) && budget.remaining == old(budget.remaining) - MemberCost(m)
  {
    if |m.name| > MAX_JWK_MEMBER_BYTES {
      return None;
    }
    var ok := budget.Consume(|m.name|);
    if !ok {
      return None;
    }
    match KindOf(m.name) {
      case KeyType =>
        if !ShortText(m.value) {
          return None;
        }
        ok := budget.Consume(|m.value.s|);
      case TextField =>
        if m.value.Text? && |m.value.s| <= MAX_JWK_MEMBER_BYTES {
          ok := budget.Consume(|m.value.s|);
        } else if !m.value.Null? {
          return None;
        }
      case ListField =>
        var values := ParseTexts(m.value);
        if values.None? {
          return None;
        }
        if values.value.Some? {
          ok := ConsumeTexts(values.value.value, budget);
        }
      case Private =>
        return None;
      case Extension =>
        if |jwk.extra| == MAX_JWK_EXTENSION_MEMBERS {
          return None;
        }
        var value := ParseValue(m.value, 0, budget);
        ok := value.Some?;
    }
    return if ok then Some(Store(jwk, m)) else None;
  }

  function Texts(items: seq<Json>): seq<string> {
    seq(|items|, i requires 0 <= i < |items| => if items[i].Text? then items[i].s else "")
  }

  /** The field assignment each arm ends with; a null leaves the field absent. */
  function Store(jwk: Jwk, m: Member): Jwk {
    match KindOf(m.name)
    case KeyType => if m.value.Text? then jwk.(kty := m.value.s) else jwk
    case TextField => if m.value.Text? then jwk.(texts := jwk.texts[m.name := m.value.s]) else jwk
    case ListField => if m.value.Array? then jwk.(lists := jwk.lists[m.name := Texts(m.value.items)]) else jwk
    case Private => jwk
    case Extension => jwk.(extra := jwk.extra[m.name := m.value])
  }

  lemma TextsInverse(items: seq<Json>)
    requires forall i :: 0 <= i < |items| ==> items[i].Text?
    ensures items == TextItems(Texts(items))
  {
  }

  /** Storing one more member with a new name keeps the record equal to the members read. */
  lemma StoreHolds(j: Jwk, ms: seq<Member>, m: Member)
    requires Holds(j, ms) && MemberOk(m) && m.name !in Names(ms)
    ensures Holds(Store(j, m), ms + [m])
  {
    hide Shape, KindOf, HoldsTexts, HoldsLists, HoldsExtra, HoldsKty, Names, Store;
    StoreKty(j, ms, m);
    StoreTexts(j, ms, m);
    StoreLists(j, ms, m);
    StoreExtra(j, ms, m);
  }

  lemma NewMember(ms: seq<Member>, m: Member)
    requires m.name !in Names(ms)
    ensures forall x :: x in ms + [m] <==> x in ms || x == m
    ensures forall x :: x in ms ==> x.name != m.name
  {
    assert forall x :: x in ms ==> x.name in Names(ms);
  }

  lemma StoreKty(j: Jwk, ms: seq<Member>, m: Member)
    requires HoldsKty(j.kty, ms) && m.name !in Names(ms)
    requires KindOf(m.name) == KeyType ==> m.value.Text?
    ensures HoldsKty(Store(j, m).kty, ms + [m])
  {
    NewMember(ms, m);
  }

  lemma StoreTexts(j: Jwk, ms: seq<Member>, m: Member)
    requires HoldsTexts(j.texts, ms) && m.name !in Names(ms)
    ensures HoldsTexts(Store(j, m).texts, ms + [m])
  {
    hide KindOf, Names;
    NewMember(ms, m);
    var texts, all := Store(j, m).texts, ms + [m];
    forall n | n in texts
      ensures KindOf(n) == TextField && Member(n, Text(texts[n])) in all
    {
      if n in j.texts {
        assert Member(n, Text(j.texts[n])) in ms;
      }
    }
  }

  lemma StoreLists(j: Jwk, ms: seq<Member>, m: Member)
    requires HoldsLists(j.lists, ms) && m.name !in Names(ms)
    requires KindOf(m.name) == ListField && m.value.Array? ==>
               forall i :: 0 <= i < |m.value.items| ==> m.value.items[i].Text?
    ensures HoldsLists(Store(j, m).lists, ms + [m])
  {
    hide KindOf, Names;
    NewMember(ms, m);
    if KindOf(m.name) == ListField && m.value.Array? {
      TextsInverse(m.value.items);
    }
    hide TextItems;
    var lists, all := Store(j, m).lists, ms + [m];
    forall n | n in lists
      ensures KindOf(n) == ListField && Member(n, Array(TextItems(lists[n]))) in all
    {
      if n in j.lists {
        assert Member(n, Array(TextItems(j.lists[n]))) in ms;
      }
    }
  }

  lemma StoreExtra(j: Jwk, ms: seq<Member>, m: Member)
    requires HoldsExtra(j.extra, ms) && m.name !in Names(ms)
    ensures HoldsExtra(Store(j, m).extra, ms + [m])
  {
    hide KindOf, Names;
    NewMember(ms, m);
    var extra, all := Store(j, m).extra, ms + [m];
    forall n | n in extra
      ensures KindOf(n) == Extension && Member(n, extra[n]) in all
    {
      if n in j.extra {
        assert Member(n, j.extra[n]) in ms;
      }
    }
  }

  lemma KeysAreNames(extra: map<string, Json>, ms: seq<Member>)
    requires HoldsExtra(extra, ms)
    ensures extra.Keys <= Names(ms)
  {
    hide KindOf;
    forall n | n in extra
      ensures n in Names(ms)
    {
      assert Member(n, extra[n]) in ms;
    }
  }

  /** Everything the member loop needs to know about its turn `i`. */
  lemma Turn(ms: seq<Member>, i: nat, jwk: Jwk)
    requires i < |ms| && Holds(jwk, ms[..i]) && Distinct(ms[..i])
    ensures var m, init, more := ms[i], ms[..i], ms[..i + 1];
      && Names(more) == Names(init) + {m.name}
      && Total(more) == Total(init) + MemberCost(m)
      && Sum(more, IsExtension) == Sum(init, IsExtension) + IsExtension(m)
      && (m.name !in Names(init) ==> Distinct(more))
      && (m.name !in Names(init) && MemberOk(m) ==>
            Holds(Store(jwk, m), more) && |Store(jwk, m).extra| == |jwk.extra| + IsExtension(m))
      && (Accepts(ms) ==>
            && m.name !in Names(init) && MemberOk(m)
            && Total(more) <= MAX_PUBLIC_JWK_JSON_BYTES
            && Sum(more, IsExtension) <= MAX_JWK_EXTENSION_MEMBERS)
  {
    hide MemberOk, Store, MemberCost, KindOf, Distinct, Names, Sum, Holds;
    var m := ms[i];
    DistinctExtends(ms, i);
    SumGrows(ms, i, MemberCost);
    SumGrows(ms, i, IsExtension);
    assert ms[..i + 1] == ms[..i] + [m];
    if m.name !in Names(ms[..i]) && MemberOk(m) {
      StoreHolds(jwk, ms[..i], m);
      StoreExtraCount(jwk, ms[..i], m);
    }
  }

  /**
   * Accepts exactly the member lists `Accepts` describes, returns a record of exactly their values,
   * and leaves the budget short by exactly their total cost.
   */
  method Deserialize(ms: seq<Member>) returns (r: Option<Jwk>, left: nat)
    ensures r.Some? <==> Accepts(ms)
    ensures r.Some? ==> Holds(r.value, ms) && left == 65536 - Total(ms) && |r.value.extra| <= 32
  {
    hide Holds, MemberOk, Store, MemberCost, KindOf, Distinct, Names, Sum, Accepts;
    var jwk := Jwk("", map[], map[], map[]);
    var hasKty := false;
    var seen: set<string> := {};
    var budget := new Budget(MAX_PUBLIC_JWK_JSON_BYTES);
    NothingRead(ms);
    for i := 0 to |ms|
      invariant Distinct(ms[..i]) && seen == Names(ms[..i])
      invariant forall k :: 0 <= k < i ==> MemberOk(ms[k])
      invariant hasKty <==> "kty" in seen
      invariant |jwk.extra| == Sum(ms[..i], IsExtension) <= MAX_JWK_EXTENSION_MEMBERS
      invariant budget.remaining + Total(ms[..i]) == MAX_PUBLIC_JWK_JSON_BYTES
      invariant Holds(jwk, ms[..i])
    {
      Turn(ms, i, jwk);
      if ms[i].name in seen {
        return None, 0;
      }
      seen := seen + {ms[i].name};
      var next := ParseMember(ms[i], jwk, budget);
      if next.None? {
        return None, 0;
      }
      jwk := next.value;
      hasKty := hasKty || ms[i].name == "kty";
    }
    assert ms[..|ms|] == ms;
    EverythingRead(ms);
    if !hasKty {
      return None, 0;
    }
    return Some(jwk), budget.remaining;
  }

  lemma EverythingRead(ms: seq<Member>)
    requires Distinct(ms) && forall k :: 0 <= k < |ms| ==> MemberOk(ms[k])
    requires Sum(ms, IsExtension) <= MAX_JWK_EXTENSION_MEMBERS && Total(ms) <= MAX_PUBLIC_JWK_JSON_BYTES
    ensures Accepts(ms) <==> "kty" in Names(ms)
  {
    hide Distinct, MemberOk, Sum, Names;
  }

  lemma StoreExtraCount(j: Jwk, ms: seq<Member>, m: Member)
    requires Holds(j, ms) && m.name !in Names(ms)
    ensures |Store(j, m).extra| == |j.extra| + IsExtension(m)
  {
    hide KindOf, Names, HoldsTexts, HoldsLists, HoldsExtra, HoldsKty;
    KeysAreNames(j.extra, ms);
  }

  lemma NothingRead(ms: seq<Member>)
    ensures Distinct(ms[..0]) && Names(ms[..0]) == {}
    ensures Sum(ms[..0], MemberCost) == 0 && Sum(ms[..0], IsExtension) == 0
    ensures Holds(Jwk("", map[], map[], map[]), ms[..0])
  {
  }
}
