/** Whole journeys of a key: set extensions, write and read back; read and convert. */
module JwkLifecycle {
  import opened Json
  import opened Jwk
  import opened JwkExtensions
  import opened JwkRoundTrip
  import opened Options

  // ---- A map may be listed in any order ----

  lemma {:induction false} DistinctOnce(ms: seq<Member>, m: Member)
    requires Distinct(ms)
    ensures multiset(ms)[m] == if m in ms then 1 else 0
  {
    if ms != [] {
      var n := |ms| - 1;
      DistinctOnce(ms[..n], m);
      assert ms == ms[..n] + [ms[n]];
      assert forall k :: 0 <= k < n ==> ms[..n][k].name != ms[n].name;
    }
  }

  /** Two listings of one map are permutations of each other. */
  lemma SameListing(extensions: map<string, Json>, a: seq<Member>, b: seq<Member>)
    requires Distinct(a) && HoldsEntries(extensions, a) && Distinct(b) && HoldsEntries(extensions, b)
    ensures multiset(a) == multiset(b)
  {
    forall m
      ensures multiset(a)[m] == multiset(b)[m]
    {
      DistinctOnce(a, m);
      DistinctOnce(b, m);
      assert m == Member(m.name, m.value);
    }
  }

  function EntryCost(m: Member): nat {
    |m.name| + Cost(m.value)
  }

  function EntrySize(m: Member): nat {
    |m.name| + Size(m.value)
  }

  lemma {:induction false} EntrySums(ms: seq<Member>)
    ensures CostMembers(ms) == Sum(ms, EntryCost) && SizeMembers(ms) == Sum(ms, EntrySize)
  {
    hide Cost, Size;
    if ms != [] {
      EntrySums(ms[..|ms| - 1]);
    }
  }

  lemma ListingIrrelevant(a: seq<Member>, b: seq<Member>)
    requires multiset(a) == multiset(b)
    ensures ValidExtensions(a) <==> ValidExtensions(b)
    ensures CostMembers(a) == CostMembers(b) && SizeMembers(a) == SizeMembers(b)
  {
    hide CostMembers, SizeMembers, Sum, Shape, KindOf;
    EntrySums(a);
    EntrySums(b);
    SumPermutes(a, b, EntryCost);
    SumPermutes(a, b, EntrySize);
    assert |a| == |multiset(a)| == |multiset(b)| == |b|;
    ElementsPermute(a, b);
    ElementsPermute(b, a);
  }

  lemma ElementsPermute(a: seq<Member>, b: seq<Member>)
    requires multiset(a) == multiset(b)
    ensures forall i :: 0 <= i < |a| ==> a[i] in b
  {
    forall i | 0 <= i < |a|
      ensures a[i] in b
    {
      assert a[i] in multiset(a);
    }
  }

  // ---- What an accepted key looks like ----

  predicate ShortString(v: Json) {
    v.Text? && |v.s| <= 16384
  }

  /** Not private, a short name, and the type its name demands. */
  predicate LooksRight(m: Member) {
    && |m.name| <= 16384
    && m.name !in ["d", "rsa_d", "p", "q", "dp", "dq", "qi", "oth", "k"]
    && (m.name == "kty" ==> ShortString(m.value))
    && (m.name in ["use", "alg", "kid", "x5u", "x5t", "x5t#S256", "crv", "x", "y", "n", "e"] ==>
          m.value == Null || ShortString(m.value))
    && (m.name in ["key_ops", "x5c"] ==> m.value == Null || m.value.Array?)
  }

  lemma KindsAre(name: string)
    ensures KindOf(name) == Private <==> name in ["d", "rsa_d", "p", "q", "dp", "dq", "qi", "oth", "k"]
    ensures KindOf(name) == TextField <==>
            name in ["use", "alg", "kid", "x5u", "x5t", "x5t#S256", "crv", "x", "y", "n", "e"]
    ensures KindOf(name) == ListField <==> name in ["key_ops", "x5c"]
    ensures KindOf(name) == KeyType <==> name == "kty"
  {
  }

  lemma MemberLooksRight(m: Member)
    requires MemberOk(m)
    ensures LooksRight(m)
  {
    KindsAre(m.name);
    hide KindOf, Shape;
  }

  /** Read off the members: `kty` is there, once, nothing private is, and typed members have their types. */
  lemma AcceptsSays(ms: seq<Member>)
    requires Accepts(ms)
    ensures exists i :: 0 <= i < |ms| && ms[i].name == "kty"
    ensures forall i, j :: 0 <= i < j < |ms| ==> ms[i].name != ms[j].name
    ensures forall i :: 0 <= i < |ms| ==> LooksRight(ms[i])
  {
    hide MemberOk, LooksRight, Sum, Total;
    forall i | 0 <= i < |ms|
      ensures LooksRight(ms[i])
    {
      MemberLooksRight(ms[i]);
    }
    var m :| m in ms && m.name == "kty";
  }

  lemma SumAppend(ms: seq<Member>, m: Member, w: Member -> nat)
    ensures Sum(ms + [m], w) == Sum(ms, w) + w(m)
  {
    assert (ms + [m])[..|ms|] == ms;
  }

  lemma NullIsNotHeld(j: Jwk, ms: seq<Member>, m: Member)
    requires Holds(j, ms) && IsField(m.name) && m.value == Null
    ensures Holds(j, ms + [m])
  {
    FieldNames(m.name);
    hide KindOf;
    var all := ms + [m];
    assert forall x :: x in all <==> x in ms || x == m;
    assert HoldsKty(j.kty, all) && HoldsTexts(j.texts, all);
    assert HoldsLists(j.lists, all) && HoldsExtra(j.extra, all);
  }

  lemma NullIsAccepted(ms: seq<Member>, m: Member)
    requires Accepts(ms) && MemberOk(m) && m.name !in Names(ms) && IsExtension(m) == 0
    ensures Accepts(ms + [m]) <==> Total(ms + [m]) <= 65536
  {
    hide MemberOk, Sum, IsExtension, Total;
    var all := ms + [m];
    SumAppend(ms, m, IsExtension);
    assert forall i :: 0 <= i < |ms| ==> all[i] == ms[i] && ms[i].name in Names(ms) by {
      assert forall x :: x in ms ==> x.name in Names(ms);
    }
    assert "kty" in Names(all) by {
      var k :| k in ms && k.name == "kty";
      assert k in all;
    }
  }

  /** A typed optional member that is null costs its name and leaves the record as it is. */
  lemma NullMember(j: Jwk, ms: seq<Member>, m: Member)
    requires Accepts(ms) && Holds(j, ms) && IsField(m.name) && m.value == Null && m.name !in Names(ms)
    ensures Total(ms + [m]) == Total(ms) + |m.name|
    ensures Accepts(ms + [m]) <==> Total(ms) + |m.name| <= 65536
    ensures Holds(j, ms + [m])
  {
    FieldNames(m.name);
    hide KindOf, Shape, Sum, Accepts, Holds, Names;
    SumAppend(ms, m, MemberCost);
    NullIsAccepted(ms, m);
    NullIsNotHeld(j, ms, m);
  }

  // ---- Written extensions ----

  lemma {:induction false} ExtensionsConcat(a: seq<Member>, b: seq<Member>)
    ensures Extensions(a + b) == Extensions(a) + Extensions(b)
  {
    hide KindOf;
    if b == [] {
      assert a + b == a;
    } else {
      var n := |b| - 1;
      ExtensionsConcat(a, b[..n]);
      assert (a + b)[..|a + b| - 1] == a + b[..n];
    }
  }

  lemma {:induction false} OnlyTyped(ms: seq<Member>)
    requires forall m :: m in ms ==> KindOf(m.name) != Extension
    ensures Extensions(ms) == []
  {
    hide KindOf;
    if ms != [] {
      OnlyTyped(ms[..|ms| - 1]);
    }
  }

  lemma {:induction false} OnlyExtensions(ms: seq<Member>)
    requires forall i :: 0 <= i < |ms| ==> KindOf(ms[i].name) == Extension
    ensures Extensions(ms) == ms
  {
    hide KindOf;
    if ms != [] {
      var n := |ms| - 1;
      OnlyExtensions(ms[..n]);
      assert ms == ms[..n] + [ms[n]];
    }
  }

  /** The extensions of the written key are the listed extensions. */
  lemma ExtensionsOfWritten(j: Jwk, entries: seq<Member>)
    requires WellTyped(j) && HoldsEntries(j.extra, entries)
    ensures Extensions(Write(j, entries)) == entries
  {
    FieldNames("kty");
    hide KindOf, Extensions, WriteFields;
    var kty, fields := [Member("kty", Text(j.kty))], WriteFields(j, FIELD_ORDER);
    FieldsDiffer();
    FieldsWritten(j, FIELD_ORDER);
    forall m: Member | m in kty + fields
      ensures KindOf(m.name) != Extension
    {
      FieldNames(m.name);
    }
    OnlyTyped(kty + fields);
    assert forall i :: 0 <= i < |entries| ==> entries[i] in entries;
    OnlyExtensions(entries);
    ExtensionsConcat(kty + fields, entries);
  }

  // ---- What writing costs ----

  function TotalLength(texts: seq<string>): nat {
    if texts == [] then 0 else TotalLength(texts[..|texts| - 1]) + |texts[|texts| - 1]|
  }

  /** The name and the characters of a field that is present. */
  function FieldCost(j: Jwk, n: string): nat {
    if n in j.texts then |n| + |j.texts[n]|
    else if n in j.lists then |n| + TotalLength(j.lists[n])
    else 0
  }

  function FieldsCost(j: Jwk, fields: seq<string>): nat {
    if fields == [] then 0 else FieldsCost(j, fields[..|fields| - 1]) + FieldCost(j, fields[|fields| - 1])
  }

  lemma {:induction false} SumConcat(a: seq<Member>, b: seq<Member>, w: Member -> nat)
    ensures Sum(a + b, w) == Sum(a, w) + Sum(b, w)
  {
    if b == [] {
      assert a + b == a;
    } else {
      var n := |b| - 1;
      SumConcat(a, b[..n], w);
      assert (a + b)[..|a + b| - 1] == a + b[..n];
    }
  }

  lemma SumOne(m: Member, w: Member -> nat)
    ensures Sum([m], w) == w(m)
  {
    assert Sum([m][..0], w) == 0;
  }

  lemma {:induction false} TextItemsCost(texts: seq<string>)
    ensures CostItems(TextItems(texts)) == TotalLength(texts)
  {
    if texts != [] {
      var n := |texts| - 1;
      TextItemsCost(texts[..n]);
      assert TextItems(texts)[..n] == TextItems(texts[..n]);
    }
  }

  lemma FieldIsCharged(j: Jwk, n: string)
    requires KindOf(n) != Extension
    ensures Sum(WriteField(j, n), TypedCost) == FieldCost(j, n)
  {
    hide KindOf, CostItems, TotalLength, TextItems, Sum;
    if n in j.texts {
      SumOne(Member(n, Text(j.texts[n])), TypedCost);
    } else if n in j.lists {
      TextItemsCost(j.lists[n]);
      SumOne(Member(n, Array(TextItems(j.lists[n]))), TypedCost);
    } else {
      NoMembers();
    }
  }

  lemma NoMembers()
    ensures Sum([], TypedCost) == 0
  {
  }

  lemma {:induction false} FieldsAreCharged(j: Jwk, fields: seq<string>)
    requires forall i :: 0 <= i < |fields| ==> KindOf(fields[i]) != Extension
    ensures Sum(WriteFields(j, fields), TypedCost) == FieldsCost(j, fields)
  {
    hide KindOf, FieldCost, WriteField;
    if fields != [] {
      var n := |fields| - 1;
      FieldsAreCharged(j, fields[..n]);
      FieldIsCharged(j, fields[n]);
      SumConcat(WriteFields(j, fields[..n]), WriteField(j, fields[n]), TypedCost);
    }
  }

  lemma {:induction false} ExtensionsAreFree(ms: seq<Member>)
    requires forall m :: m in ms ==> KindOf(m.name) == Extension
    ensures Sum(ms, TypedCost) == 0
  {
    hide KindOf;
    if ms != [] {
      ExtensionsAreFree(ms[..|ms| - 1]);
    }
  }

  /** The typed cost of a written key: the names and characters of the fields it has. */
  lemma WrittenTypedCost(j: Jwk, entries: seq<Member>)
    requires WellTyped(j) && HoldsEntries(j.extra, entries)
    ensures Sum(Write(j, entries), TypedCost) == 3 + |j.kty| + FieldsCost(j, FIELD_ORDER)
  {
    FieldNames("kty");
    forall i | 0 <= i < |FIELD_ORDER|
      ensures KindOf(FIELD_ORDER[i]) != Extension
    {
      FieldNames(FIELD_ORDER[i]);
    }
    hide KindOf, Sum, WriteFields, FieldsCost;
    var kty, fields := Member("kty", Text(j.kty)), WriteFields(j, FIELD_ORDER);
    SumConcat([kty] + fields, entries, TypedCost);
    SumConcat([kty], fields, TypedCost);
    SumOne(kty, TypedCost);
    FieldsAreCharged(j, FIELD_ORDER);
    ExtensionsAreFree(entries);
  }

  // ---- Set, write, read ----

  /** A key with valid extensions, written in any listing, is read back exactly within the budget. */
  method WriteRead(j: Jwk, entries: seq<Member>) returns (r: Option<Jwk>)
    requires WellTyped(j) && Distinct(entries) && HoldsEntries(j.extra, entries) && ValidExtensions(entries)
    ensures r == if TypedInLimits(j)
                    && Sum(Write(j, entries), TypedCost) + CostMembers(entries) <= MAX_PUBLIC_JWK_JSON_BYTES
                 then Some(j) else None
  {
    hide WellTyped, HoldsEntries, ValidExtensions, TypedInLimits, Write, Extensions, Serialises, Sum, CostMembers;
    WriteSerialises(j, entries);
    ExtensionsOfWritten(j, entries);
    r := Reparse(j, Write(j, entries));
  }

  /**
   * From the setter to the reader: extensions are installed exactly when they are valid, and then
   * the written key is read back unchanged exactly when its typed fields respect the limits and
   * typed cost and extension cost together fit the budget. The setter may see the map in one order
   * and the writer in another.
   */
  method SetWriteRead(jwk: PublicJwk, extensions: map<string, Json>, entries: seq<Member>, written: seq<Member>,
                      usizeMax: nat)
    returns (ok: bool, r: Option<Jwk>)
    requires WellTyped(jwk.value)
    requires Distinct(entries) && HoldsEntries(extensions, entries)
    requires Distinct(written) && HoldsEntries(extensions, written)
    requires usizeMax >= MAX_PUBLIC_JWK_JSON_BYTES && forall m :: m in entries ==> Canonical(m.value)
    modifies jwk
    ensures ok <==> ValidExtensions(entries)
    ensures jwk.value == if ok then old(jwk.value).(extra := extensions) else old(jwk.value)
    ensures r == if && ok && TypedInLimits(jwk.value)
                    && Sum(Write(jwk.value, written), TypedCost) + CostMembers(entries) <= MAX_PUBLIC_JWK_JSON_BYTES
                 then Some(jwk.value) else None
  {
    hide TypedInLimits, Write, Sum, CostMembers, SizeMembers, Shape, KindOf, Distinct;
    ok := jwk.SetPublicExtensions(extensions, entries, usizeMax);
    r := None;
    if ok {
      SameListing(extensions, entries, written);
      ListingIrrelevant(entries, written);
      NamesAreExtensions(extensions, entries);
      r := WriteRead(jwk.value, written);
    }
  }

  lemma NamesAreExtensions(extensions: map<string, Json>, entries: seq<Member>)
    requires HoldsEntries(extensions, entries) && ValidExtensions(entries)
    ensures forall n :: n in extensions ==> KindOf(n) == Extension
  {
    hide KindOf, Shape, SizeMembers;
    forall n | n in extensions
      ensures KindOf(n) == Extension
    {
      var i :| 0 <= i < |entries| && entries[i] == Member(n, extensions[n]);
    }
  }

  // ---- Read, convert ----

  /** The extensions of a key just read, listed from its map, are those of its members. */
  lemma ReadListing(j: Jwk, ms: seq<Member>, entries: seq<Member>)
    requires Distinct(ms) && Holds(j, ms) && Distinct(entries) && HoldsEntries(j.extra, entries)
    ensures multiset(entries) == multiset(Extensions(ms))
  {
    hide KindOf, Extensions, Distinct;
    ExtensionsAre(ms);
    ExtensionsDistinct(ms);
    SameListing(j.extra, entries, Extensions(ms));
  }

  lemma {:induction false} ExtensionsDistinct(ms: seq<Member>)
    requires Distinct(ms)
    ensures Distinct(Extensions(ms))
  {
    hide KindOf;
    if ms != [] {
      var n := |ms| - 1;
      var init := Extensions(ms[..n]);
      ExtensionsDistinct(ms[..n]);
      ExtensionsAre(ms[..n]);
      assert forall k :: 0 <= k < |init| ==> init[k] in init;
      assert forall k :: 0 <= k < n ==> ms[..n][k] == ms[k] && ms[k].name != ms[n].name;
    }
  }

  /**
   * The conversion of a key just read into the verifier's own key installs the same extensions
   * once more. It succeeds, with the same key, exactly when the validator's size fits.
   */
  method Convert(j: Jwk, ms: seq<Member>, entries: seq<Member>, usizeMax: nat) returns (r: Option<Jwk>)
    requires Accepts(ms) && Holds(j, ms) && usizeMax >= MAX_PUBLIC_JWK_JSON_BYTES
    requires Distinct(entries) && HoldsEntries(j.extra, entries)
    ensures r == if SizeMembers(Extensions(ms)) <= MAX_PUBLIC_JWK_JSON_BYTES then Some(j) else None
  {
    hide Shape, KindOf, SizeMembers, Extensions, Sum, Holds, Distinct, HoldsEntries, ValidExtensions, Canonical,
      Validate;
    ReadListing(j, ms, entries);
    ListingIrrelevant(entries, Extensions(ms));
    ReadAreCanonical(ms, entries);
    ReadExtensionsRevalidate(ms, usizeMax);
    ReadAreCanonical(ms, Extensions(ms));
    ValidateMeaning(Extensions(ms), usizeMax);
    var copy := new PublicJwk(j.(extra := map[]));
    var ok := copy.SetPublicExtensions(j.extra, entries, usizeMax);
    r := if ok then Some(copy.value) else None;
  }

  lemma ReadAreCanonical(ms: seq<Member>, entries: seq<Member>)
    requires multiset(entries) == multiset(Extensions(ms)) && forall i :: 0 <= i < |ms| ==> MemberOk(ms[i])
    ensures forall m :: m in entries ==> Canonical(m.value)
  {
    hide Shape, KindOf, Extensions, Canonical;
    ExtensionsAre(ms);
    forall m | m in entries
      ensures Canonical(m.value)
    {
      assert m in multiset(entries);
      assert m in Extensions(ms);
      var k :| 0 <= k < |ms| && ms[k] == m;
      assert MemberOk(ms[k]);
      ShapeIsCanonical(m.value, 0);
    }
  }
}
