/** Writing a key as JSON members and reading it back. */
module JwkRoundTrip {
  import opened Json
  import opened Jwk
  import opened JwkParser
  import opened JwkExtensions
  import opened Options

  /** Typed optional fields in declaration order. */
  const FIELD_ORDER: seq<string> :=
    ["use", "key_ops", "alg", "kid", "x5u", "x5c", "x5t", "x5t#S256", "crv", "x", "y", "n", "e"]

  /** The member that writes a field, or nothing when the field is absent. */
  function WriteField(j: Jwk, n: string): seq<Member> {
    if n in j.texts then [Member(n, Text(j.texts[n]))]
    else if n in j.lists then [Member(n, Array(TextItems(j.lists[n])))]
    else []
  }

  function WriteFields(j: Jwk, fields: seq<string>): seq<Member> {
    if fields == [] then []
    else WriteFields(j, fields[..|fields| - 1]) + WriteField(j, fields[|fields| - 1])
  }

  /** `entries` lists the extension map in its iteration order. */
  function Write(j: Jwk, entries: seq<Member>): seq<Member> {
    [Member("kty", Text(j.kty))] + WriteFields(j, FIELD_ORDER) + entries
  }

  /** Field names are where the struct declares them and extensions are not reserved names. */
  ghost predicate WellTyped(j: Jwk) {
    && (forall n :: n in j.texts ==> KindOf(n) == TextField)
    && (forall n :: n in j.lists ==> KindOf(n) == ListField)
    && (forall n :: n in j.extra ==> KindOf(n) == Extension)
  }

  /** No null and no private member is ever written. */
  predicate Written(m: Member) {
    match KindOf(m.name)
    case KeyType => m.value.Text?
    case TextField => m.value.Text?
    case ListField => m.value.Array? && forall i :: 0 <= i < |m.value.items| ==> m.value.items[i].Text?
    case Private => false
    case Extension => true
  }

  /** `ms` writes out `j`, in any member order. */
  ghost predicate Serialises(j: Jwk, ms: seq<Member>) {
    && Distinct(ms) && "kty" in Names(ms) && Holds(j, ms)
    && forall i :: 0 <= i < |ms| ==> Written(ms[i])
  }

  lemma FieldNames(n: string)
    ensures n in FIELD_ORDER <==> KindOf(n) == TextField || KindOf(n) == ListField
    ensures KindOf(n) == KeyType <==> n == "kty"
    ensures KindOf(n) != Extension ==> |n| <= 8
  {
  }

  lemma FieldsDiffer()
    ensures forall i, j :: 0 <= i < j < |FIELD_ORDER| ==> FIELD_ORDER[i] != FIELD_ORDER[j]
  {
  }

  /** The member that writes field `n`, if the field is present. */
  ghost predicate WritesField(j: Jwk, m: Member) {
    if m.name in j.texts then m.value == Text(j.texts[m.name])
    else m.name in j.lists && m.value == Array(TextItems(j.lists[m.name]))
  }

  lemma FieldWritten(j: Jwk, n: string)
    ensures forall m :: m in WriteField(j, n) <==> m.name == n && WritesField(j, m)
    ensures Distinct(WriteField(j, n))
  {
  }

  lemma {:induction false} FieldsWritten(j: Jwk, fields: seq<string>)
    requires forall i, k :: 0 <= i < k < |fields| ==> fields[i] != fields[k]
    ensures forall m :: m in WriteFields(j, fields) <==> m.name in fields && WritesField(j, m)
    ensures Distinct(WriteFields(j, fields))
  {
    hide WriteField, WritesField, Distinct;
    if fields == [] {
      assert Distinct(WriteFields(j, fields)) by { NothingRead([]); }
    } else {
      var n := |fields| - 1;
      var init, last := WriteFields(j, fields[..n]), WriteField(j, fields[n]);
      FieldsWritten(j, fields[..n]);
      FieldWritten(j, fields[n]);
      assert fields == fields[..n] + [fields[n]] && fields[n] !in fields[..n];
      DistinctConcat(init, last);
    }
  }

  lemma DistinctConcat(a: seq<Member>, b: seq<Member>)
    requires Distinct(a) && Distinct(b) && Names(a) !! Names(b)
    ensures Distinct(a + b)
  {
    var c := a + b;
    forall i, j | 0 <= i < j < |c|
      ensures c[i].name != c[j].name
    {
      if i < |a| <= j {
        assert a[i].name in Names(a) && b[j - |a|].name in Names(b);
      }
    }
  }

  lemma TextItemsInjective(a: seq<string>, b: seq<string>)
    requires TextItems(a) == TextItems(b)
    ensures a == b
  {
    assert forall i :: 0 <= i < |a| ==> TextItems(a)[i] == TextItems(b)[i];
  }

  /** Writing a key lists exactly its values, each once. */
  lemma WriteSerialises(j: Jwk, entries: seq<Member>)
    requires WellTyped(j) && Distinct(entries) && HoldsEntries(j.extra, entries)
    ensures Serialises(j, Write(j, entries))
  {
    hide KindOf, Serialises, WriteFields;
    FieldsDiffer();
    FieldsWritten(j, FIELD_ORDER);
    forall m
      ensures m in WriteFields(j, FIELD_ORDER) <==> IsField(m.name) && WritesField(j, m)
    {
      FieldNames(m.name);
    }
    PartsSerialise(j, WriteFields(j, FIELD_ORDER), entries);
  }

  predicate IsField(name: string) {
    KindOf(name) == TextField || KindOf(name) == ListField
  }

  lemma PartsSerialise(j: Jwk, fields: seq<Member>, entries: seq<Member>)
    requires WellTyped(j)
    requires Distinct(fields) && forall m :: m in fields <==> IsField(m.name) && WritesField(j, m)
    requires Distinct(entries) && HoldsEntries(j.extra, entries)
    ensures Serialises(j, [Member("kty", Text(j.kty))] + fields + entries)
  {
    hide Holds;
    FieldNames("kty");
    hide KindOf, Distinct;
    var kty := [Member("kty", Text(j.kty))];
    var ms := kty + fields + entries;
    assert Distinct(kty) by { SingleIsDistinct(kty[0]); }
    assert forall m :: m in fields ==> IsField(m.name);
    assert forall m :: m in entries ==> KindOf(m.name) == Extension;
    DistinctConcat(kty, fields);
    DistinctConcat(kty + fields, entries);
    assert forall m :: m in ms <==> m == kty[0] || m in fields || m in entries;
    WriteHolds(j, entries, ms);
    AllWritten(j, ms);
    assert ms[0].name == "kty" && ms[0] in ms;
  }

  lemma SingleIsDistinct(m: Member)
    ensures Distinct([m])
  {
  }

  lemma AllWritten(j: Jwk, ms: seq<Member>)
    requires WellTyped(j) && KindOf("kty") == KeyType
    requires forall m :: m in ms ==>
               || m == Member("kty", Text(j.kty)) || (IsField(m.name) && WritesField(j, m))
               || KindOf(m.name) == Extension
    ensures forall i :: 0 <= i < |ms| ==> Written(ms[i])
  {
    hide KindOf;
    forall i | 0 <= i < |ms|
      ensures Written(ms[i])
    {
      assert ms[i] in ms;
    }
  }

  lemma WriteHolds(j: Jwk, entries: seq<Member>, ms: seq<Member>)
    requires WellTyped(j) && HoldsEntries(j.extra, entries)
    requires forall m :: m in ms <==>
               || m == Member("kty", Text(j.kty)) || (IsField(m.name) && WritesField(j, m)) || m in entries
    ensures Holds(j, ms)
  {
    FieldNames("kty");
    hide KindOf, WritesField, HoldsTexts, HoldsLists;
    WriteHoldsTexts(j, entries, ms);
    WriteHoldsLists(j, entries, ms);
    assert HoldsExtra(j.extra, ms);
  }

  lemma WriteHoldsTexts(j: Jwk, entries: seq<Member>, ms: seq<Member>)
    requires WellTyped(j) && KindOf("kty") == KeyType && forall m :: m in entries ==> KindOf(m.name) == Extension
    requires forall m :: m in ms <==>
               || m == Member("kty", Text(j.kty)) || (IsField(m.name) && WritesField(j, m)) || m in entries
    ensures HoldsTexts(j.texts, ms)
  {
    hide KindOf, TextItems;
  }

  lemma WriteHoldsLists(j: Jwk, entries: seq<Member>, ms: seq<Member>)
    requires WellTyped(j) && KindOf("kty") == KeyType && forall m :: m in entries ==> KindOf(m.name) == Extension
    requires forall m :: m in ms <==>
               || m == Member("kty", Text(j.kty)) || (IsField(m.name) && WritesField(j, m)) || m in entries
    ensures HoldsLists(j.lists, ms)
  {
    hide KindOf, TextItems;
    forall n | n in j.lists
      ensures Member(n, Array(TextItems(j.lists[n]))) in ms
    {
      assert n !in j.texts;
    }
  }

  // ---- Reading back ----

  function Extensions(ms: seq<Member>): seq<Member> {
    if ms == [] then []
    else
      Extensions(ms[..|ms| - 1]) +
      if KindOf(ms[|ms| - 1].name) == Extension then [ms[|ms| - 1]] else []
  }

  function TypedCost(m: Member): nat {
    if KindOf(m.name) == Extension then 0 else MemberCost(m)
  }

  lemma {:induction false} TotalSplits(ms: seq<Member>)
    ensures Total(ms) == Sum(ms, TypedCost) + CostMembers(Extensions(ms))
    ensures |Extensions(ms)| == Sum(ms, IsExtension)
  {
    hide KindOf, Cost;
    if ms != [] {
      var n := |ms| - 1;
      TotalSplits(ms[..n]);
      if KindOf(ms[n].name) == Extension {
        var ext := Extensions(ms);
        assert ext[..|ext| - 1] == Extensions(ms[..n]);
        assert CostMembers(ext) == CostMembers(Extensions(ms[..n])) + MemberCost(ms[n]);
      } else {
        assert Extensions(ms) == Extensions(ms[..n]);
      }
    }
  }

  lemma {:induction false} ExtensionsAre(ms: seq<Member>)
    ensures forall m :: m in Extensions(ms) <==> m in ms && KindOf(m.name) == Extension
  {
    hide KindOf;
    if ms != [] {
      var n := |ms| - 1;
      ExtensionsAre(ms[..n]);
      assert ms == ms[..n] + [ms[n]];
    }
  }

  ghost predicate TypedInLimits(j: Jwk) {
    && |j.kty| <= MAX_JWK_MEMBER_BYTES
    && (forall n :: n in j.texts ==> |j.texts[n]| <= MAX_JWK_MEMBER_BYTES)
    && (forall n :: n in j.lists ==>
         && |j.lists[n]| <= MAX_JWK_LIST_ITEMS
         && forall i :: 0 <= i < |j.lists[n]| ==> |j.lists[n][i]| <= MAX_JWK_MEMBER_BYTES)
  }

  lemma WrittenMemberOk(j: Jwk, ms: seq<Member>, i: nat)
    requires i < |ms| && Holds(j, ms) && Written(ms[i]) && TypedInLimits(j)
    requires KindOf(ms[i].name) == Extension ==>
               |ms[i].name| <= MAX_JWK_MEMBER_BYTES && Shape(ms[i].value, 0)
    ensures MemberOk(ms[i])
  {
    var m := ms[i];
    FieldNames(m.name);
    hide KindOf, Shape;
    assert m == Member(m.name, m.value) && m in ms;
    match KindOf(m.name)
    case ListField =>
      var l := j.lists[m.name];
      assert forall k :: 0 <= k < |l| ==> m.value.items[k] == Text(l[k]);
    case _ =>
  }

  /** Members that hold the same values make the same record. */
  lemma HoldsUnique(a: Jwk, b: Jwk, ms: seq<Member>)
    requires Holds(a, ms) && Holds(b, ms) && "kty" in Names(ms)
    ensures a == b
  {
    hide KindOf;
    var m :| m in ms && m.name == "kty";
    SameTexts(a.texts, b.texts, ms);
    SameLists(a.lists, b.lists, ms);
    SameExtra(a.extra, b.extra, ms);
  }

  lemma SameTexts(a: map<string, string>, b: map<string, string>, ms: seq<Member>)
    requires HoldsTexts(a, ms) && HoldsTexts(b, ms)
    ensures a == b
  {
    forall n | n in a ensures n in b && b[n] == a[n] { assert Member(n, Text(a[n])) in ms; }
    forall n | n in b ensures n in a { assert Member(n, Text(b[n])) in ms; }
  }

  lemma SameLists(a: map<string, seq<string>>, b: map<string, seq<string>>, ms: seq<Member>)
    requires HoldsLists(a, ms) && HoldsLists(b, ms)
    ensures a == b
  {
    forall n | n in a
      ensures n in b && b[n] == a[n]
    {
      assert Member(n, Array(TextItems(a[n]))) in ms;
      TextItemsInjective(a[n], b[n]);
    }
    forall n | n in b ensures n in a { assert Member(n, Array(TextItems(b[n]))) in ms; }
  }

  lemma SameExtra(a: map<string, Json>, b: map<string, Json>, ms: seq<Member>)
    requires HoldsExtra(a, ms) && HoldsExtra(b, ms)
    ensures a == b
  {
    forall n | n in a ensures n in b && b[n] == a[n] { assert Member(n, a[n]) in ms; }
    forall n | n in b ensures n in a { assert Member(n, b[n]) in ms; }
  }

  lemma ReadFieldsInLimits(j: Jwk, ms: seq<Member>)
    requires Holds(j, ms) && "kty" in Names(ms) && forall i :: 0 <= i < |ms| ==> MemberOk(ms[i])
    ensures TypedInLimits(j)
  {
    FieldNames("kty");
    hide KindOf, Shape;
    assert forall m :: m in ms ==> MemberOk(m);
    var kty :| kty in ms && kty.name == "kty";
    forall n | n in j.texts
      ensures |j.texts[n]| <= MAX_JWK_MEMBER_BYTES
    {
      assert MemberOk(Member(n, Text(j.texts[n])));
    }
    forall n | n in j.lists
      ensures |j.lists[n]| <= MAX_JWK_LIST_ITEMS
      ensures forall i :: 0 <= i < |j.lists[n]| ==> |j.lists[n][i]| <= MAX_JWK_MEMBER_BYTES
    {
      var items := TextItems(j.lists[n]);
      assert MemberOk(Member(n, Array(items)));
      assert forall i :: 0 <= i < |items| ==> ShortText(items[i]);
    }
  }

  lemma WrittenIsAccepted(j: Jwk, ms: seq<Member>)
    requires Serialises(j, ms) && ValidExtensions(Extensions(ms))
    ensures Accepts(ms) <==>
            TypedInLimits(j) && Sum(ms, TypedCost) + CostMembers(Extensions(ms)) <= MAX_PUBLIC_JWK_JSON_BYTES
  {
    hide KindOf, Shape, MemberOk, Holds, Sum, Written, CostMembers, Extensions, SizeMembers, TypedInLimits;
    var exts := Extensions(ms);
    TotalSplits(ms);
    ExtensionsAre(ms);
    if Accepts(ms) {
      ReadFieldsInLimits(j, ms);
    }
    if TypedInLimits(j) {
      forall i | 0 <= i < |ms|
        ensures MemberOk(ms[i])
      {
        if KindOf(ms[i].name) == Extension {
          assert ms[i] in exts;
          var k :| 0 <= k < |exts| && exts[k] == ms[i];
          assert Shape(exts[k].value, 0);
        }
        WrittenMemberOk(j, ms, i);
      }
    }
  }

  /**
   * A key whose extensions pass the validator is read back unchanged exactly when its typed fields
   * respect the limits and typed and extension cost together fit the budget.
   */
  method Reparse(j: Jwk, ms: seq<Member>) returns (r: Option<Jwk>)
    requires Serialises(j, ms) && ValidExtensions(Extensions(ms))
    ensures r == if TypedInLimits(j)
                    && Sum(ms, TypedCost) + CostMembers(Extensions(ms)) <= MAX_PUBLIC_JWK_JSON_BYTES
                 then Some(j) else None
  {
    hide Holds, Sum, CostMembers, Extensions, TypedInLimits, Accepts, ValidExtensions;
    WrittenIsAccepted(j, ms);
    var left;
    r, left := Deserialize(ms);
    if r.Some? {
      HoldsUnique(r.value, j, ms);
    }
  }

  lemma SameMembers(a: seq<Member>, b: seq<Member>)
    requires multiset(a) == multiset(b)
    ensures forall m :: m in a <==> m in b
    ensures Names(a) == Names(b)
  {
    assert forall m :: m in a <==> m in multiset(a);
    assert forall m :: m in b <==> m in multiset(b);
  }

  lemma MembersOkPermute(a: seq<Member>, b: seq<Member>)
    requires forall m :: m in a <==> m in b
    requires forall i :: 0 <= i < |a| ==> MemberOk(a[i])
    ensures forall i :: 0 <= i < |b| ==> MemberOk(b[i])
  {
    hide MemberOk;
    forall i | 0 <= i < |b|
      ensures MemberOk(b[i])
    {
      assert b[i] in a;
    }
  }

  lemma HoldsPermutes(j: Jwk, a: seq<Member>, b: seq<Member>)
    requires (forall m :: m in a <==> m in b) && Holds(j, a)
    ensures Holds(j, b)
  {
    hide KindOf;
  }

  /** Reading never depends on the order of the members. */
  lemma MemberOrderIrrelevant(a: seq<Member>, b: seq<Member>)
    requires multiset(a) == multiset(b)
    ensures Accepts(a) <==> Accepts(b)
    ensures Total(a) == Total(b)
    ensures forall j :: Holds(j, a) <==> Holds(j, b)
  {
    hide MemberOk, Distinct, Sum, Holds, Names;
    SameMembers(a, b);
    DistinctPermutes(a, b);
    SumPermutes(a, b, MemberCost);
    SumPermutes(a, b, IsExtension);
    if Accepts(a) { MembersOkPermute(a, b); }
    if Accepts(b) { MembersOkPermute(b, a); }
    forall j
      ensures Holds(j, a) <==> Holds(j, b)
    {
      if Holds(j, a) { HoldsPermutes(j, a, b); }
      if Holds(j, b) { HoldsPermutes(j, b, a); }
    }
  }

  // ---- Reading is more generous than validating ----

  /** Extensions just read pass the validator exactly when the second cost table also fits. */
  lemma ReadExtensionsRevalidate(ms: seq<Member>, usizeMax: nat)
    requires Accepts(ms) && usizeMax >= MAX_PUBLIC_JWK_JSON_BYTES
    ensures Validate(Extensions(ms), usizeMax) <==> SizeMembers(Extensions(ms)) <= MAX_PUBLIC_JWK_JSON_BYTES
  {
    hide KindOf, Shape, Sum, SizeMembers, Validate, Extensions, Distinct, Names;
    var exts := Extensions(ms);
    TotalSplits(ms);
    ExtensionsAre(ms);
    forall i | 0 <= i < |exts|
      ensures |exts[i].name| <= MAX_JWK_MEMBER_BYTES && Shape(exts[i].value, 0)
      ensures KindOf(exts[i].name) == Extension && Canonical(exts[i].value)
    {
      assert exts[i] in exts;
      var k :| 0 <= k < |ms| && ms[k] == exts[i];
      assert MemberOk(ms[k]);
      ShapeIsCanonical(exts[i].value, 0);
    }
    ValidateMeaning(exts, usizeMax);
  }

  function Copies(v: Json, n: nat): (items: seq<Json>)
    ensures |items| == n && forall i :: 0 <= i < n ==> items[i] == v
  {
    seq(n, _ => v)
  }

  lemma {:induction false} CopiesCost(v: Json, n: nat)
    ensures CostItems(Copies(v, n)) == n * Cost(v) && SizeItems(Copies(v, n)) == n * Size(v)
  {
    hide Cost, Size;
    if n > 0 {
      CopiesCost(v, n - 1);
      assert Copies(v, n)[..n - 1] == Copies(v, n - 1);
      assert n * Cost(v) == (n - 1) * Cost(v) + Cost(v) && n * Size(v) == (n - 1) * Size(v) + Size(v);
    }
  }

  /**
   * 90 rows of 100 nulls, about 45 kilobytes of text: within every limit of the reader and its
   * text limit, too large for the validator.
   */
  function Rows(): Json {
    Array(Copies(Array(Copies(Null, 100)), 90))
  }

  lemma RowsCost()
    ensures Cost(Rows()) == 9000 && Size(Rows()) == 72000 && Shape(Rows(), 0)
  {
    hide CostItems, SizeItems, Copies;
    var row := Array(Copies(Null, 100));
    CopiesCost(Null, 100);
    CopiesCost(row, 90);
    assert Shape(Null, 2);
    assert Shape(row, 1);
  }

  lemma KeyWithExtension(kty: Member, ext: Member)
    requires KindOf(kty.name) == KeyType && kty.value.Text? && KindOf(ext.name) == Extension
    ensures var ms := [kty, ext];
            && Distinct(ms) && "kty" in Names(ms) && Sum(ms, IsExtension) == 1
            && Total(ms) == 3 + |kty.value.s| + |ext.name| + Cost(ext.value)
            && Extensions(ms) == [ext] && SizeMembers([ext]) == |ext.name| + Size(ext.value)
  {
    assert kty.name == "kty";
    hide KindOf, Size;
    var ms := [kty, ext];
    assert ms[..1] == [kty] && [kty][..0] == [] && [ext][..0] == [];
    assert Sum([kty], MemberCost) == 3 + |kty.value.s| && Sum([kty], IsExtension) == 0;
    assert Extensions([kty]) == [];
    assert kty in ms;
  }

  /** A readable key whose own extensions the validator then refuses. */
  lemma ReadableButRefused(usizeMax: nat)
    requires usizeMax >= MAX_PUBLIC_JWK_JSON_BYTES
    ensures var ms := [Member("kty", Text("EC")), Member("rows", Rows())];
            Accepts(ms) && !Validate(Extensions(ms), usizeMax)
  {
    var kty, ext := Member("kty", Text("EC")), Member("rows", Rows());
    assert KindOf("rows") == Extension && KindOf("kty") == KeyType;
    RowsCost();
    hide Rows, Shape, Size, Cost, KindOf, Sum, Total, Extensions, SizeMembers, Names, Distinct;
    KeyWithExtension(kty, ext);
    assert MemberOk(kty) && MemberOk(ext);
    ReadExtensionsRevalidate([kty, ext], usizeMax);
  }
}
