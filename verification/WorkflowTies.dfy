/** Exactly when the order of the runs can decide the workflow gate. */
module WorkflowTies {
  import opened Document
  import opened WorkflowGate
  import opened Options

  type Key = (string, string)

  predicate Succeeded(run: Entries) {
    Get(run, "status") == Str("completed") && Get(run, "conclusion") == Str("success")
  }

  function MatchesOf(runs: seq<Entries>, key: Key, subject: Subject): seq<Entries> {
    Matches(runs, key.0, key.1, subject)
  }

  /** One of the runs with the largest number. */
  ghost predicate Largest(m: seq<Entries>, r: Entries, text: TextLibrary)
    requires Numbered(m, text)
  {
    r in m && forall s :: s in m ==> RunId(s, text).value <= RunId(r, text).value
  }

  /** Any two matching runs that share the largest number agree on success. */
  ghost predicate TiesAgree(runs: seq<Entries>, key: Key, subject: Subject, text: TextLibrary) {
    var m := MatchesOf(runs, key, subject);
    Numbered(m, text) ==>
      forall r, s :: Largest(m, r, text) && Largest(m, s, text) ==> (Succeeded(r) <==> Succeeded(s))
  }

  /** Some matching run with the largest number succeeded. */
  ghost predicate MayPass(runs: seq<Entries>, key: Key, subject: Subject, text: TextLibrary) {
    var m := MatchesOf(runs, key, subject);
    Numbered(m, text) && exists r :: Largest(m, r, text) && Succeeded(r)
  }

  /** There are matching runs, and all those with the largest number succeeded. */
  ghost predicate MustPass(runs: seq<Entries>, key: Key, subject: Subject, text: TextLibrary) {
    var m := MatchesOf(runs, key, subject);
    m != [] && Numbered(m, text) && forall r :: Largest(m, r, text) ==> Succeeded(r)
  }

  // ---- One workflow ----

  lemma LatestIsLargest(m: seq<Entries>, text: TextLibrary)
    requires m != [] && Numbered(m, text)
    ensures Largest(m, Latest(m, text), text)
  {
    hide Latest, RunId;
    var k := LatestIsFirstOfLargest(m, text);
  }

  lemma GreenIsLatest(runs: seq<Entries>, key: Key, subject: Subject, text: TextLibrary)
    ensures var m := MatchesOf(runs, key, subject);
            Green(runs, key, subject, text) <==> m != [] && Numbered(m, text) && Succeeded(Latest(m, text))
  {
    hide Matches, Latest, Numbered, Get;
  }

  lemma GreenBetween(runs: seq<Entries>, key: Key, subject: Subject, text: TextLibrary)
    ensures MustPass(runs, key, subject, text) ==> Green(runs, key, subject, text)
    ensures Green(runs, key, subject, text) ==> MayPass(runs, key, subject, text)
  {
    hide Green, Latest, Numbered, Largest, Succeeded, MatchesOf;
    var m := MatchesOf(runs, key, subject);
    GreenIsLatest(runs, key, subject, text);
    if m != [] && Numbered(m, text) {
      LatestIsLargest(m, text);
    }
  }

  lemma SameSets(a: seq<Entries>, b: seq<Entries>, key: Key, subject: Subject)
    requires SameCounting(a, b, subject)
    ensures forall run :: run in MatchesOf(a, key, subject) <==> run in MatchesOf(b, key, subject)
  {
    hide Matches, Get, EqualsInt;
    MatchesAre(a, key.0, key.1, subject);
    MatchesAre(b, key.0, key.1, subject);
  }

  lemma SameLargest(m: seq<Entries>, n: seq<Entries>, text: TextLibrary)
    requires forall run :: run in m <==> run in n
    ensures Numbered(m, text) <==> Numbered(n, text)
    ensures Numbered(m, text) ==> forall r :: Largest(m, r, text) <==> Largest(n, r, text)
    ensures m == [] <==> n == []
  {
    hide RunId;
    NumberedIs(m, text);
    NumberedIs(n, text);
    assert m != [] ==> m[0] in n;
    assert n != [] ==> n[0] in m;
  }

  /** Both bounds depend on the counting runs alone, not on their order. */
  lemma SameBounds(a: seq<Entries>, b: seq<Entries>, key: Key, subject: Subject, text: TextLibrary)
    requires SameCounting(a, b, subject)
    ensures MayPass(a, key, subject, text) <==> MayPass(b, key, subject, text)
    ensures MustPass(a, key, subject, text) <==> MustPass(b, key, subject, text)
  {
    hide SameCounting, MatchesOf, Numbered, Largest, Succeeded;
    SameSets(a, b, key, subject);
    SameLargest(MatchesOf(a, key, subject), MatchesOf(b, key, subject), text);
  }

  lemma {:induction false} MatchesConcat(a: seq<Entries>, b: seq<Entries>, key: Key, subject: Subject)
    ensures MatchesOf(a + b, key, subject) == MatchesOf(a, key, subject) + MatchesOf(b, key, subject)
  {
    hide Fits;
    if b == [] {
      assert a + b == a;
    } else {
      var n := |b| - 1;
      MatchesConcat(a, b[..n], key, subject);
      assert (a + b)[..|a + b| - 1] == a + b[..n];
    }
  }

  /** A largest run listed before the others is the one that is chosen. */
  lemma FirstLargestWins(m: seq<Entries>, r: Entries, text: TextLibrary)
    requires Numbered(m, text) && Largest(m, r, text)
    ensures Numbered([r] + m, text) && Latest([r] + m, text) == r
  {
    hide Latest, RunId;
    var all := [r] + m;
    NumberedIs(m, text);
    assert forall i :: 0 <= i < |all| ==> all[i] == r || all[i] in m;
    assert forall i :: 1 <= i < |all| ==> all[i] == m[i - 1];
    var k := LatestIsFirstOfLargest(all, text);
    assert all[0] == r;
  }

  lemma FrontDecides(front: seq<Entries>, runs: seq<Entries>, r: Entries, key: Key, subject: Subject,
                     text: TextLibrary)
    requires MatchesOf(front, key, subject) == [r] && Numbered(MatchesOf(runs, key, subject), text)
    requires Largest(MatchesOf(runs, key, subject), r, text)
    ensures Green(front + runs, key, subject, text) <==> Succeeded(r)
  {
    hide MatchesOf, Green, Latest, Numbered, Largest, Succeeded;
    MatchesConcat(front, runs, key, subject);
    FirstLargestWins(MatchesOf(runs, key, subject), r, text);
    GreenIsLatest(front + runs, key, subject, text);
  }

  lemma MatchingRun(runs: seq<Entries>, r: Entries, key: Key, subject: Subject)
    requires r in MatchesOf(runs, key, subject)
    ensures r in runs && Fits(r, key.0, key.1, subject) && MatchesOf([r], key, subject) == [r]
  {
    hide Fits;
    MatchesAre(runs, key.0, key.1, subject);
    SingleMatch(r, key, subject);
  }

  lemma SingleMatch(r: Entries, key: Key, subject: Subject)
    requires Fits(r, key.0, key.1, subject)
    ensures MatchesOf([r], key, subject) == [r]
  {
    hide Fits;
    assert Matches([r][..0], key.0, key.1, subject) == [];
  }

  lemma FrontCounts(front: seq<Entries>, runs: seq<Entries>, subject: Subject)
    requires forall run :: run in front ==> run in runs
    ensures SameCounting(runs, front + runs, subject)
  {
    hide Counts;
    assert forall run :: run in front + runs <==> run in front || run in runs;
  }

  lemma OneInFront(runs: seq<Entries>, r: Entries, key: Key, subject: Subject, text: TextLibrary)
    requires Numbered(MatchesOf(runs, key, subject), text) && Largest(MatchesOf(runs, key, subject), r, text)
    ensures SameCounting(runs, [r] + runs, subject)
    ensures Green([r] + runs, key, subject, text) <==> Succeeded(r)
  {
    hide SameCounting, MatchesOf, Numbered, Green, Succeeded;
    MatchingRun(runs, r, key, subject);
    FrontCounts([r], runs, subject);
    FrontDecides([r], runs, r, key, subject, text);
  }

  /** Re-ordering, repeating or padding the runs keeps this workflow green or not green. */
  ghost predicate OrderIrrelevant(runs: seq<Entries>, key: Key, subject: Subject, text: TextLibrary) {
    forall b :: SameCounting(runs, b, subject) ==> (Green(b, key, subject, text) <==> Green(runs, key, subject, text))
  }

  lemma AgreeIsMayMust(runs: seq<Entries>, key: Key, subject: Subject, text: TextLibrary)
    ensures TiesAgree(runs, key, subject, text) <==>
            (MayPass(runs, key, subject, text) ==> MustPass(runs, key, subject, text))
  {
    hide MatchesOf, Numbered, Largest, Succeeded;
    var m := MatchesOf(runs, key, subject);
    if Numbered(m, text) {
      assert forall r :: Largest(m, r, text) ==> m != [] by { InNothing(m, text); }
    }
  }

  lemma InNothing(m: seq<Entries>, text: TextLibrary)
    requires Numbered(m, text)
    ensures forall r :: Largest(m, r, text) ==> m != []
  {
  }

  /** The order cannot decide exactly when the runs tied for the largest number agree on success. */
  lemma OrderIrrelevantIff(runs: seq<Entries>, key: Key, subject: Subject, text: TextLibrary)
    ensures OrderIrrelevant(runs, key, subject, text) <==> TiesAgree(runs, key, subject, text)
  {
    hide Green, SameCounting, Largest, Numbered, MatchesOf, Succeeded;
    var m := MatchesOf(runs, key, subject);
    if OrderIrrelevant(runs, key, subject, text) && Numbered(m, text) {
      forall r | Largest(m, r, text)
        ensures Succeeded(r) <==> Green(runs, key, subject, text)
      {
        OneInFront(runs, r, key, subject, text);
      }
    }
    if TiesAgree(runs, key, subject, text) {
      AgreeIsMayMust(runs, key, subject, text);
      GreenBetween(runs, key, subject, text);
      forall b | SameCounting(runs, b, subject)
        ensures Green(b, key, subject, text) <==> Green(runs, key, subject, text)
      {
        SameBounds(runs, b, key, subject, text);
        GreenBetween(b, key, subject, text);
      }
    }
  }

  // ---- All required workflows ----

  /** The items are well formed and ask for different workflows. */
  ghost predicate Askable(items: seq<Value>) {
    && (forall i :: 0 <= i < |items| ==> ValidItem(items[i]))
    && (forall i, j :: 0 <= i < j < |items| ==> KeyOf(items[i]) != KeyOf(items[j]))
  }

  ghost predicate MayOpen(runs: seq<Entries>, items: seq<Value>, subject: Subject, text: TextLibrary) {
    Askable(items) && forall i :: 0 <= i < |items| ==> MayPass(runs, KeyOf(items[i]), subject, text)
  }

  ghost predicate MustOpen(runs: seq<Entries>, items: seq<Value>, subject: Subject, text: TextLibrary) {
    Askable(items) && forall i :: 0 <= i < |items| ==> MustPass(runs, KeyOf(items[i]), subject, text)
  }

  lemma CheckBetween(runs: seq<Entries>, items: seq<Value>, subject: Subject, text: TextLibrary)
    ensures MustOpen(runs, items, subject, text) ==> Check(runs, items, subject, text).Ok?
    ensures Check(runs, items, subject, text).Ok? ==> MayOpen(runs, items, subject, text)
  {
    hide Check, Green, MayPass, MustPass, ValidItem, KeyOf;
    CheckMeaning(runs, items, subject, text);
    forall i | 0 <= i < |items| && ValidItem(items[i])
      ensures MustPass(runs, KeyOf(items[i]), subject, text) ==> Green(runs, KeyOf(items[i]), subject, text)
      ensures Green(runs, KeyOf(items[i]), subject, text) ==> MayPass(runs, KeyOf(items[i]), subject, text)
    {
      GreenBetween(runs, KeyOf(items[i]), subject, text);
    }
  }

  lemma SameOpening(a: seq<Entries>, b: seq<Entries>, items: seq<Value>, subject: Subject, text: TextLibrary)
    requires SameCounting(a, b, subject)
    ensures MayOpen(a, items, subject, text) <==> MayOpen(b, items, subject, text)
    ensures MustOpen(a, items, subject, text) <==> MustOpen(b, items, subject, text)
  {
    hide SameCounting, MayPass, MustPass, ValidItem, KeyOf;
    forall i | 0 <= i < |items| && ValidItem(items[i])
      ensures MayPass(a, KeyOf(items[i]), subject, text) <==> MayPass(b, KeyOf(items[i]), subject, text)
      ensures MustPass(a, KeyOf(items[i]), subject, text) <==> MustPass(b, KeyOf(items[i]), subject, text)
    {
      SameBounds(a, b, KeyOf(items[i]), subject, text);
    }
  }

  lemma {:induction false} NoneMatch(runs: seq<Entries>, key: Key, subject: Subject)
    requires forall i :: 0 <= i < |runs| ==> !Fits(runs[i], key.0, key.1, subject)
    ensures MatchesOf(runs, key, subject) == []
  {
    hide Fits;
    if runs != [] {
      NoneMatch(runs[..|runs| - 1], key, subject);
    }
  }

  lemma OneMatch(front: seq<Entries>, i: nat, key: Key, subject: Subject)
    requires i < |front| && Fits(front[i], key.0, key.1, subject)
    requires forall j :: 0 <= j < |front| && j != i ==> !Fits(front[j], key.0, key.1, subject)
    ensures MatchesOf(front, key, subject) == [front[i]]
  {
    hide Fits, MatchesOf;
    var a, r, b := front[..i], [front[i]], front[i + 1..];
    NoneMatch(a, key, subject);
    NoneMatch(b, key, subject);
    SingleMatch(front[i], key, subject);
    MatchesConcat(a, r, key, subject);
    MatchesConcat(a + r, b, key, subject);
    assert front == a + r + b;
  }

  /** `front` holds, for each required workflow, one of its runs with the largest number. */
  ghost predicate Leads(front: seq<Entries>, runs: seq<Entries>, items: seq<Value>, subject: Subject,
                        text: TextLibrary)
    requires Askable(items)
  {
    && |front| == |items|
    && forall i :: 0 <= i < |items| ==> Leader(front[i], runs, KeyOf(items[i]), subject, text)
  }

  ghost predicate Leader(r: Entries, runs: seq<Entries>, key: Key, subject: Subject, text: TextLibrary) {
    Numbered(MatchesOf(runs, key, subject), text) && Largest(MatchesOf(runs, key, subject), r, text)
  }

  lemma LeaderFits(r: Entries, runs: seq<Entries>, key: Key, subject: Subject, text: TextLibrary)
    requires Leader(r, runs, key, subject, text)
    ensures r in runs && Fits(r, key.0, key.1, subject)
    ensures forall other: Key :: other != key ==> !Fits(r, other.0, other.1, subject)
  {
    hide Counts, Numbered, RunId;
    MatchingRun(runs, r, key, subject);
  }

  /** With leaders in front, each workflow is green exactly when its leader succeeded. */
  lemma LeadersDecide(front: seq<Entries>, runs: seq<Entries>, items: seq<Value>, i: nat, subject: Subject,
                      text: TextLibrary)
    requires Askable(items) && Leads(front, runs, items, subject, text) && i < |items|
    ensures Green(front + runs, KeyOf(items[i]), subject, text) <==> Succeeded(front[i])
  {
    hide Fits, Green, Succeeded, ValidItem, KeyOf, MatchesOf;
    forall j | 0 <= j < |items|
      ensures Fits(front[j], KeyOf(items[i]).0, KeyOf(items[i]).1, subject) <==> j == i
    {
      LeaderFits(front[j], runs, KeyOf(items[j]), subject, text);
    }
    OneMatch(front, i, KeyOf(items[i]), subject);
    FrontDecides(front, runs, front[i], KeyOf(items[i]), subject, text);
  }

  lemma LeadersCount(front: seq<Entries>, runs: seq<Entries>, items: seq<Value>, subject: Subject, text: TextLibrary)
    requires Askable(items) && Leads(front, runs, items, subject, text)
    ensures SameCounting(runs, front + runs, subject)
  {
    hide SameCounting, Leader, ValidItem, KeyOf;
    forall run | run in front
      ensures run in runs
    {
      var i :| 0 <= i < |front| && front[i] == run;
      LeaderFits(run, runs, KeyOf(items[i]), subject, text);
    }
    FrontCounts(front, runs, subject);
  }

  lemma GoodLeaders(runs: seq<Entries>, items: seq<Value>, subject: Subject, text: TextLibrary)
    returns (front: seq<Entries>)
    requires MayOpen(runs, items, subject, text)
    ensures Leads(front, runs, items, subject, text) && forall i :: 0 <= i < |front| ==> Succeeded(front[i])
  {
    hide ValidItem, KeyOf, Succeeded, MatchesOf, Numbered, Largest;
    front := [];
    while |front| < |items|
      invariant |front| <= |items|
      invariant forall i :: 0 <= i < |front| ==>
                  Leader(front[i], runs, KeyOf(items[i]), subject, text) && Succeeded(front[i])
    {
      var key := KeyOf(items[|front|]);
      assert MayPass(runs, key, subject, text);
      var r :| Largest(MatchesOf(runs, key, subject), r, text) && Succeeded(r);
      front := front + [r];
    }
  }

  /** Leaders in front: accepted exactly when all of them succeeded. */
  lemma LeadersOpen(front: seq<Entries>, runs: seq<Entries>, items: seq<Value>, subject: Subject, text: TextLibrary)
    requires Askable(items) && Leads(front, runs, items, subject, text)
    ensures Check(front + runs, items, subject, text).Ok? <==> forall i :: 0 <= i < |items| ==> Succeeded(front[i])
  {
    hide Check, Green, Succeeded, Leader, ValidItem, KeyOf;
    CheckMeaning(front + runs, items, subject, text);
    forall i | 0 <= i < |items|
      ensures Green(front + runs, KeyOf(items[i]), subject, text) <==> Succeeded(front[i])
    {
      LeadersDecide(front, runs, items, i, subject, text);
    }
  }

  // ---- The whole gate ----

  function RunsOf(payload: Value): seq<Entries> {
    AllRuns(Pages(payload))
  }

  /** Re-paging, re-ordering, repeating or padding the runs never changes whether the gate opens. */
  ghost predicate OutcomeFixed(p: Value, policy: Value, subject: Subject, text: TextLibrary) {
    forall q :: WellFormed(q) && SameCounting(RunsOf(p), RunsOf(q), subject) ==>
      (Validation(q, policy, subject, text).Ok? <==> Validation(p, policy, subject, text).Ok?)
  }

  /** What the outcome is when the leaders given are listed first. */
  lemma WithLeaders(p: Value, policy: Value, front: seq<Entries>, subject: Subject, text: TextLibrary)
    requires WellFormed(p) && ValidPolicy(policy) && Askable(Required(policy))
    requires Leads(front, RunsOf(p), Required(policy), subject, text)
    requires OutcomeFixed(p, policy, subject, text)
    ensures Validation(p, policy, subject, text).Ok? <==>
            forall i :: 0 <= i < |Required(policy)| ==> Succeeded(front[i])
  {
    hide WellFormed, AllRuns, Pages, ValidPolicy, Required, Askable, Leader, SameCounting, Check, Succeeded;
    var q := OnePage(front + RunsOf(p));
    LeadersCount(front, RunsOf(p), Required(policy), subject, text);
    assert SameCounting(RunsOf(p), RunsOf(q), subject);
    LeadersOpen(front, RunsOf(p), Required(policy), subject, text);
  }

  lemma FixedMustOpen(p: Value, policy: Value, subject: Subject, text: TextLibrary)
    requires WellFormed(p) && ValidPolicy(policy) && OutcomeFixed(p, policy, subject, text)
    requires MayOpen(RunsOf(p), Required(policy), subject, text)
    ensures MustOpen(RunsOf(p), Required(policy), subject, text)
  {
    hide WellFormed, RunsOf, ValidPolicy, Required, OutcomeFixed, Validation, Succeeded, Numbered, Largest, MatchesOf,
      ValidItem, KeyOf;
    var runs, items := RunsOf(p), Required(policy);
    var front := GoodLeaders(runs, items, subject, text);
    WithLeaders(p, policy, front, subject, text);
    forall i | 0 <= i < |items|
      ensures MustPass(runs, KeyOf(items[i]), subject, text)
    {
      var m := MatchesOf(runs, KeyOf(items[i]), subject);
      assert Leader(front[i], runs, KeyOf(items[i]), subject, text);
      InNothing(m, text);
      forall r | Largest(m, r, text)
        ensures Succeeded(r)
      {
        WithLeaders(p, policy, front[i := r], subject, text);
        assert front[i := r][i] == r;
      }
    }
  }

  /**
   * The order and paging of the runs can never decide the gate exactly when, if every required
   * workflow has a successful run with the largest number, all its runs with that number succeeded.
   */
  lemma OutcomeFixedIff(p: Value, policy: Value, subject: Subject, text: TextLibrary)
    requires WellFormed(p)
    ensures OutcomeFixed(p, policy, subject, text) <==>
            (ValidPolicy(policy) && MayOpen(RunsOf(p), Required(policy), subject, text) ==>
               MustOpen(RunsOf(p), Required(policy), subject, text))
  {
    hide WellFormed, RunsOf, ValidPolicy, Required, MayOpen, MustOpen, Check, SameCounting;
    if ValidPolicy(policy) {
      var items := Required(policy);
      if OutcomeFixed(p, policy, subject, text) && MayOpen(RunsOf(p), items, subject, text) {
        FixedMustOpen(p, policy, subject, text);
      }
      if MayOpen(RunsOf(p), items, subject, text) ==> MustOpen(RunsOf(p), items, subject, text) {
        CheckBetween(RunsOf(p), items, subject, text);
        forall q | WellFormed(q) && SameCounting(RunsOf(p), RunsOf(q), subject)
          ensures Validation(q, policy, subject, text).Ok? <==> Validation(p, policy, subject, text).Ok?
        {
          SameOpening(RunsOf(p), RunsOf(q), items, subject, text);
          CheckBetween(RunsOf(q), items, subject, text);
          SameRuns(p);
          SameRuns(q);
        }
      }
    }
  }

  lemma SameRuns(payload: Value)
    ensures RunsOf(payload) == AllRuns(Pages(payload))
  {
  }
}
