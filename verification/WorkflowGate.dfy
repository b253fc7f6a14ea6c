/** Python's view of JSON documents, without floating-point numbers. */
module Document {
  import opened Options

  datatype Value =
    | Null
    | Bool(b: bool)
    | Int(n: int)
    | Str(s: string)
    | List(items: seq<Value>)
    | Dict(entries: Entries)

  type Entries = map<string, Value>

  /** How a check ends: a value, a retryable or a final refusal, or an uncaught exception. */
  datatype Gate<+T> = Ok(value: T) | Pending | Rejected | Crashed

  /** Library text functions: integer parsing and stripping. */
  datatype TextLibrary = TextLibrary(parseInt: string -> Option<int>, strip: string -> string)

  /** `d.get(key)` */
  function Get(d: Entries, key: string): Value {
    if key in d then d[key] else Null
  }

  /** `v == n` for an integer, where booleans count as 0 and 1. */
  predicate EqualsInt(v: Value, n: int) {
    v == Int(n) || (v.Bool? && n == if v.b then 1 else 0)
  }

  /** `int(v)` */
  function ToInt(v: Value, text: TextLibrary): Option<int> {
    match v
    case Int(n) => Some(n)
    case Bool(b) => Some(if b then 1 else 0)
    case Str(s) => text.parseInt(s)
    case _ => None
  }
}

/** The gate on workflow runs of the exact commit. */
module WorkflowGate {
  import opened Document
  import opened Options

  const SCHEMA: string := "elevenid.stable-tag-preparation/v1"

  // ---- Collecting the runs of all pages ----

  ghost predicate IsPage(v: Value) {
    && v.Dict? && Get(v.entries, "workflow_runs").List?
    && forall i :: 0 <= i < |PageRuns(v)| ==> PageRuns(v)[i].Dict?
  }

  function PageRuns(v: Value): seq<Value> {
    if v.Dict? && Get(v.entries, "workflow_runs").List? then Get(v.entries, "workflow_runs").items else []
  }

  function Pages(payload: Value): seq<Value> {
    if payload.List? then payload.items else [payload]
  }

  function DictsOf(items: seq<Value>): seq<Entries> {
    if items == [] then []
    else
      var last := items[|items| - 1];
      DictsOf(items[..|items| - 1]) + if last.Dict? then [last.entries] else []
  }

  function AllRuns(pages: seq<Value>): seq<Entries> {
    if pages == [] then [] else AllRuns(pages[..|pages| - 1]) + DictsOf(PageRuns(pages[|pages| - 1]))
  }

  ghost predicate WellFormed(payload: Value) {
    forall i :: 0 <= i < |Pages(payload)| ==> IsPage(Pages(payload)[i])
  }

  method ReadPage(page: Value) returns (r: Gate<seq<Entries>>)
    ensures r == if IsPage(page) then Ok(DictsOf(PageRuns(page))) else Rejected
  {
    if !page.Dict? || !Get(page.entries, "workflow_runs").List? {
      return Rejected;
    }
    var items := PageRuns(page);
    var runs: seq<Entries> := [];
    for i := 0 to |items|
      invariant forall k :: 0 <= k < i ==> items[k].Dict?
      invariant runs == DictsOf(items[..i])
    {
      if !items[i].Dict? {
        return Rejected;
      }
      assert items[..i + 1][..i] == items[..i];
      runs := runs + [items[i].entries];
    }
    assert items[..|items|] == items;
    return Ok(runs);
  }

  method WorkflowRuns(payload: Value) returns (r: Gate<seq<Entries>>)
    ensures r == if WellFormed(payload) then Ok(AllRuns(Pages(payload))) else Rejected
  {
    hide IsPage, PageRuns, DictsOf;
    var pages := Pages(payload);
    var runs: seq<Entries> := [];
    for p := 0 to |pages|
      invariant forall i :: 0 <= i < p ==> IsPage(pages[i])
      invariant runs == AllRuns(pages[..p])
    {
      var page := ReadPage(pages[p]);
      if !page.Ok? {
        return Rejected;
      }
      assert pages[..p + 1][..p] == pages[..p];
      runs := runs + page.value;
    }
    assert pages[..|pages|] == pages;
    return Ok(runs);
  }

  /** A run was collected exactly when it stands in some page. */
  lemma {:induction false} DictsAre(items: seq<Value>)
    ensures forall run :: run in DictsOf(items) <==> Dict(run) in items
  {
    if items != [] {
      var n := |items| - 1;
      DictsAre(items[..n]);
      assert items == items[..n] + [items[n]];
    }
  }

  lemma {:induction false} RunsAre(pages: seq<Value>)
    ensures forall run :: run in AllRuns(pages) <==> exists i :: 0 <= i < |pages| && Dict(run) in PageRuns(pages[i])
  {
    hide PageRuns, DictsOf;
    if pages != [] {
      var n := |pages| - 1;
      RunsAre(pages[..n]);
      DictsAre(PageRuns(pages[n]));
      assert forall i :: 0 <= i < n ==> pages[..n][i] == pages[i];
    }
  }

  // ---- The newest matching run ----

  /** What is being gated: the commit, and the run doing the gating, which does not count. */
  datatype Subject = Subject(commit: string, currentRun: int)

  predicate Counts(run: Entries, subject: Subject) {
    Get(run, "head_sha") == Str(subject.commit) && !EqualsInt(Get(run, "id"), subject.currentRun)
  }

  predicate Fits(run: Entries, path: string, event: string, subject: Subject) {
    Get(run, "path") == Str(path) && Get(run, "event") == Str(event) && Counts(run, subject)
  }

  function Matches(runs: seq<Entries>, path: string, event: string, subject: Subject): seq<Entries> {
    if runs == [] then []
    else
      var last := runs[|runs| - 1];
      Matches(runs[..|runs| - 1], path, event, subject) + if Fits(last, path, event, subject) then [last] else []
  }

  /** `int(run.get("id", 0))` */
  function RunId(run: Entries, text: TextLibrary): Option<int> {
    if "id" in run then ToInt(run["id"], text) else Some(0)
  }

  predicate Numbered(runs: seq<Entries>, text: TextLibrary) {
    forall i :: 0 <= i < |runs| ==> RunId(runs[i], text).Some?
  }

  /** `max` by id: the first of the largest. */
  function Latest(runs: seq<Entries>, text: TextLibrary): (r: Entries)
    requires runs != [] && Numbered(runs, text)
    ensures r in runs
  {
    var n := |runs| - 1;
    if n == 0 then runs[0]
    else
      var best := Latest(runs[..n], text);
      if RunId(runs[n], text).value > RunId(best, text).value then runs[n] else best
  }

  /** Numbers as they are, text as the library reads it, a missing number as zero, and nothing else. */
  lemma RunIdSays(run: Entries, n: int, s: string, text: TextLibrary)
    ensures "id" !in run ==> RunId(run, text) == Some(0)
    ensures "id" in run && run["id"] == Int(n) ==> RunId(run, text) == Some(n)
    ensures "id" in run && run["id"] == Str(s) ==> RunId(run, text) == text.parseInt(s)
    ensures "id" in run && !run["id"].Int? && !run["id"].Str? && !run["id"].Bool? ==> RunId(run, text) == None
  {
  }

  /** No run has a larger id than run `k`, and every earlier one has a smaller id. */
  ghost predicate FirstOfLargest(runs: seq<Entries>, k: nat, text: TextLibrary)
    requires Numbered(runs, text)
  {
    && k < |runs|
    && (forall i :: 0 <= i < |runs| ==> RunId(runs[i], text).value <= RunId(runs[k], text).value)
    && (forall i :: 0 <= i < k ==> RunId(runs[i], text).value < RunId(runs[k], text).value)
  }

  /** `Latest` is a run that no run exceeds and that exceeds every run before it. */
  lemma {:induction false} LatestIsFirstOfLargest(runs: seq<Entries>, text: TextLibrary) returns (k: nat)
    requires runs != [] && Numbered(runs, text)
    ensures FirstOfLargest(runs, k, text) && runs[k] == Latest(runs, text)
  {
    hide RunId;
    var n := |runs| - 1;
    if n == 0 {
      k := 0;
    } else {
      k := LatestIsFirstOfLargest(runs[..n], text);
      assert forall i :: 0 <= i < n ==> runs[i] == runs[..n][i];
      if RunId(runs[n], text).value > RunId(runs[k], text).value {
        k := n;
      }
    }
  }

  // ---- One required workflow ----

  predicate ValidItem(item: Value) {
    && item.Dict?
    && Get(item.entries, "path").Str? && Get(item.entries, "path").s != ""
    && Get(item.entries, "event").Str? && Get(item.entries, "event").s != ""
  }

  function KeyOf(item: Value): (string, string)
    requires ValidItem(item)
  {
    (Get(item.entries, "path").s, Get(item.entries, "event").s)
  }

  function Verdict(runs: seq<Entries>, key: (string, string), subject: Subject, text: TextLibrary): Gate<Entries> {
    var matches := Matches(runs, key.0, key.1, subject);
    if matches == [] then Pending
    else if !Numbered(matches, text) then Crashed
    else
      var latest := Latest(matches, text);
      if Get(latest, "status") != Str("completed") then Pending
      else if Get(latest, "conclusion") != Str("success") then Rejected
      else Ok(latest)
  }

  function Report(key: (string, string), latest: Entries): Value {
    Dict(map["path" := Str(key.0), "event" := Str(key.1), "run_id" := Get(latest, "id"),
             "conclusion" := Get(latest, "conclusion")])
  }

  /** The keys of a list of valid items. */
  ghost predicate HasKey(items: seq<Value>, key: (string, string)) {
    exists i :: 0 <= i < |items| && ValidItem(items[i]) && KeyOf(items[i]) == key
  }

  /** The required workflows one after the other; the first failure decides. */
  ghost function Check(runs: seq<Entries>, items: seq<Value>, subject: Subject, text: TextLibrary)
    : Gate<seq<Value>>
  {
    if items == [] then Ok([])
    else
      var n := |items| - 1;
      match Check(runs, items[..n], subject, text)
      case Pending => Pending
      case Rejected => Rejected
      case Crashed => Crashed
      case Ok(accepted) =>
        if !ValidItem(items[n]) || HasKey(items[..n], KeyOf(items[n])) then Rejected
        else
          match Verdict(runs, KeyOf(items[n]), subject, text)
          case Pending => Pending
          case Rejected => Rejected
          case Crashed => Crashed
          case Ok(latest) => Ok(accepted + [Report(KeyOf(items[n]), latest)])
  }

  /** A required workflow is green: its newest run on the commit completed successfully. */
  ghost predicate Green(runs: seq<Entries>, key: (string, string), subject: Subject, text: TextLibrary) {
    Verdict(runs, key, subject, text).Ok?
  }

  lemma GreenMeaning(runs: seq<Entries>, key: (string, string), subject: Subject, text: TextLibrary)
    ensures Green(runs, key, subject, text) <==>
            var m := Matches(runs, key.0, key.1, subject);
            && Numbered(m, text)
            && exists k :: 0 <= k < |m| && FirstOfLargest(m, k, text)
                 && Get(m[k], "status") == Str("completed") && Get(m[k], "conclusion") == Str("success")
  {
    hide Matches, RunId;
    var m := Matches(runs, key.0, key.1, subject);
    if m != [] && Numbered(m, text) {
      var k := LatestIsFirstOfLargest(m, text);
      forall l | 0 <= l < |m| && FirstOfLargest(m, l, text)
        ensures l == k
      {
      }
    }
  }

  /** A run of this workflow on exactly this commit, other than the run doing the gating. */
  predicate OnCommit(run: Entries, key: (string, string), subject: Subject) {
    && Get(run, "path") == Str(key.0) && Get(run, "event") == Str(key.1)
    && Get(run, "head_sha") == Str(subject.commit)
    && Get(run, "id") != Int(subject.currentRun)
    && (Get(run, "id") == Bool(true) ==> subject.currentRun != 1)
    && (Get(run, "id") == Bool(false) ==> subject.currentRun != 0)
  }

  /** A run of the workflow on the commit with none there numbered higher. */
  ghost predicate Newest(run: Entries, runs: seq<Entries>, key: (string, string), subject: Subject, text: TextLibrary) {
    && run in runs && OnCommit(run, key, subject) && RunId(run, text).Some?
    && forall other :: other in runs && OnCommit(other, key, subject) ==>
         RunId(other, text).Some? && RunId(other, text).value <= RunId(run, text).value
  }

  /** `run` shows the workflow to be green: a newest run on the commit, and it succeeded. */
  ghost predicate Shows(run: Entries, runs: seq<Entries>, key: (string, string), subject: Subject, text: TextLibrary) {
    && Newest(run, runs, key, subject, text)
    && Get(run, "status") == Str("completed") && Get(run, "conclusion") == Str("success")
  }

  ghost predicate Shown(runs: seq<Entries>, key: (string, string), subject: Subject, text: TextLibrary) {
    exists run :: Shows(run, runs, key, subject, text)
  }

  lemma MatchesOnCommit(runs: seq<Entries>, key: (string, string), subject: Subject)
    ensures forall run :: run in Matches(runs, key.0, key.1, subject) <==> run in runs && OnCommit(run, key, subject)
  {
    hide Matches, Get;
    MatchesAre(runs, key.0, key.1, subject);
    forall run
      ensures Fits(run, key.0, key.1, subject) <==> OnCommit(run, key, subject)
    {
    }
  }

  lemma LatestIsNewest(runs: seq<Entries>, key: (string, string), subject: Subject, text: TextLibrary)
    requires var m := Matches(runs, key.0, key.1, subject); m != [] && Numbered(m, text)
    ensures Newest(Latest(Matches(runs, key.0, key.1, subject), text), runs, key, subject, text)
  {
    hide Matches, OnCommit, RunId, Latest;
    var m := Matches(runs, key.0, key.1, subject);
    MatchesOnCommit(runs, key, subject);
    NumberedIs(m, text);
    var k := LatestIsFirstOfLargest(m, text);
    assert m[k] in m;
  }

  /** Green means a successful run of the workflow on the commit itself, with no later one there. */
  lemma GreenOnCommit(runs: seq<Entries>, key: (string, string), subject: Subject, text: TextLibrary)
    requires Green(runs, key, subject, text)
    ensures Shown(runs, key, subject, text)
  {
    hide Matches, Newest, Get, Latest, Numbered;
    LatestIsNewest(runs, key, subject, text);
    assert Shows(Latest(Matches(runs, key.0, key.1, subject), text), runs, key, subject, text);
  }

  /**
   * Every other verdict has its reason on the commit too: nothing there or a newest run unfinished
   * means wait, a newest run that finished without success is refused, and a run without a number
   * stops the script.
   */
  lemma VerdictSays(runs: seq<Entries>, key: (string, string), subject: Subject, text: TextLibrary)
    ensures (forall run :: run in runs ==> !OnCommit(run, key, subject)) ==>
              Verdict(runs, key, subject, text) == Pending
    ensures Verdict(runs, key, subject, text) == Pending ==>
      || (forall run :: run in runs ==> !OnCommit(run, key, subject))
      || exists run :: Newest(run, runs, key, subject, text) && Get(run, "status") != Str("completed")
    ensures Verdict(runs, key, subject, text) == Rejected ==>
      exists run :: Newest(run, runs, key, subject, text)
                    && Get(run, "status") == Str("completed") && Get(run, "conclusion") != Str("success")
    ensures Verdict(runs, key, subject, text) == Crashed <==>
      exists run :: run in runs && OnCommit(run, key, subject) && RunId(run, text).None?
  {
    hide Matches, OnCommit, Newest, Get, RunId, Latest;
    var m := Matches(runs, key.0, key.1, subject);
    MatchesOnCommit(runs, key, subject);
    NumberedIs(m, text);
    assert forall i :: 0 <= i < |m| ==> m[i] in m;
    if m != [] && Numbered(m, text) {
      LatestIsNewest(runs, key, subject, text);
    }
  }

  /** A report names the workflow and repeats number and conclusion of its run. */
  lemma ReportSays(key: (string, string), latest: Entries)
    ensures var report := Report(key, latest);
      && report.Dict? && report.entries.Keys == {"path", "event", "run_id", "conclusion"}
      && Get(report.entries, "path") == Str(key.0) && Get(report.entries, "event") == Str(key.1)
      && Get(report.entries, "run_id") == Get(latest, "id")
      && Get(report.entries, "conclusion") == Get(latest, "conclusion")
  {
  }

  /** The check passes exactly when the keys are valid and distinct and every workflow is green. */
  lemma {:induction false} CheckMeaning(runs: seq<Entries>, items: seq<Value>, subject: Subject, text: TextLibrary)
    ensures Check(runs, items, subject, text).Ok? <==>
      && (forall i :: 0 <= i < |items| ==> ValidItem(items[i]))
      && (forall i, j :: 0 <= i < j < |items| ==> KeyOf(items[i]) != KeyOf(items[j]))
      && (forall i :: 0 <= i < |items| ==> Green(runs, KeyOf(items[i]), subject, text))
    ensures Check(runs, items, subject, text).Ok? ==>
      var accepted := Check(runs, items, subject, text).value;
      && |accepted| == |items|
      && forall i :: 0 <= i < |items| ==>
           accepted[i] == Report(KeyOf(items[i]), Verdict(runs, KeyOf(items[i]), subject, text).value)
  {
    hide Verdict, Report, ValidItem, KeyOf;
    if items != [] {
      var n := |items| - 1;
      CheckMeaning(runs, items[..n], subject, text);
      assert forall i :: 0 <= i < n ==> items[i] == items[..n][i];
    }
  }

  // ---- The whole validation ----

  predicate ValidPolicy(policy: Value) {
    && policy.Dict? && Get(policy.entries, "schema") == Str(SCHEMA)
    && Get(policy.entries, "required_workflows").List? && Get(policy.entries, "required_workflows").items != []
  }

  function Required(policy: Value): seq<Value>
    requires ValidPolicy(policy)
  {
    Get(policy.entries, "required_workflows").items
  }

  ghost function Validation(payload: Value, policy: Value, subject: Subject, text: TextLibrary): Gate<seq<Value>> {
    if !ValidPolicy(policy) || !WellFormed(payload) then Rejected
    else Check(AllRuns(Pages(payload)), Required(policy), subject, text)
  }

  method ValidateWorkflowRuns(payload: Value, policy: Value, subject: Subject, text: TextLibrary)
    returns (r: Gate<seq<Value>>)
    ensures r == Validation(payload, policy, subject, text)
  {
    hide AllRuns, Pages, WellFormed, Verdict, Report, KeyOf, ValidItem;
    if !ValidPolicy(policy) {
      return Rejected;
    }
    var required := Required(policy);
    var collected := WorkflowRuns(payload);
    if !collected.Ok? {
      return Rejected;
    }
    var runs := collected.value;
    var accepted: seq<Value> := [];
    var seen: set<(string, string)> := {};
    for i := 0 to |required|
      invariant Check(runs, required[..i], subject, text) == Ok(accepted)
      invariant forall key :: key in seen <==> HasKey(required[..i], key)
    {
      CheckStep(runs, required, i, subject, text);
      var item := required[i];
      if !ValidItem(item) {
        return Rejected;
      }
      var key := KeyOf(item);
      if key in seen {
        return Rejected;
      }
      seen := seen + {key};
      var verdict := Verdict(runs, key, subject, text);
      if !verdict.Ok? {
        return match verdict case Pending => Pending case Crashed => Crashed case _ => Rejected;
      }
      accepted := accepted + [Report(key, verdict.value)];
    }
    assert required[..|required|] == required;
    return Ok(accepted);
  }

  /** What an open gate has seen, read off the documents: the policy, every workflow, and the report. */
  lemma GateDemands(payload: Value, policy: Value, subject: Subject, text: TextLibrary)
    requires Validation(payload, policy, subject, text).Ok?
    ensures policy.Dict? && Get(policy.entries, "schema") == Str("elevenid.stable-tag-preparation/v1")
    ensures Get(policy.entries, "required_workflows").List?
    ensures var required, report :=
              Get(policy.entries, "required_workflows").items, Validation(payload, policy, subject, text).value;
      && required != [] && |report| == |required|
      && (forall i :: 0 <= i < |required| ==>
            Satisfied(required[i], report[i], AllRuns(Pages(payload)), subject, text))
      && (forall i, j :: 0 <= i < j < |required| ==> KeyOf(required[i]) != KeyOf(required[j]))
  {
    hide AllRuns, Pages, WellFormed, Check, Green, Verdict, Satisfied, Report;
    var required, runs := Required(policy), AllRuns(Pages(payload));
    CheckMeaning(runs, required, subject, text);
    forall i | 0 <= i < |required|
      ensures Satisfied(required[i], Validation(payload, policy, subject, text).value[i], runs, subject, text)
    {
      ItemSatisfied(required[i], runs, subject, text);
    }
  }

  /** One item of the policy and its report. */
  ghost predicate Satisfied(item: Value, report: Value, runs: seq<Entries>, subject: Subject, text: TextLibrary) {
    && item.Dict? && Get(item.entries, "path").Str? && Get(item.entries, "event").Str?
    && Get(item.entries, "path") != Str("") && Get(item.entries, "event") != Str("")
    && Shown(runs, (Get(item.entries, "path").s, Get(item.entries, "event").s), subject, text)
    && report.Dict?
    && Get(report.entries, "path") == Get(item.entries, "path")
    && Get(report.entries, "event") == Get(item.entries, "event")
    && Get(report.entries, "conclusion") == Str("success")
  }

  lemma ItemSatisfied(item: Value, runs: seq<Entries>, subject: Subject, text: TextLibrary)
    requires ValidItem(item) && Green(runs, KeyOf(item), subject, text)
    ensures Satisfied(item, Report(KeyOf(item), Verdict(runs, KeyOf(item), subject, text).value), runs, subject, text)
  {
    hide Matches, Latest, Report, Shown, Numbered;
    GreenOnCommit(runs, KeyOf(item), subject, text);
    ReportSays(KeyOf(item), Verdict(runs, KeyOf(item), subject, text).value);
  }

  /** A prefix that fails decides the whole list; otherwise the next item is judged. */
  lemma CheckStep(runs: seq<Entries>, items: seq<Value>, i: nat, subject: Subject, text: TextLibrary)
    requires i < |items|
    ensures !Check(runs, items[..i + 1], subject, text).Ok? ==>
              Check(runs, items, subject, text) == Check(runs, items[..i + 1], subject, text)
    ensures items[..i + 1][..i] == items[..i] && items[..i + 1][i] == items[i]
    ensures forall key :: HasKey(items[..i + 1], key) <==>
              HasKey(items[..i], key) || (ValidItem(items[i]) && KeyOf(items[i]) == key)
  {
    hide Verdict, Report, KeyOf, ValidItem;
    PrefixFails(runs, items, i + 1, subject, text);
    var init, more := items[..i], items[..i + 1];
    assert forall k :: 0 <= k < i ==> init[k] == more[k];
  }

  lemma {:induction false} PrefixFails(runs: seq<Entries>, items: seq<Value>, i: nat, subject: Subject,
                                       text: TextLibrary)
    requires i <= |items|
    ensures !Check(runs, items[..i], subject, text).Ok? ==>
              Check(runs, items, subject, text) == Check(runs, items[..i], subject, text)
    decreases |items|
  {
    if i < |items| {
      PrefixFails(runs, items[..|items| - 1], i, subject, text);
      assert items[..|items| - 1][..i] == items[..i];
    } else {
      assert items[..i] == items;
    }
  }

  // ---- The order of the runs does not matter ----

  /** The same counting runs, in whatever order, repetition and company. */
  ghost predicate SameCounting(a: seq<Entries>, b: seq<Entries>, subject: Subject) {
    forall run :: Counts(run, subject) ==> (run in a <==> run in b)
  }

  /** Different counting runs have different ids. */
  ghost predicate UniqueIds(runs: seq<Entries>, subject: Subject, text: TextLibrary) {
    forall r, s | r in runs && s in runs && Counts(r, subject) && Counts(s, subject) ::
      RunId(r, text) == RunId(s, text) ==> r == s
  }

  lemma {:induction false} MatchesAre(runs: seq<Entries>, path: string, event: string, subject: Subject)
    ensures forall run :: run in Matches(runs, path, event, subject) <==> run in runs && Fits(run, path, event, subject)
  {
    hide Fits;
    if runs != [] {
      var n := |runs| - 1;
      MatchesAre(runs[..n], path, event, subject);
      assert runs == runs[..n] + [runs[n]];
    }
  }

  lemma SameMatches(a: seq<Entries>, b: seq<Entries>, key: (string, string), subject: Subject, text: TextLibrary)
    requires SameCounting(a, b, subject) && UniqueIds(a, subject, text)
    ensures var m, n := Matches(a, key.0, key.1, subject), Matches(b, key.0, key.1, subject);
      && (forall run :: run in m <==> run in n) && (m == [] <==> n == [])
      && forall r, s | r in m && s in m :: RunId(r, text) == RunId(s, text) ==> r == s
  {
    hide Matches, RunId, Get, EqualsInt;
    var m, n := Matches(a, key.0, key.1, subject), Matches(b, key.0, key.1, subject);
    MatchesAre(a, key.0, key.1, subject);
    MatchesAre(b, key.0, key.1, subject);
    assert m == [] <==> n == [] by {
      assert m != [] ==> m[0] in n;
      assert n != [] ==> n[0] in m;
    }
  }

  lemma SameVerdict(a: seq<Entries>, b: seq<Entries>, key: (string, string), subject: Subject, text: TextLibrary)
    requires SameCounting(a, b, subject) && UniqueIds(a, subject, text)
    ensures Verdict(a, key, subject, text) == Verdict(b, key, subject, text)
  {
    SameMatches(a, b, key, subject, text);
    hide Matches, RunId, Latest, SameCounting, UniqueIds, Numbered, Get;
    var m, n := Matches(a, key.0, key.1, subject), Matches(b, key.0, key.1, subject);
    NumberedIs(m, text);
    NumberedIs(n, text);
    if m != [] && Numbered(m, text) {
      SameLatest(m, n, text);
    }
  }

  lemma SameLatest(m: seq<Entries>, n: seq<Entries>, text: TextLibrary)
    requires m != [] && n != [] && Numbered(m, text) && Numbered(n, text)
    requires forall run :: run in m <==> run in n
    requires forall r, s | r in m && s in m :: RunId(r, text) == RunId(s, text) ==> r == s
    ensures Latest(m, text) == Latest(n, text)
  {
    hide RunId, Latest;
    var k := LatestIsFirstOfLargest(m, text);
    var l := LatestIsFirstOfLargest(n, text);
    assert m[k] in n && n[l] in m;
    var i :| 0 <= i < |n| && n[i] == m[k];
    var j :| 0 <= j < |m| && m[j] == n[l];
    assert RunId(m[k], text).value == RunId(n[l], text).value;
  }

  lemma NumberedIs(runs: seq<Entries>, text: TextLibrary)
    ensures Numbered(runs, text) <==> forall run :: run in runs ==> RunId(run, text).Some?
  {
    assert forall i :: 0 <= i < |runs| ==> runs[i] in runs;
  }

  lemma {:induction false} SameCheck(a: seq<Entries>, b: seq<Entries>, items: seq<Value>, subject: Subject,
                                     text: TextLibrary)
    requires SameCounting(a, b, subject) && UniqueIds(a, subject, text)
    ensures Check(a, items, subject, text) == Check(b, items, subject, text)
  {
    hide Verdict, SameCounting, UniqueIds;
    if items != [] {
      var n := |items| - 1;
      SameCheck(a, b, items[..n], subject, text);
      if ValidItem(items[n]) {
        SameVerdict(a, b, KeyOf(items[n]), subject, text);
      }
    }
  }

  /**
   * Re-paging, permuting or repeating runs, or adding runs of other commits, changes nothing,
   * neither an acceptance nor the way a check fails.
   */
  lemma RunOrderIrrelevant(p: Value, q: Value, policy: Value, subject: Subject, text: TextLibrary)
    requires WellFormed(p) && WellFormed(q)
    requires SameCounting(AllRuns(Pages(p)), AllRuns(Pages(q)), subject)
    requires UniqueIds(AllRuns(Pages(p)), subject, text)
    ensures Validation(p, policy, subject, text) == Validation(q, policy, subject, text)
  {
    hide WellFormed, AllRuns, Pages, SameCounting, UniqueIds, Check;
    if ValidPolicy(policy) {
      SameCheck(AllRuns(Pages(p)), AllRuns(Pages(q)), Required(policy), subject, text);
    }
  }

  /** A completed run number 5 of workflow "ci". */
  function SampleRun(commit: string, conclusion: string): (run: Entries)
    ensures Get(run, "path") == Str("ci") && Get(run, "event") == Str("push")
    ensures Get(run, "head_sha") == Str(commit) && "id" in run && run["id"] == Int(5)
    ensures Get(run, "status") == Str("completed") && Get(run, "conclusion") == Str(conclusion)
  {
    map["path" := Str("ci"), "event" := Str("push"), "head_sha" := Str(commit), "id" := Int(5),
        "status" := Str("completed"), "conclusion" := Str(conclusion)]
  }

  /** Without distinct ids the first run listed wins, so the order can decide. */
  lemma TieIsDecidedByOrder(text: TextLibrary)
    ensures var good, bad, key, subject :=
              SampleRun("c", "success"), SampleRun("c", "failure"), ("ci", "push"), Subject("c", 9);
      && Verdict([good, bad], key, subject, text).Ok?
      && Verdict([bad, good], key, subject, text).Rejected?
  {
    hide SampleRun, Matches, Latest;
    var good, bad := SampleRun("c", "success"), SampleRun("c", "failure");
    TwoRuns(good, bad, Subject("c", 9), text);
    TwoRuns(bad, good, Subject("c", 9), text);
  }

  lemma TwoRuns(a: Entries, b: Entries, subject: Subject, text: TextLibrary)
    requires Fits(a, "ci", "push", subject) && Fits(b, "ci", "push", subject)
    requires RunId(a, text) == RunId(b, text) == Some(5)
    ensures Matches([a, b], "ci", "push", subject) == [a, b]
    ensures Numbered([a, b], text) && Latest([a, b], text) == a
  {
    hide Fits, RunId;
    assert [a, b][..1] == [a] && [a][..0] == [];
    assert Matches([a], "ci", "push", subject) == [a];
  }

  lemma OneRun(a: Entries, subject: Subject, text: TextLibrary)
    requires Fits(a, "ci", "push", subject) && RunId(a, text) == Some(5)
    ensures Matches([a], "ci", "push", subject) == [a] && Numbered([a], text) && Latest([a], text) == a
  {
    hide Fits, RunId;
    assert [a][..0] == [];
  }

  lemma {:induction false} DictsOfRuns(items: seq<Value>, runs: seq<Entries>)
    requires |items| == |runs| && forall i :: 0 <= i < |runs| ==> items[i] == Dict(runs[i])
    ensures DictsOf(items) == runs
  {
    if runs != [] {
      var n := |runs| - 1;
      DictsOfRuns(items[..n], runs[..n]);
      assert runs == runs[..n] + [runs[n]];
    }
  }

  /** Any runs can arrive, as one page. */
  lemma OnePage(runs: seq<Entries>) returns (payload: Value)
    ensures WellFormed(payload) && AllRuns(Pages(payload)) == runs
  {
    var items := seq(|runs|, i requires 0 <= i < |runs| => Dict(runs[i]));
    var entries: Entries := map["workflow_runs" := List(items)];
    assert "workflow_runs" in entries && entries["workflow_runs"] == List(items);
    payload := Dict(entries);
    assert PageRuns(payload) == items && IsPage(payload);
    assert AllRuns([payload][..0]) == [];
    DictsOfRuns(items, runs);
  }

  lemma OneItem() returns (item: Value, policy: Value)
    ensures ValidItem(item) && KeyOf(item) == ("ci", "push") && ValidPolicy(policy) && Required(policy) == [item]
  {
    item := Dict(map["path" := Str("ci"), "event" := Str("push")]);
    policy := Dict(map["schema" := Str(SCHEMA), "required_workflows" := List([item])]);
  }

  /** The gate opens: one page with one successful run, and a policy that asks for it. */
  lemma GateOpens(commit: string, text: TextLibrary) returns (payload: Value, policy: Value)
    ensures Validation(payload, policy, Subject(commit, 9), text).Ok?
  {
    hide SampleRun, WellFormed, AllRuns, Pages, ValidItem, KeyOf, ValidPolicy, Required, Check, Matches, Latest;
    var run, item, subject := SampleRun(commit, "success"), Null, Subject(commit, 9);
    payload := OnePage([run]);
    item, policy := OneItem();
    OneRun(run, subject, text);
    assert Green([run], ("ci", "push"), subject, text);
    CheckMeaning([run], [item], subject, text);
  }
}
