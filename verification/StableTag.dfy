/** The stable-tag protocol: prepare evidence, record the tag, validate the release. */
module StableTag {
  import Bytes
  import Crl
  import opened Document
  import opened Options
  import opened WorkflowGate

  const PREPARATION_WORKFLOW: string := ".github/workflows/prepare-stable-tag.yml"

  // ---- Tags and hashes ----

  predicate IsDigit(c: char) {
    '0' <= c <= '9'
  }

  /** A decimal number without leading zeros. */
  predicate IsNumber(s: string) {
    && s != [] && (s[0] == '0' ==> |s| == 1)
    && forall i :: 0 <= i < |s| ==> IsDigit(s[i])
  }

  predicate IsSha(s: string) {
    |s| == 40 && forall i :: 0 <= i < |s| ==> IsDigit(s[i]) || 'a' <= s[i] <= 'f'
  }

  /** The index of the first `c`, or the length. */
  function Find(s: string, c: char): (i: nat)
    ensures i <= |s| && (i < |s| ==> s[i] == c)
    ensures forall j :: 0 <= j < i ==> s[j] != c
  {
    if s == [] || s[0] == c then 0 else 1 + Find(s[1..], c)
  }

  function Dotted(a: string, b: string, c: string): string {
    a + "." + b + "." + c
  }

  /** v MAJOR . MINOR . PATCH */
  function VersionFromTag(tag: string): Gate<string> {
    if tag == [] || tag[0] != 'v' then Rejected
    else
      var s := tag[1..];
      var i := Find(s, '.');
      if i == |s| then Rejected
      else
        var t := s[i + 1..];
        var j := Find(t, '.');
        if j == |t| || !IsNumber(s[..i]) || !IsNumber(t[..j]) || !IsNumber(t[j + 1..]) then Rejected
        else Ok(Dotted(s[..i], t[..j], t[j + 1..]))
  }

  lemma FindIs(s: string, c: char, i: nat)
    requires i <= |s| && (i < |s| ==> s[i] == c) && forall j :: 0 <= j < i ==> s[j] != c
    ensures Find(s, c) == i
  {
  }

  /** The accepted tags are exactly `v` followed by three numbers, and the version is what follows. */
  lemma TagLanguage(tag: string)
    ensures VersionFromTag(tag).Ok? <==>
            exists a, b, c :: IsNumber(a) && IsNumber(b) && IsNumber(c) && tag == "v" + Dotted(a, b, c)
    ensures VersionFromTag(tag).Ok? ==> tag == "v" + VersionFromTag(tag).value
  {
    if VersionFromTag(tag).Ok? {
      var a, b, c := AcceptedTag(tag);
    }
    hide VersionFromTag, Dotted;
    forall a, b, c | IsNumber(a) && IsNumber(b) && IsNumber(c) && tag == "v" + Dotted(a, b, c)
      ensures VersionFromTag(tag).Ok?
    {
      ThreeNumbers(tag, a, b, c);
    }
  }

  lemma AcceptedTag(tag: string) returns (a: string, b: string, c: string)
    requires VersionFromTag(tag).Ok?
    ensures IsNumber(a) && IsNumber(b) && IsNumber(c)
    ensures VersionFromTag(tag).value == Dotted(a, b, c) && tag == "v" + Dotted(a, b, c)
  {
    hide Find, IsNumber, Dotted;
    var s := tag[1..];
    var i := Find(s, '.');
    var t := s[i + 1..];
    var j := Find(t, '.');
    a, b, c := s[..i], t[..j], t[j + 1..];
    AtDot(s, i);
    AtDot(t, j);
    DottedNests(a, b, c);
    assert tag == "v" + s;
  }

  lemma AtDot(s: string, i: nat)
    requires i < |s| && s[i] == '.'
    ensures s == s[..i] + "." + s[i + 1..]
  {
  }

  lemma DottedNests(a: string, b: string, c: string)
    ensures a + "." + (b + "." + c) == Dotted(a, b, c)
  {
  }

  lemma ThreeNumbers(tag: string, a: string, b: string, c: string)
    requires IsNumber(a) && IsNumber(b) && IsNumber(c) && tag == "v" + Dotted(a, b, c)
    ensures VersionFromTag(tag).Ok?
  {
    hide Find;
    var s, t := tag[1..], b + "." + c;
    assert s == a + "." + t;
    DotAfterNumber(a, t);
    DotAfterNumber(b, c);
  }

  lemma DotAfterNumber(a: string, t: string)
    requires IsNumber(a)
    ensures var s := a + "." + t;
            Find(s, '.') == |a| && |a| < |s| && s[..|a|] == a && s[|a| + 1..] == t
  {
    hide Find;
    var s := a + "." + t;
    assert forall j :: 0 <= j < |a| ==> s[j] == a[j] && IsDigit(a[j]);
    FindIs(s, '.', |a|);
  }

  /** Decimal notation. */
  function Decimal(n: nat): (s: string)
    ensures s != []
  {
    (if n < 10 then [] else Decimal(n / 10)) + [('0' as int + n % 10) as char]
  }

  function DecimalValue(s: string): nat
    requires forall i :: 0 <= i < |s| ==> IsDigit(s[i])
  {
    if s == [] then 0 else 10 * DecimalValue(s[..|s| - 1]) + DigitOf(s[|s| - 1])
  }

  function DigitOf(c: char): (d: nat)
    requires IsDigit(c)
    ensures d < 10 && c == ('0' as int + d) as char
  {
    c as int - '0' as int
  }

  lemma {:induction false} DecimalIsNumber(n: nat)
    ensures IsNumber(Decimal(n)) && (n > 0 ==> Decimal(n)[0] != '0')
  {
    if n >= 10 {
      DecimalIsNumber(n / 10);
    }
  }

  lemma {:induction false} NumberIsDecimal(s: string)
    requires IsNumber(s)
    ensures Decimal(DecimalValue(s)) == s && (s[0] != '0' ==> DecimalValue(s) > 0)
  {
    hide Decimal, DecimalValue, DigitOf, IsDigit;
    var n := |s| - 1;
    if n == 0 {
      OneDigit(s);
    } else {
      NumberIsDecimal(s[..n]);
      ValueStep(s);
      DecimalStep(DecimalValue(s[..n]), DigitOf(s[n]));
      assert s == s[..n] + [s[n]];
    }
  }

  lemma OneDigit(s: string)
    requires |s| == 1 && IsDigit(s[0])
    ensures Decimal(DecimalValue(s)) == s && (s[0] != '0' ==> DecimalValue(s) > 0)
  {
    hide Decimal, DecimalValue, DigitOf, IsDigit;
    assert s[..0] == [] && s == [s[0]];
    NoDigits();
    ValueStep(s);
    DecimalStep(0, DigitOf(s[0]));
  }

  lemma NoDigits()
    ensures DecimalValue([]) == 0
  {
  }

  lemma ValueStep(s: string)
    requires s != [] && forall i :: 0 <= i < |s| ==> IsDigit(s[i])
    ensures DecimalValue(s) == 10 * DecimalValue(s[..|s| - 1]) + DigitOf(s[|s| - 1])
  {
  }

  lemma DecimalStep(v: nat, d: nat)
    requires d < 10
    ensures Decimal(10 * v + d) == (if v == 0 then [] else Decimal(v)) + [('0' as int + d) as char]
  {
    TenTimes(v, d);
  }

  lemma TenTimes(v: nat, d: nat)
    requires d < 10
    ensures (10 * v + d) / 10 == v && (10 * v + d) % 10 == d
  {
  }

  /** The accepted tags are exactly the three-part versions in decimal notation. */
  lemma TagsAreVersions(tag: string)
    ensures VersionFromTag(tag).Ok? <==>
            exists a, b, c :: tag == "v" + Dotted(Decimal(a), Decimal(b), Decimal(c))
  {
    hide VersionFromTag, Dotted, Decimal, DecimalValue;
    TagLanguage(tag);
    if VersionFromTag(tag).Ok? {
      var x, y, z := AcceptedTag(tag);
      NumberIsDecimal(x);
      NumberIsDecimal(y);
      NumberIsDecimal(z);
      assert tag == "v" + Dotted(Decimal(DecimalValue(x)), Decimal(DecimalValue(y)), Decimal(DecimalValue(z)));
    }
    forall a, b, c | tag == "v" + Dotted(Decimal(a), Decimal(b), Decimal(c))
      ensures VersionFromTag(tag).Ok?
    {
      DecimalIsNumber(a);
      DecimalIsNumber(b);
      DecimalIsNumber(c);
      ThreeNumbers(tag, Decimal(a), Decimal(b), Decimal(c));
    }
  }

  predicate LowerHex(s: string) {
    forall i :: 0 <= i < |s| ==> IsDigit(s[i]) || 'a' <= s[i] <= 'f'
  }

  lemma LowerHexDigit(n: nat)
    requires n < 16
    ensures IsDigit(Crl.HexDigit(n)) || 'a' <= Crl.HexDigit(n) <= 'f'
  {
  }

  lemma {:induction false} HexText(bytes: seq<Bytes.byte>)
    ensures |Crl.HexEncode(bytes)| == 2 * |bytes| && LowerHex(Crl.HexEncode(bytes))
  {
    hide Crl.HexDigit, IsDigit;
    if bytes != [] {
      var last := bytes[|bytes| - 1];
      HexText(bytes[..|bytes| - 1]);
      LowerHexDigit(last / 16);
      LowerHexDigit(last % 16);
    }
  }

  lemma {:induction false} BytesOfHex(s: string) returns (bytes: seq<Bytes.byte>)
    requires |s| % 2 == 0 && LowerHex(s)
    ensures |s| == 2 * |bytes| && Crl.HexEncode(bytes) == s
  {
    hide Crl.HexDigit, Crl.DigitValue, Crl.IsHexDigit, IsDigit;
    if s == [] {
      bytes := [];
    } else {
      var n := |s| - 2;
      var init := BytesOfHex(s[..n]);
      HexDigitOf(s[n]);
      HexDigitOf(s[n + 1]);
      var hi, lo := Crl.DigitValue(s[n]), Crl.DigitValue(s[n + 1]);
      TwoDigitByte(hi, lo);
      bytes := init + [16 * hi + lo];
      assert bytes[..|bytes| - 1] == init;
      assert s == s[..n] + [s[n], s[n + 1]];
    }
  }

  /** Commit and tag-object names are exactly the lower-case hexadecimal encodings of twenty bytes. */
  lemma ShaIsTwentyBytes(s: string)
    ensures IsSha(s) <==> exists bytes: seq<Bytes.byte> :: |bytes| == 20 && s == Crl.HexEncode(bytes)
  {
    hide Crl.HexEncode;
    if IsSha(s) {
      var bytes := BytesOfHex(s);
    }
    forall bytes: seq<Bytes.byte> | |bytes| == 20 && s == Crl.HexEncode(bytes)
      ensures IsSha(s)
    {
      HexText(bytes);
    }
  }

  lemma TwoDigitByte(hi: nat, lo: nat)
    requires hi < 16 && lo < 16
    ensures 16 * hi + lo < 256 && (16 * hi + lo) / 16 == hi && (16 * hi + lo) % 16 == lo
  {
  }

  lemma HexDigitOf(c: char)
    requires IsDigit(c) || 'a' <= c <= 'f'
    ensures Crl.IsHexDigit(c) && Crl.HexDigit(Crl.DigitValue(c)) == c
  {
  }

  // ---- Stage one: prepare ----

  /** The repository as the preparation sees it. */
  datatype Source = Source(workspaceVersion: string, head: string, main: string)

  predicate ValidSource(source: Source, tag: string, commit: string) {
    && IsSha(commit)
    && VersionFromTag(tag).Ok? && source.workspaceVersion == VersionFromTag(tag).value
    && source.head == commit && source.main == commit
  }

  function PreparationEvidence(repository: string, tag: string, commit: string, runId: int,
                               workflows: seq<Value>): Gate<Value> {
    if repository == "" || '/' !in repository then Rejected
    else
      Ok(Dict(map["schema" := Str(SCHEMA), "repository" := Str(repository), "tag" := Str(tag),
                  "source_sha" := Str(commit), "preparation_run_id" := Int(runId),
                  "required_workflows" := List(workflows)]))
  }

  /** The `prepare` command. */
  ghost function Prepare(source: Source, repository: string, tag: string, commit: string, runId: int,
                         payload: Value, policy: Value, text: TextLibrary): Gate<Value> {
    if !ValidSource(source, tag, commit) then Rejected
    else
      match Validation(payload, policy, Subject(commit, runId), text)
      case Pending => Pending
      case Rejected => Rejected
      case Crashed => Crashed
      case Ok(workflows) => PreparationEvidence(repository, tag, commit, runId, workflows)
  }

  // ---- Stage two: record the tag ----

  function RecordTag(evidence: Value, tagObject: string, peeledCommit: string): Gate<Value> {
    if !evidence.Dict? || Get(evidence.entries, "schema") != Str(SCHEMA) then Rejected
    else if !IsSha(tagObject) then Rejected
    else if Get(evidence.entries, "source_sha") != Str(peeledCommit) then Rejected
    else Ok(Dict(evidence.entries["tag_object_sha" := Str(tagObject)]["peeled_source_sha" := Str(peeledCommit)]))
  }

  /** What recording demands of the evidence, and that it changes two fields and no other. */
  lemma RecordTagSays(evidence: Value, tagObject: string, peeled: string)
    ensures RecordTag(evidence, tagObject, peeled).Ok? <==>
      && evidence.Dict? && Get(evidence.entries, "schema") == Str(SCHEMA)
      && IsSha(tagObject) && Get(evidence.entries, "source_sha") == Str(peeled)
    ensures RecordTag(evidence, tagObject, peeled).Ok? ==>
      var recorded := RecordTag(evidence, tagObject, peeled).value;
      && recorded.Dict?
      && Get(recorded.entries, "tag_object_sha") == Str(tagObject)
      && Get(recorded.entries, "peeled_source_sha") == Str(peeled)
      && forall key :: key != "tag_object_sha" && key != "peeled_source_sha" ==>
           Get(recorded.entries, key) == Get(evidence.entries, key)
  {
    hide IsSha;
    assert "tag_object_sha"[0] != "peeled_source_sha"[0];
  }

  // ---- The tag message ----

  predicate IsField(key: string) {
    key == "Stable-Tag-Gate" || key == "Preparation-Run" || key == "Source-SHA"
  }

  /** The index of the first ": ", or the length. */
  function FindColon(line: string): (i: nat)
    ensures i <= |line| && (i < |line| ==> i + 1 < |line| && line[i..i + 2] == ": ")
  {
    if |line| < 2 then |line|
    else if line[..2] == ": " then 0
    else 1 + FindColon(line[1..])
  }

  /** The field a line sets, if any: the text before and the stripped text after the first ": ". */
  function FieldOf(line: string, text: TextLibrary): Option<(string, string)> {
    var i := FindColon(line);
    if i == |line| || !IsField(line[..i]) then None else Some((line[..i], text.strip(line[i + 2..])))
  }

  /** `key` is set by exactly one line, to `value`. */
  ghost predicate SetOnce(lines: seq<string>, key: string, value: string, text: TextLibrary) {
    exists i :: 0 <= i < |lines| && FieldOf(lines[i], text) == Some((key, value))
                && forall j :: 0 <= j < |lines| && j != i ==> !Sets(lines[j], key, text)
  }

  predicate Sets(line: string, key: string, text: TextLibrary) {
    FieldOf(line, text).Some? && FieldOf(line, text).value.0 == key
  }

  /** Some field is set twice. */
  ghost predicate SetsTwice(lines: seq<string>, text: TextLibrary) {
    exists i, j :: 0 <= i < j < |lines| && FieldOf(lines[i], text).Some?
                   && Sets(lines[j], FieldOf(lines[i], text).value.0, text)
  }

  /** Exactly the fields set by the lines. */
  ghost predicate Collects(fields: map<string, string>, lines: seq<string>, text: TextLibrary) {
    forall key, value :: (key in fields && fields[key] == value) <==>
      exists i :: 0 <= i < |lines| && FieldOf(lines[i], text) == Some((key, value))
  }

  /** Rejects a repeated field and a missing or wrong marker; otherwise returns exactly the fields. */
  method ParseTagMessage(lines: seq<string>, text: TextLibrary) returns (r: Gate<map<string, string>>)
    ensures r.Ok? || r.Rejected?
    ensures r.Ok? <==> !SetsTwice(lines, text) && SetOnce(lines, "Stable-Tag-Gate", SCHEMA, text)
    ensures r.Ok? ==> Collects(r.value, lines, text)
  {
    hide FieldOf;
    var fields: map<string, string> := map[];
    for n := 0 to |lines|
      invariant !SetsTwice(lines[..n], text) && Collects(fields, lines[..n], text)
    {
      assert lines[..n + 1] == lines[..n] + [lines[n]];
      var field := FieldOf(lines[n], text);
      if field.Some? {
        var (key, value) := field.value;
        if key in fields {
          RepeatedField(lines, n, key, fields, text);
          return Rejected;
        }
        NewField(lines[..n], lines[n], key, value, fields, text);
        fields := fields[key := value];
      } else {
        NoField(lines[..n], lines[n], fields, text);
      }
    }
    assert lines[..|lines|] == lines;
    MarkerIs(lines, fields, text);
    if "Stable-Tag-Gate" !in fields || fields["Stable-Tag-Gate"] != SCHEMA {
      return Rejected;
    }
    return Ok(fields);
  }

  lemma RepeatedField(lines: seq<string>, n: nat, key: string, fields: map<string, string>, text: TextLibrary)
    requires n < |lines| && Collects(fields, lines[..n], text) && key in fields && Sets(lines[n], key, text)
    ensures SetsTwice(lines, text)
  {
    hide FieldOf;
    var value := fields[key];
    var i :| 0 <= i < n && FieldOf(lines[..n][i], text) == Some((key, value));
    assert lines[i] == lines[..n][i];
  }

  lemma NewField(lines: seq<string>, line: string, key: string, value: string, fields: map<string, string>,
                 text: TextLibrary)
    requires Collects(fields, lines, text) && !SetsTwice(lines, text)
    requires key !in fields && FieldOf(line, text) == Some((key, value))
    ensures Collects(fields[key := value], lines + [line], text) && !SetsTwice(lines + [line], text)
  {
    hide FieldOf;
    var all := lines + [line];
    assert all[|lines|] == line && forall i :: 0 <= i < |lines| ==> all[i] == lines[i];
    assert forall i :: 0 <= i < |lines| ==> !Sets(lines[i], key, text) by {
      forall i | 0 <= i < |lines| && FieldOf(lines[i], text).Some?
        ensures FieldOf(lines[i], text).value.0 != key
      {
        var (k, v) := FieldOf(lines[i], text).value;
        assert FieldOf(lines[i], text) == Some((k, v));
        assert k in fields;
      }
    }
    forall k, v
      ensures (k in fields[key := value] && fields[key := value][k] == v) <==>
              exists i :: 0 <= i < |all| && FieldOf(all[i], text) == Some((k, v))
    {
      if k == key {
        assert forall i :: 0 <= i < |lines| ==> FieldOf(all[i], text) != Some((k, v));
        assert FieldOf(all[|lines|], text) == Some((key, value));
      } else {
        assert (k in fields && fields[k] == v) <==>
               exists i :: 0 <= i < |lines| && FieldOf(lines[i], text) == Some((k, v));
      }
    }
  }

  lemma NoField(lines: seq<string>, line: string, fields: map<string, string>, text: TextLibrary)
    requires Collects(fields, lines, text) && !SetsTwice(lines, text) && FieldOf(line, text).None?
    ensures Collects(fields, lines + [line], text) && !SetsTwice(lines + [line], text)
  {
    hide FieldOf;
    var all := lines + [line];
    assert all[|lines|] == line && forall i :: 0 <= i < |lines| ==> all[i] == lines[i];
    forall k, v
      ensures (exists i :: 0 <= i < |all| && FieldOf(all[i], text) == Some((k, v))) <==>
              exists i :: 0 <= i < |lines| && FieldOf(lines[i], text) == Some((k, v))
    {
    }
  }

  lemma MarkerIs(lines: seq<string>, fields: map<string, string>, text: TextLibrary)
    requires Collects(fields, lines, text) && !SetsTwice(lines, text)
    ensures forall key, value :: SetOnce(lines, key, value, text) <==> key in fields && fields[key] == value
  {
    hide FieldOf;
    forall key, value | key in fields && fields[key] == value
      ensures SetOnce(lines, key, value, text)
    {
      var i :| 0 <= i < |lines| && FieldOf(lines[i], text) == Some((key, value));
    }
  }

  // ---- Stage three: validate the release ----

  datatype Release = Release(repository: string, tag: string, commit: string, tagType: string, tagObject: string)

  /** The lines parse to these fields. */
  ghost predicate ParsedAs(lines: seq<string>, fields: map<string, string>, text: TextLibrary) {
    !SetsTwice(lines, text) && SetOnce(lines, "Stable-Tag-Gate", SCHEMA, text) && Collects(fields, lines, text)
  }

  function MessageRun(fields: map<string, string>, text: TextLibrary): Option<int> {
    text.parseInt(if "Preparation-Run" in fields then fields["Preparation-Run"] else "")
  }

  predicate RunMatches(run: Value, id: int, commit: string) {
    && run.Dict?
    && EqualsInt(Get(run.entries, "id"), id)
    && Get(run.entries, "path") == Str(PREPARATION_WORKFLOW)
    && Get(run.entries, "event") == Str("workflow_dispatch")
    && Get(run.entries, "head_sha") == Str(commit)
    && Get(run.entries, "head_branch") == Str("main")
    && Get(run.entries, "status") == Str("completed")
    && Get(run.entries, "conclusion") == Str("success")
  }

  predicate EvidenceMatches(evidence: Value, release: Release, id: int) {
    && evidence.Dict?
    && Get(evidence.entries, "schema") == Str(SCHEMA)
    && Get(evidence.entries, "repository") == Str(release.repository)
    && Get(evidence.entries, "tag") == Str(release.tag)
    && Get(evidence.entries, "source_sha") == Str(release.commit)
    && EqualsInt(Get(evidence.entries, "preparation_run_id"), id)
    && Get(evidence.entries, "tag_object_sha") == Str(release.tagObject)
    && Get(evidence.entries, "peeled_source_sha") == Str(release.commit)
    && Get(evidence.entries, "required_workflows").List?
    && Get(evidence.entries, "required_workflows").items != []
  }

  predicate ReleaseOk(release: Release, fields: map<string, string>, run: Value, evidence: Value, text: TextLibrary) {
    && VersionFromTag(release.tag).Ok? && release.tagType == "tag"
    && IsSha(release.commit) && IsSha(release.tagObject)
    && "Source-SHA" in fields && fields["Source-SHA"] == release.commit
    && var id := MessageRun(fields, text);
       && id.Some? && RunMatches(run, id.value, release.commit)
       && EvidenceMatches(evidence, release, id.value)
  }

  ghost predicate Released(release: Release, lines: seq<string>, run: Value, evidence: Value, text: TextLibrary) {
    exists fields :: ParsedAs(lines, fields, text) && ReleaseOk(release, fields, run, evidence, text)
  }

  method ValidateReleaseProof(release: Release, lines: seq<string>, run: Value, evidence: Value, text: TextLibrary)
    returns (r: Gate<()>)
    ensures r.Ok? || r.Rejected?
    ensures r.Ok? <==> Released(release, lines, run, evidence, text)
  {
    hide SetsTwice, SetOnce, Collects, VersionFromTag, EvidenceMatches, RunMatches, IsSha;
    if !VersionFromTag(release.tag).Ok? || release.tagType != "tag" {
      return Rejected;
    }
    if !IsSha(release.commit) || !IsSha(release.tagObject) {
      return Rejected;
    }
    var parsed := ParseTagMessage(lines, text);
    if !parsed.Ok? {
      return Rejected;
    }
    var fields := parsed.value;
    assert ParsedAs(lines, fields, text);
    forall other | ParsedAs(lines, other, text)
      ensures other == fields
    {
      FieldsUnique(lines, fields, other, text);
    }
    if "Source-SHA" !in fields || fields["Source-SHA"] != release.commit {
      return Rejected;
    }
    var id := MessageRun(fields, text);
    if id.None? || !RunMatches(run, id.value, release.commit) {
      return Rejected;
    }
    if !EvidenceMatches(evidence, release, id.value) {
      return Rejected;
    }
    return Ok(());
  }

  /** Everything an accepted release has been checked for, field by field. */
  lemma ReleasedSays(release: Release, lines: seq<string>, run: Value, evidence: Value, text: TextLibrary)
    requires Released(release, lines, run, evidence, text)
    ensures VersionFromTag(release.tag).Ok? && release.tagType == "tag"
    ensures IsSha(release.commit) && IsSha(release.tagObject)
    ensures SetOnce(lines, "Stable-Tag-Gate", SCHEMA, text) && SetOnce(lines, "Source-SHA", release.commit, text)
    ensures && run.Dict? && Get(run.entries, "path") == Str(".github/workflows/prepare-stable-tag.yml")
            && Get(run.entries, "event") == Str("workflow_dispatch") && Get(run.entries, "head_branch") == Str("main")
            && Get(run.entries, "head_sha") == Str(release.commit)
            && Get(run.entries, "status") == Str("completed") && Get(run.entries, "conclusion") == Str("success")
    ensures && evidence.Dict? && Get(evidence.entries, "schema") == Str("elevenid.stable-tag-preparation/v1")
            && Get(evidence.entries, "repository") == Str(release.repository)
            && Get(evidence.entries, "tag") == Str(release.tag)
            && Get(evidence.entries, "source_sha") == Str(release.commit)
            && Get(evidence.entries, "tag_object_sha") == Str(release.tagObject)
            && Get(evidence.entries, "peeled_source_sha") == Str(release.commit)
            && Get(evidence.entries, "required_workflows").List?
            && Get(evidence.entries, "required_workflows") != List([])
    ensures exists id :: SameRun(lines, run, evidence, id, text)
  {
    hide Collects, SetsTwice, SetOnce, VersionFromTag, IsSha, Get;
    var fields :| ParsedAs(lines, fields, text) && ReleaseOk(release, fields, run, evidence, text);
    MarkerIs(lines, fields, text);
    var id := MessageRun(fields, text).value;
    assert SameRun(lines, run, evidence, id, text) by {
      if "Preparation-Run" in fields {
        assert SetOnce(lines, "Preparation-Run", fields["Preparation-Run"], text);
      }
    }
  }

  /** Message, run and evidence name the same preparation run. */
  ghost predicate SameRun(lines: seq<string>, run: Value, evidence: Value, id: int, text: TextLibrary)
    requires run.Dict? && evidence.Dict?
  {
    && EqualsInt(Get(run.entries, "id"), id) && EqualsInt(Get(evidence.entries, "preparation_run_id"), id)
    && (text.parseInt("") == Some(id) ||
        exists value :: SetOnce(lines, "Preparation-Run", value, text) && text.parseInt(value) == Some(id))
  }

  lemma FieldsUnique(lines: seq<string>, a: map<string, string>, b: map<string, string>, text: TextLibrary)
    requires Collects(a, lines, text) && Collects(b, lines, text)
    ensures a == b
  {
    hide FieldOf;
    forall key | key in a
      ensures key in b && b[key] == a[key]
    {
      var value := a[key];
      var i :| 0 <= i < |lines| && FieldOf(lines[i], text) == Some((key, value));
    }
    forall key | key in b
      ensures key in a
    {
      var value := b[key];
      var i :| 0 <= i < |lines| && FieldOf(lines[i], text) == Some((key, value));
    }
  }

  // ---- Whole runs of the protocol ----

  /** One evidence document admits at most one release identity. */
  lemma OneIdentityPerEvidence(a: Release, b: Release, linesA: seq<string>, linesB: seq<string>,
                               runA: Value, runB: Value, evidence: Value, text: TextLibrary)
    requires Released(a, linesA, runA, evidence, text) && Released(b, linesB, runB, evidence, text)
    ensures a == b
  {
    hide ParsedAs, VersionFromTag, IsSha;
  }

  /**
   * From preparation to release: what is released is what was prepared and recorded, on a commit
   * that was then the head of main with the tag's version, and on which every required workflow's
   * newest run had succeeded.
   */
  lemma ReleasedAsPrepared(source: Source, repository: string, tag: string, commit: string, runId: int,
                           payload: Value, policy: Value, tagObject: string, peeled: string,
                           release: Release, lines: seq<string>, run: Value, text: TextLibrary)
    requires Prepare(source, repository, tag, commit, runId, payload, policy, text).Ok?
    requires var evidence := Prepare(source, repository, tag, commit, runId, payload, policy, text).value;
      && RecordTag(evidence, tagObject, peeled).Ok?
      && Released(release, lines, run, RecordTag(evidence, tagObject, peeled).value, text)
    ensures release == Release(repository, tag, commit, "tag", tagObject) && peeled == commit
    ensures source == Source(VersionFromTag(tag).value, commit, commit) && tag == "v" + source.workspaceVersion
    ensures SetOnce(lines, "Source-SHA", commit, text) && RunMatches(run, runId, commit)
    ensures '/' in repository
    ensures ValidPolicy(policy) && forall i :: 0 <= i < |Required(policy)| ==>
              && ValidItem(Required(policy)[i])
              && Green(AllRuns(Pages(payload)), KeyOf(Required(policy)[i]), Subject(commit, runId), text)
              && Shown(AllRuns(Pages(payload)), KeyOf(Required(policy)[i]), Subject(commit, runId), text)
  {
    hide VersionFromTag, IsSha, SetsTwice, SetOnce, Collects, Green, Shown, ValidItem, KeyOf, AllRuns, Pages,
      Check, WellFormed;
    TagLanguage(tag);
    CheckMeaning(AllRuns(Pages(payload)), Required(policy), Subject(commit, runId), text);
    var workflows := Validation(payload, policy, Subject(commit, runId), text).value;
    var doc := RecordTag(PreparationEvidence(repository, tag, commit, runId, workflows).value, tagObject, peeled).value;
    var fields :| ParsedAs(lines, fields, text) && ReleaseOk(release, fields, run, doc, text);
    MarkerIs(lines, fields, text);
    assert Get(doc.entries, "preparation_run_id") == Int(runId);
    forall i | 0 <= i < |Required(policy)|
      ensures Shown(AllRuns(Pages(payload)), KeyOf(Required(policy)[i]), Subject(commit, runId), text)
    {
      GreenOnCommit(AllRuns(Pages(payload)), KeyOf(Required(policy)[i]), Subject(commit, runId), text);
    }
  }

  // ---- The message the preparation workflow writes ----

  /** A title, a blank line and the three fields. */
  function TagMessage(version: string, run: string, commit: string): seq<string> {
    ["Release " + version, "", "Stable-Tag-Gate" + ": " + SCHEMA, "Preparation-Run" + ": " + run,
     "Source-SHA" + ": " + commit]
  }

  lemma {:induction false} ColonAfter(key: string, rest: string)
    requires ':' !in key
    ensures FindColon(key + ": " + rest) == |key|
  {
    var line := key + ": " + rest;
    if key == [] {
      assert line[..2] == ": ";
    } else {
      ColonAfter(key[1..], rest);
      assert line[1..] == key[1..] + ": " + rest;
      assert line[..2][0] == key[0];
    }
  }

  lemma FieldLine(key: string, value: string, text: TextLibrary)
    requires IsField(key)
    ensures FieldOf(key + ": " + value, text) == Some((key, text.strip(value)))
  {
    var line := key + ": " + value;
    ColonAfter(key, value);
    hide FindColon;
    assert line[..|key|] == key && line[|key| + 2..] == value;
  }

  /** A line with any other key sets nothing. */
  lemma OtherKeysSetNothing(key: string, value: string, text: TextLibrary)
    requires ':' !in key && key !in ["Stable-Tag-Gate", "Preparation-Run", "Source-SHA"]
    ensures FieldOf(key + ": " + value, text).None?
  {
    var line := key + ": " + value;
    ColonAfter(key, value);
    hide FindColon;
    assert line[..|key|] == key;
  }

  lemma TitleSetsNothing(version: string, text: TextLibrary)
    ensures FieldOf("Release " + version, text).None? && FieldOf("", text).None?
  {
    hide FindColon;
    var line := "Release " + version;
    var i := FindColon(line);
    assert i > 0 ==> line[..i][0] == 'R';
  }

  lemma ThreeFields(m: seq<string>, x: string, y: string, z: string, text: TextLibrary)
    requires |m| == 5 && FieldOf(m[0], text).None? && FieldOf(m[1], text).None?
    requires FieldOf(m[2], text) == Some(("Stable-Tag-Gate", x))
    requires FieldOf(m[3], text) == Some(("Preparation-Run", y))
    requires FieldOf(m[4], text) == Some(("Source-SHA", z))
    ensures !SetsTwice(m, text)
    ensures Collects(map["Stable-Tag-Gate" := x, "Preparation-Run" := y, "Source-SHA" := z], m, text)
  {
    var none: map<string, string> := map[];
    assert Collects(none, [], text) && !SetsTwice([], text);
    hide FieldOf, Collects, SetsTwice;
    assert [] + [m[0]] == m[..1] && m[..1] + [m[1]] == m[..2] && m[..2] + [m[2]] == m[..3];
    assert m[..3] + [m[3]] == m[..4] && m[..4] + [m[4]] == m;
    NoField([], m[0], none, text);
    NoField(m[..1], m[1], none, text);
    var one := none["Stable-Tag-Gate" := x];
    NewField(m[..2], m[2], "Stable-Tag-Gate", x, none, text);
    var two := one["Preparation-Run" := y];
    NewField(m[..3], m[3], "Preparation-Run", y, one, text);
    NewField(m[..4], m[4], "Source-SHA", z, two, text);
  }

  /** Whatever the title, run and commit, the written message parses back to its three fields. */
  lemma WrittenMessageParses(version: string, run: string, commit: string, text: TextLibrary)
    requires text.strip(SCHEMA) == SCHEMA
    ensures ParsedAs(TagMessage(version, run, commit),
                     map["Stable-Tag-Gate" := SCHEMA, "Preparation-Run" := text.strip(run),
                         "Source-SHA" := text.strip(commit)], text)
  {
    TitleSetsNothing(version, text);
    FieldLine("Stable-Tag-Gate", SCHEMA, text);
    FieldLine("Preparation-Run", run, text);
    FieldLine("Source-SHA", commit, text);
    hide FieldOf, Collects, SetsTwice, SetOnce;
    var m := TagMessage(version, run, commit);
    ThreeFields(m, SCHEMA, text.strip(run), text.strip(commit), text);
    MarkerIs(m, map["Stable-Tag-Gate" := SCHEMA, "Preparation-Run" := text.strip(run),
                    "Source-SHA" := text.strip(commit)], text);
  }

  lemma RecordedMatches(repository: string, tag: string, commit: string, runId: int, workflows: seq<Value>,
                        tagObject: string)
    requires PreparationEvidence(repository, tag, commit, runId, workflows).Ok? && workflows != [] && IsSha(tagObject)
    ensures var evidence := PreparationEvidence(repository, tag, commit, runId, workflows).value;
      && RecordTag(evidence, tagObject, commit).Ok?
      && EvidenceMatches(RecordTag(evidence, tagObject, commit).value,
                         Release(repository, tag, commit, "tag", tagObject), runId)
  {
    hide IsSha;
  }

  /**
   * Every honest run completes: with the written message and the preparation's own run, recording
   * the prepared tag and validating the release never fail.
   */
  lemma HonestRunCompletes(source: Source, repository: string, tag: string, commit: string, runId: int,
                           payload: Value, policy: Value, tagObject: string, version: string, runText: string,
                           run: Value, text: TextLibrary)
    requires Prepare(source, repository, tag, commit, runId, payload, policy, text).Ok? && IsSha(tagObject)
    requires text.strip(SCHEMA) == SCHEMA && text.strip(commit) == commit
    requires text.parseInt(text.strip(runText)) == Some(runId) && RunMatches(run, runId, commit)
    ensures var evidence := Prepare(source, repository, tag, commit, runId, payload, policy, text).value;
      && RecordTag(evidence, tagObject, commit).Ok?
      && Released(Release(repository, tag, commit, "tag", tagObject), TagMessage(version, runText, commit), run,
                  RecordTag(evidence, tagObject, commit).value, text)
  {
    hide VersionFromTag, IsSha, ParsedAs, RunMatches, Check, WellFormed, AllRuns, Pages, ValidItem, KeyOf, Green,
      TagMessage, PreparationEvidence, RecordTag, EvidenceMatches;
    WrittenMessageParses(version, runText, commit, text);
    CheckMeaning(AllRuns(Pages(payload)), Required(policy), Subject(commit, runId), text);
    var workflows := Validation(payload, policy, Subject(commit, runId), text).value;
    RecordedMatches(repository, tag, commit, runId, workflows, tagObject);
    var fields := map["Stable-Tag-Gate" := SCHEMA, "Preparation-Run" := text.strip(runText), "Source-SHA" := commit];
    var prepared := PreparationEvidence(repository, tag, commit, runId, workflows).value;
    var evidence := RecordTag(prepared, tagObject, commit).value;
    assert ReleaseOk(Release(repository, tag, commit, "tag", tagObject), fields, run, evidence, text);
  }

  lemma SamplePreparation(text: TextLibrary)
    returns (source: Source, tag: string, commit: string, payload: Value, policy: Value)
    ensures IsSha(commit) && Prepare(source, "o/r", tag, commit, 9, payload, policy, text).Ok?
  {
    commit := seq(40, _ => 'a');
    assert IsSha(commit);
    hide VersionFromTag, IsSha, Validation, Dotted;
    tag := "v" + Dotted("1", "0", "0");
    ThreeNumbers(tag, "1", "0", "0");
    source := Source(VersionFromTag(tag).value, commit, commit);
    payload, policy := GateOpens(commit, text);
    assert '/' == "o/r"[1];
  }

  lemma SamplePreparationRun(commit: string) returns (run: Value)
    ensures RunMatches(run, 9, commit)
  {
    run := Dict(map["id" := Int(9), "path" := Str(PREPARATION_WORKFLOW), "event" := Str("workflow_dispatch"),
                    "head_sha" := Str(commit), "head_branch" := Str("main"), "status" := Str("completed"),
                    "conclusion" := Str("success")]);
  }

  /** Whole runs exist: some preparation succeeds, and its release is accepted. */
  lemma SomeReleaseIsAccepted() returns (release: Release, lines: seq<string>, run: Value, evidence: Value,
                                         text: TextLibrary)
    ensures Released(release, lines, run, evidence, text)
  {
    hide IsSha, RunMatches, Prepare, RecordTag, Released, TagMessage;
    text := TextLibrary(s => Some(9), s => s);
    var source, tag, commit, payload, policy := SamplePreparation(text);
    run := SamplePreparationRun(commit);
    HonestRunCompletes(source, "o/r", tag, commit, 9, payload, policy, commit, "1.0.0", "9", run, text);
    release, lines := Release("o/r", tag, commit, "tag", commit), TagMessage("1.0.0", "9", commit);
    evidence := RecordTag(Prepare(source, "o/r", tag, commit, 9, payload, policy, text).value, commit, commit).value;
  }
}
