/** Which workspace packages a change affects: deepest-root ownership, then reverse dependencies. */
module Affected {
  import opened Options

  /** A normalised relative path as its components; the repository root is empty. */
  type Path = seq<string>

  datatype Package = Package(id: string, name: string, root: Path, dependencies: seq<string>)

  datatype Metadata = Metadata(packages: seq<Package>, members: set<string>)

  // ---- Paths ----

  predicate Invalidates(path: Path) {
    || path == ["Cargo.lock"] || path == ["Cargo.toml"] || path == ["rust-toolchain.toml"]
    || (path != [] && path[0] == ".cargo")
  }

  /** A Rust source file (a non-empty stem and the suffix .rs) or a manifest. */
  predicate Relevant(path: Path) {
    && path != []
    && var name := path[|path| - 1];
       (|name| > 3 && name[|name| - 3..] == ".rs") || name == "Cargo.toml"
  }

  /** Code-point order on names. */
  predicate NameLeq(a: string, b: string) {
    a == [] || (b != [] && (a[0] < b[0] || (a[0] == b[0] && NameLeq(a[1..], b[1..]))))
  }

  lemma {:induction false} NameOrder(a: string, b: string, c: string)
    ensures NameLeq(a, a)
    ensures NameLeq(a, b) || NameLeq(b, a)
    ensures NameLeq(a, b) && NameLeq(b, a) ==> a == b
    ensures NameLeq(a, b) && NameLeq(b, c) ==> NameLeq(a, c)
  {
    if a != [] {
      var b', c' := if b == [] then [] else b[1..], if c == [] then [] else c[1..];
      NameOrder(a[1..], b', c');
      assert a == [a[0]] + a[1..];
      assert b != [] ==> b == [b[0]] + b[1..];
    }
  }

  /** A beginning comes first, and otherwise the first difference decides. */
  lemma {:induction false} NameFirstDifference(common: string, a: string, b: string)
    ensures a == [] ==> NameLeq(common + a, common + b)
    ensures a != [] && b == [] ==> !NameLeq(common + a, common + b)
    ensures a != [] && b != [] && a[0] != b[0] ==> (NameLeq(common + a, common + b) <==> a[0] < b[0])
  {
    if common == [] {
      assert common + a == a && common + b == b;
    } else {
      NameFirstDifference(common[1..], a, b);
      assert (common + a)[1..] == common[1..] + a && (common + b)[1..] == common[1..] + b;
    }
  }

  /** Rust sources with a stem matter, in any directory, and so do manifests. */
  lemma SourcesMatter(dir: Path, stem: string)
    ensures Relevant(dir + [stem + ".rs"]) <==> stem != ""
    ensures Relevant(dir + ["Cargo.toml"])
  {
    var name := stem + ".rs";
    assert name[|stem|..] == ".rs";
    assert name[|name| - 1] == 's' && "Cargo.toml"[9] == 'l';
    assert (dir + [name])[|dir|] == name;
  }

  /** Nothing else does. */
  lemma NothingElseMatters(dir: Path, name: string)
    requires Relevant(dir + [name]) && name != "Cargo.toml"
    ensures |name| > 3 && name == name[..|name| - 3] + ".rs"
  {
    assert (dir + [name])[|dir|] == name;
  }

  /** What rebuilds everything: three files at the top and anything under one directory. */
  lemma InvalidatesExactly(path: Path)
    ensures |path| == 1 ==>
      (Invalidates(path) <==> path[0] in ["Cargo.lock", "Cargo.toml", "rust-toolchain.toml", ".cargo"])
    ensures |path| != 1 ==> (Invalidates(path) <==> path != [] && path[0] == ".cargo")
  {
  }

  // ---- Ownership ----

  function Workspace(md: Metadata): seq<Package> {
    Select(md.packages, md.members)
  }

  function Select(packages: seq<Package>, members: set<string>): seq<Package> {
    if packages == [] then []
    else
      var last := packages[|packages| - 1];
      Select(packages[..|packages| - 1], members) + if last.id in members then [last] else []
  }

  /** Root directory by package name; a repeated name keeps its last root. */
  function Roots(ws: seq<Package>): map<string, Path> {
    if ws == [] then map[] else Roots(ws[..|ws| - 1])[ws[|ws| - 1].name := ws[|ws| - 1].root]
  }

  /** Candidate `a` loses to candidate `b`: a shallower root, or the same depth and a smaller name. */
  predicate Loses(roots: map<string, Path>, a: string, b: string)
    requires a in roots && b in roots
  {
    |roots[a]| < |roots[b]| || (|roots[a]| == |roots[b]| && NameLeq(a, b))
  }

  /** The package whose root is the deepest of those above the path. */
  ghost predicate Owns(roots: map<string, Path>, path: Path, name: string) {
    && name in roots && roots[name] <= path
    && forall other :: other in roots && roots[other] <= path ==> Loses(roots, other, name)
  }

  /** Depth read off the roots: the owner's root continues every other root above the path. */
  lemma OwnsMeaning(roots: map<string, Path>, path: Path, name: string)
    ensures Owns(roots, path, name) <==>
      && name in roots && roots[name] <= path
      && forall other :: other in roots && roots[other] <= path ==>
           roots[other] <= roots[name] && (roots[other] == roots[name] ==> NameLeq(other, name))
  {
    hide NameLeq;
  }

  lemma OwnerUnique(roots: map<string, Path>, path: Path, a: string, b: string)
    requires Owns(roots, path, a) && Owns(roots, path, b)
    ensures a == b
  {
    NameOrder(a, b, a);
  }

  method FindOwner(roots: map<string, Path>, path: Path) returns (owner: Option<string>)
    ensures owner.Some? ==> owner.value in roots && Owns(roots, path, owner.value)
    ensures owner.Some? ==> roots[owner.value] <= path
    ensures forall other :: owner.Some? && other in roots && roots[other] <= path ==> roots[other] <= roots[owner.value]
    ensures forall other :: owner.Some? && other in roots && roots[other] == roots[owner.value] ==>
              NameLeq(other, owner.value)
    ensures owner.None? ==> forall name :: name in roots ==> !(roots[name] <= path)
    ensures owner.None? ==> forall name :: !Owns(roots, path, name)
  {
    owner := None;
    var rest := roots.Keys;
    while rest != {}
      invariant rest <= roots.Keys
      invariant owner.Some? ==> owner.value in roots && roots[owner.value] <= path
      invariant forall other :: other in roots && other !in rest && roots[other] <= path ==>
                  owner.Some? && Loses(roots, other, owner.value)
      decreases |rest|
    {
      var name :| name in rest;
      rest := rest - {name};
      NameOrder(name, name, name);
      if roots[name] <= path {
        if owner.None? || Loses(roots, owner.value, name) {
          if owner.Some? {
            LosesTransitive(roots, owner.value, name);
          }
          owner := Some(name);
        } else {
          NameOrder(name, owner.value, name);
        }
      }
    }
  }

  lemma LosesTransitive(roots: map<string, Path>, b: string, c: string)
    requires b in roots && c in roots && Loses(roots, b, c)
    ensures forall a :: a in roots && Loses(roots, a, b) ==> Loses(roots, a, c)
  {
    forall a | a in roots && Loses(roots, a, b)
      ensures Loses(roots, a, c)
    {
      NameOrder(a, b, c);
    }
  }

  /** Owners of the relevant changed paths. */
  ghost function DirectlyChanged(roots: map<string, Path>, paths: seq<Path>): set<string> {
    set name | name in roots && exists i :: 0 <= i < |paths| && Relevant(paths[i]) && Owns(roots, paths[i], name)
  }

  method FindDirectlyChanged(roots: map<string, Path>, paths: seq<Path>) returns (changed: set<string>)
    ensures changed == DirectlyChanged(roots, paths)
  {
    hide Owns, Relevant;
    changed := {};
    for n := 0 to |paths|
      invariant changed <= roots.Keys
      invariant forall name :: name in changed <==>
                  name in roots && exists i :: 0 <= i < n && Relevant(paths[i]) && Owns(roots, paths[i], name)
    {
      if Relevant(paths[n]) {
        var owner := FindOwner(roots, paths[n]);
        if owner.Some? {
          changed := changed + {owner.value};
          forall name | Owns(roots, paths[n], name)
            ensures name == owner.value
          {
            OwnerUnique(roots, paths[n], name, owner.value);
          }
        }
      }
    }
  }

  /** The workspace is the packages whose ids are members. */
  lemma {:induction false} WorkspaceIs(packages: seq<Package>, members: set<string>)
    ensures forall p :: p in Select(packages, members) <==> p in packages && p.id in members
  {
    if packages != [] {
      var n := |packages| - 1;
      WorkspaceIs(packages[..n], members);
      assert packages == packages[..n] + [packages[n]];
    }
  }

  /** The root of a name is the root of the last package with that name. */
  lemma {:induction false} RootIsLast(ws: seq<Package>, i: nat)
    requires i < |ws| && forall j :: i < j < |ws| ==> ws[j].name != ws[i].name
    ensures ws[i].name in Roots(ws) && Roots(ws)[ws[i].name] == ws[i].root
  {
    var n := |ws| - 1;
    if i < n {
      RootIsLast(ws[..n], i);
    }
  }

  // ---- Reverse dependencies ----

  /** Some package called `consumer` lists `dependency`, itself a workspace package. */
  ghost predicate DependsOn(ws: seq<Package>, consumer: string, dependency: string) {
    && dependency in Roots(ws)
    && exists i :: 0 <= i < |ws| && ws[i].name == consumer && dependency in ws[i].dependencies
  }

  lemma {:induction false} RootsHaveNames(ws: seq<Package>)
    ensures forall name :: name in Roots(ws) <==> exists i :: 0 <= i < |ws| && ws[i].name == name
  {
    if ws != [] {
      var n := |ws| - 1;
      RootsHaveNames(ws[..n]);
      assert forall i :: 0 <= i < n ==> ws[..n][i] == ws[i];
    }
  }

  /** The value a defaultdict gives for a key. */
  function Consumers(reverse: map<string, set<string>>, name: string): set<string> {
    if name in reverse then reverse[name] else {}
  }

  method ReverseDependencies(ws: seq<Package>, names: set<string>) returns (reverse: map<string, set<string>>)
    requires names == Roots(ws).Keys
    ensures forall d, c :: c in Consumers(reverse, d) <==> DependsOn(ws, c, d)
  {
    reverse := map[];
    for n := 0 to |ws|
      invariant forall d, c :: c in Consumers(reverse, d) <==>
                  d in names && exists i :: 0 <= i < n && ws[i].name == c && d in ws[i].dependencies
    {
      ghost var before := reverse;
      var package := ws[n];
      for k := 0 to |package.dependencies|
        invariant forall d, c :: c in Consumers(reverse, d) <==>
                    c in Consumers(before, d) || (c == package.name && d in names && d in package.dependencies[..k])
      {
        var dependency := package.dependencies[k];
        if dependency in names {
          reverse := reverse[dependency := Consumers(reverse, dependency) + {package.name}];
        }
      }
      assert package.dependencies[..|package.dependencies|] == package.dependencies;
    }
  }

  // ---- The closure ----

  /** Each package of the chain depends on the next one. */
  ghost predicate IsChain(ws: seq<Package>, chain: seq<string>) {
    chain != [] && forall i :: 0 <= i < |chain| - 1 ==> DependsOn(ws, chain[i], chain[i + 1])
  }

  /** `name` has a dependency path, possibly empty, to a package in `targets`. */
  ghost predicate Reaches(ws: seq<Package>, name: string, targets: set<string>) {
    exists chain :: IsChain(ws, chain) && chain[0] == name && chain[|chain| - 1] in targets
  }

  ghost predicate Closed(ws: seq<Package>, s: set<string>) {
    forall c, d :: d in s && DependsOn(ws, c, d) ==> c in s
  }

  lemma ReachesSelf(ws: seq<Package>, name: string, targets: set<string>)
    requires name in targets
    ensures Reaches(ws, name, targets)
  {
    assert IsChain(ws, [name]);
  }

  lemma ReachesStep(ws: seq<Package>, c: string, d: string, targets: set<string>)
    requires DependsOn(ws, c, d) && Reaches(ws, d, targets)
    ensures Reaches(ws, c, targets)
  {
    var chain :| IsChain(ws, chain) && chain[0] == d && chain[|chain| - 1] in targets;
    var longer := [c] + chain;
    assert forall i :: 0 < i < |longer| - 1 ==> longer[i] == chain[i - 1] && longer[i + 1] == chain[i];
    assert IsChain(ws, longer);
  }

  /** A closed set that holds the end of a chain holds its start. */
  lemma {:induction false} ClosedHoldsChain(ws: seq<Package>, s: set<string>, chain: seq<string>)
    requires Closed(ws, s) && IsChain(ws, chain) && chain[|chain| - 1] in s
    ensures chain[0] in s
  {
    if |chain| > 1 {
      var rest := chain[1..];
      forall i | 0 <= i < |rest| - 1
        ensures DependsOn(ws, rest[i], rest[i + 1])
      {
        assert DependsOn(ws, chain[i + 1], chain[i + 1 + 1]);
      }
      ClosedHoldsChain(ws, s, rest);
      assert DependsOn(ws, chain[0], chain[1]);
    }
  }

  ghost function Closure(ws: seq<Package>, changed: set<string>): set<string> {
    set name | name in Roots(ws) && Reaches(ws, name, changed)
  }

  /** The closure is closed, holds the changed packages and is the least such set, cycles or not. */
  lemma ClosureIsLeast(ws: seq<Package>, changed: set<string>, s: set<string>)
    requires changed <= Roots(ws).Keys
    ensures changed <= Closure(ws, changed) && Closed(ws, Closure(ws, changed))
    ensures changed <= s && Closed(ws, s) ==> Closure(ws, changed) <= s
  {
    RootsHaveNames(ws);
    forall name | name in changed
      ensures Reaches(ws, name, changed)
    {
      ReachesSelf(ws, name, changed);
    }
    forall c, d | d in Closure(ws, changed) && DependsOn(ws, c, d)
      ensures c in Closure(ws, changed)
    {
      ReachesStep(ws, c, d, changed);
    }
    if changed <= s && Closed(ws, s) {
      forall name | name in Closure(ws, changed)
        ensures name in s
      {
        var chain :| IsChain(ws, chain) && chain[0] == name && chain[|chain| - 1] in changed;
        ClosedHoldsChain(ws, s, chain);
      }
    }
  }

  /** The log lists exactly the affected names, each of them once. */
  ghost predicate Once(log: seq<string>, affected: set<string>) {
    && (forall x :: x in log <==> x in affected)
    && forall i, j :: 0 <= i < j < |log| ==> log[i] != log[j]
  }

  lemma OnceExtends(log: seq<string>, affected: set<string>, x: string)
    requires Once(log, affected) && x !in affected
    ensures Once(log + [x], affected + {x})
  {
  }

  method Listed(s: set<string>) returns (q: seq<string>)
    ensures Once(q, s) && forall x :: x in q <==> x in s
  {
    q := [];
    var rest := s;
    while rest != {}
      invariant rest <= s && forall x :: x in s <==> x in q || x in rest
      invariant forall x :: x in q ==> x !in rest
      invariant forall i, j :: 0 <= i < j < |q| ==> q[i] != q[j]
      decreases |rest|
    {
      var x :| x in rest;
      q := q + [x];
      rest := rest - {x};
    }
  }

  /**
   * The worklist. `log` records what enters the queue, in order, and `served` counts what has left
   * it: no package enters twice, and at the end every entry has been served.
   */
  method CloseOver(ws: seq<Package>, reverse: map<string, set<string>>, changed: set<string>)
    returns (affected: set<string>, ghost log: seq<string>, ghost served: nat)
    requires changed <= Roots(ws).Keys
    requires forall d, c :: c in Consumers(reverse, d) <==> DependsOn(ws, c, d)
    ensures affected == Closure(ws, changed)
    ensures Once(log, affected) && served == |log|
  {
    hide Closure, DependsOn, Roots, Once, Consumers;
    affected := changed;
    var queue := Listed(changed);
    log, served := queue, 0;
    ClosureIsLeast(ws, changed, {});
    ghost var bound := Closure(ws, changed);
    while queue != []
      invariant changed <= affected <= bound
      invariant forall x :: x in queue ==> x in affected
      invariant Once(log, affected) && served <= |log| && queue == log[served..]
      invariant forall d, c :: d in affected && d !in queue && DependsOn(ws, c, d) ==> c in affected
      decreases bound - affected, |queue|
    {
      var dependency := queue[0];
      var rest := queue[1..];
      assert forall x :: x in queue <==> x == dependency || x in rest;
      served := served + 1;
      ghost var before, added := affected, [];
      affected, queue, added := VisitConsumers(Consumers(reverse, dependency), affected, rest, log);
      log := log + added;
      assert added == [] || added[0] in affected - before;
      assert added == [] ==> affected == before;
    }
    ClosureIsLeast(ws, changed, affected);
  }

  /** The inner loop: the consumers not yet affected join the affected set, the queue and the log. */
  method VisitConsumers(consumers: set<string>, affected0: set<string>, queue0: seq<string>, ghost log0: seq<string>)
    returns (affected: set<string>, queue: seq<string>, ghost added: seq<string>)
    requires Once(log0, affected0)
    ensures affected == affected0 + consumers && queue == queue0 + added && Once(log0 + added, affected)
    ensures forall x :: x in added <==> x in consumers && x !in affected0
  {
    hide Once;
    affected, queue, added := affected0, queue0, [];
    var pending := consumers;
    assert log0 + added == log0;
    while pending != {}
      invariant pending <= consumers && affected == affected0 + (consumers - pending)
      invariant queue == queue0 + added && Once(log0 + added, affected)
      invariant forall x :: x in added <==> x in affected && x !in affected0
      decreases |pending|
    {
      var consumer :| consumer in pending;
      pending := pending - {consumer};
      if consumer !in affected {
        OnceExtends(log0 + added, affected, consumer);
        assert log0 + added + [consumer] == log0 + (added + [consumer]);
        affected := affected + {consumer};
        queue := queue + [consumer];
        added := added + [consumer];
      }
    }
  }

  // ---- The whole decision ----

  ghost function AffectedSet(md: Metadata, paths: seq<Path>): set<string> {
    var ws := Workspace(md);
    Closure(ws, DirectlyChanged(Roots(ws), paths))
  }

  method SelectWorkspace(md: Metadata) returns (ws: seq<Package>)
    ensures ws == Workspace(md)
  {
    ws := [];
    for i := 0 to |md.packages|
      invariant ws == Select(md.packages[..i], md.members)
    {
      assert md.packages[..i + 1][..i] == md.packages[..i];
      if md.packages[i].id in md.members {
        ws := ws + [md.packages[i]];
      }
    }
    assert md.packages[..|md.packages|] == md.packages;
  }

  method AffectedPackages(paths: seq<Path>, md: Metadata) returns (all: bool, affected: set<string>)
    ensures all <==> exists i :: 0 <= i < |paths| && Invalidates(paths[i])
    ensures affected == if all then {} else AffectedSet(md, paths)
  {
    for i := 0 to |paths|
      invariant forall j :: 0 <= j < i ==> !Invalidates(paths[j])
    {
      if Invalidates(paths[i]) {
        return true, {};
      }
    }
    var ws := SelectWorkspace(md);
    var roots := Roots(ws);
    var changed := FindDirectlyChanged(roots, paths);
    var reverse := ReverseDependencies(ws, roots.Keys);
    ghost var log, served;
    affected, log, served := CloseOver(ws, reverse, changed);
    return false, affected;
  }

  /** The two rules of the result, on the packages themselves: owners of changed files, and their users. */
  lemma AffectedRules(md: Metadata, paths: seq<Path>)
    ensures var ws, affected := Workspace(md), AffectedSet(md, paths);
      && (forall i, name :: 0 <= i < |paths| && Relevant(paths[i]) && Owns(Roots(ws), paths[i], name) ==>
            name in affected)
      && (forall i, d :: 0 <= i < |ws| && d in ws[i].dependencies && d in affected ==> ws[i].name in affected)
  {
    hide Owns, Relevant, Closure, Closed, Roots;
    var ws := Workspace(md);
    var changed := DirectlyChanged(Roots(ws), paths);
    ClosureIsLeast(ws, changed, {});
    forall i, name | 0 <= i < |paths| && Relevant(paths[i]) && Owns(Roots(ws), paths[i], name)
      ensures name in AffectedSet(md, paths)
    {
      OwnsMeaning(Roots(ws), paths[i], name);
    }
    forall i, d | 0 <= i < |ws| && d in ws[i].dependencies && d in AffectedSet(md, paths)
      ensures ws[i].name in AffectedSet(md, paths)
    {
      UsersAreAffected(ws, changed, i, d);
    }
  }

  lemma UsersAreAffected(ws: seq<Package>, changed: set<string>, i: nat, d: string)
    requires changed <= Roots(ws).Keys && i < |ws| && d in ws[i].dependencies && d in Closure(ws, changed)
    ensures ws[i].name in Closure(ws, changed)
  {
    ClosureIsLeast(ws, changed, {});
    assert d in Roots(ws);
    hide Closure, Roots;
    assert DependsOn(ws, ws[i].name, d);
  }

  /** Two change lists together affect what either affects alone. */
  lemma AffectedUnion(md: Metadata, a: seq<Path>, b: seq<Path>)
    ensures AffectedSet(md, a + b) == AffectedSet(md, a) + AffectedSet(md, b)
  {
    var ws := Workspace(md);
    var roots := Roots(ws);
    var p, q, r := DirectlyChanged(roots, a), DirectlyChanged(roots, b), DirectlyChanged(roots, a + b);
    assert r == p + q by {
      forall name | name in p + q
        ensures name in r
      {
        if name in p {
          var i :| 0 <= i < |a| && Relevant(a[i]) && Owns(roots, a[i], name);
          assert (a + b)[i] == a[i];
        } else {
          var i :| 0 <= i < |b| && Relevant(b[i]) && Owns(roots, b[i], name);
          assert (a + b)[|a| + i] == b[i];
        }
      }
    }
    forall name
      ensures Reaches(ws, name, r) <==> Reaches(ws, name, p) || Reaches(ws, name, q)
    {
    }
  }
}
