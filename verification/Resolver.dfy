/**
 Dependency resolution of the package manager (kernel/src/pkg/resolver.rs): a depth-first
 walk that orders packages after their dependencies and reports cycles.
 */
module Resolver {
  import opened Errors

  datatype Package = Package(name: string, dependencies: seq<string>)

  datatype PkgError = DependencyCycle | DependencyNotFound(name: string)

  type Index = seq<Package>

  // ---------- the dependency graph ----------

  predicate Present(index: Index, name: string) {
    exists i | 0 <= i < |index| :: index[i].name == name
  }

  /** The first package with this name. */
  function Lookup(index: Index, name: string): (p: Package)
    requires Present(index, name)
    ensures p in index && p.name == name
  {
    if index[0].name == name then index[0] else Lookup(index[1..], name)
  }

  /** Of several packages with one name the first counts. */
  lemma {:induction false} LookupFirst(index: Index, name: string, i: nat)
    requires i < |index| && index[i].name == name && forall j | 0 <= j < i :: index[j].name != name
    ensures Present(index, name) && Lookup(index, name) == index[i]
  {
    if i > 0 {
      LookupFirst(index[1..], name, i - 1);
    }
  }

  predicate Edge(index: Index, a: string, b: string) {
    Present(index, a) && b in Lookup(index, a).dependencies
  }

  predicate IsPath(index: Index, p: seq<string>) {
    |p| > 0 && forall i | 0 <= i < |p| - 1 :: Edge(index, p[i], p[i + 1])
  }

  ghost predicate PathBetween(index: Index, p: seq<string>, a: string, b: string) {
    IsPath(index, p) && p[0] == a && p[|p| - 1] == b
  }

  ghost predicate Reachable(index: Index, a: string, b: string) {
    exists p :: PathBetween(index, p, a, b)
  }

  /** A package reachable from `a` that depends on itself through at least one step. */
  ghost predicate CycleFrom(index: Index, a: string) {
    exists p :: IsCycle(index, p) && Reachable(index, a, p[0])
  }

  ghost predicate IsCycle(index: Index, p: seq<string>) {
    |p| >= 2 && IsPath(index, p) && p[0] == p[|p| - 1]
  }

  lemma ReachableSelf(index: Index, a: string)
    ensures Reachable(index, a, a)
  {
    assert PathBetween(index, [a], a, a);
  }

  lemma ReachableStep(index: Index, a: string, b: string, c: string)
    requires Edge(index, a, b) && Reachable(index, b, c)
    ensures Reachable(index, a, c)
  {
    var p :| PathBetween(index, p, b, c);
    var q := [a] + p;
    assert forall i | 0 < i < |q| - 1 :: q[i] == p[i - 1] && q[i + 1] == p[i];
    assert PathBetween(index, q, a, c);
  }

  lemma ReachableAlong(index: Index, p: seq<string>, i: nat)
    requires IsPath(index, p) && i < |p|
    ensures Reachable(index, p[0], p[i])
  {
    assert PathBetween(index, p[..i + 1], p[0], p[i]);
  }

  /** A name met again on the way down closes a cycle. */
  lemma BackEdge(index: Index, path: seq<string>, i: nat)
    requires IsPath(index, path) && i < |path| - 1 && path[i] == path[|path| - 1]
    ensures CycleFrom(index, path[0])
  {
    var loop := path[i..];
    ReachableAlong(index, path, i);
    assert IsCycle(index, loop);
  }

  // ---------- the order ----------

  predicate NoDup(s: seq<string>) { forall i, j | 0 <= i < j < |s| :: s[i] != s[j] }

  /** Every listed package is in the index and comes after all its dependencies. */
  predicate Ordered(index: Index, s: seq<string>) {
    forall i | 0 <= i < |s| ::
      Present(index, s[i]) && forall d | d in Lookup(index, s[i]).dependencies :: d in s[..i]
  }

  lemma {:induction false} ClosedUnderPath(index: Index, s: seq<string>, p: seq<string>)
    requires Ordered(index, s) && IsPath(index, p) && p[0] in s
    ensures p[|p| - 1] in s
  {
    if |p| > 1 {
      var i :| 0 <= i < |s| && s[i] == p[0];
      assert Edge(index, p[0], p[1]);
      assert p[1] in s[..i];
      ClosedUnderPath(index, s, p[1..]);
    }
  }

  lemma {:induction false} PathDescends(index: Index, s: seq<string>, p: seq<string>, i: nat)
    requires Ordered(index, s) && NoDup(s) && IsPath(index, p)
    requires i < |s| && s[i] == p[0]
    ensures |p| > 1 ==> p[|p| - 1] in s[..i]
    decreases |p|
  {
    if |p| > 1 {
      assert Edge(index, p[0], p[1]);
      assert p[1] in s[..i];
      var j :| 0 <= j < i && s[j] == p[1];
      PathDescends(index, s, p[1..], j);
      assert p[1..][|p[1..]| - 1] == p[|p| - 1];
      if |p| > 2 {
        var k :| 0 <= k < j && s[k] == p[|p| - 1];
        assert s[..i][k] == s[k];
      } else {
        assert s[..i][j] == s[j];
      }
    }
  }

  /** A list in dependency order leaves no room for a cycle. */
  lemma OrderedAcyclic(index: Index, s: seq<string>, root: string)
    requires Ordered(index, s) && NoDup(s) && root in s
    ensures !CycleFrom(index, root)
  {
    if CycleFrom(index, root) {
      var p :| IsCycle(index, p) && Reachable(index, root, p[0]);
      var q :| PathBetween(index, q, root, p[0]);
      ClosedUnderPath(index, s, q);
      var i :| 0 <= i < |s| && s[i] == p[0];
      PathDescends(index, s, p, i);
      assert false;
    }
  }

  // ---------- the walk ----------

  /** `Vec::retain` with "not this name". */
  function Without(s: seq<string>, name: string): seq<string> {
    if s == [] then []
    else if s[0] == name then Without(s[1..], name)
    else [s[0]] + Without(s[1..], name)
  }

  lemma {:induction false} WithoutLast(s: seq<string>, name: string)
    requires name !in s
    ensures Without(s + [name], name) == s
  {
    if s == [] {
      assert s + [name] == [name];
      assert [name][1..] == [];
    } else {
      WithoutLast(s[1..], name);
      assert (s + [name])[1..] == s[1..] + [name];
      assert s == [s[0]] + s[1..];
    }
  }

  ghost function Unvisited(index: Index, visiting: seq<string>): set<string> {
    (set p | p in index :: p.name) - (set n | n in visiting)
  }

  // ---------- the order of the walk ----------

  /**
   The walk as a function: `listed` with `name` and all it needs added, each package behind
   its dependencies, taken in the order the package names them; or the first thing in the way.
   */
  ghost function DepthFirst(index: Index, name: string, trail: seq<string>, listed: seq<string>): Result<seq<string>, PkgError>
    decreases Unvisited(index, trail), 0
  {
    if name in listed then Ok(listed)
    else if name in trail then Err(DependencyCycle)
    else if !Present(index, name) then Err(DependencyNotFound(name))
    else
      UnvisitedShrinks(index, trail, name);
      match DepthFirstAll(index, Lookup(index, name).dependencies, trail + [name], listed)
      case Ok(below) => Ok(below + [name])
      case Err(e) => Err(e)
  }

  ghost function DepthFirstAll(index: Index, names: seq<string>, trail: seq<string>, listed: seq<string>):
    Result<seq<string>, PkgError>
    decreases Unvisited(index, trail), 1 + |names|
  {
    if names == [] then Ok(listed)
    else
      match DepthFirst(index, names[0], trail, listed)
      case Ok(more) => DepthFirstAll(index, names[1..], trail, more)
      case Err(e) => Err(e)
  }

  lemma DepthFirstNext(index: Index, names: seq<string>, k: nat, trail: seq<string>, listed: seq<string>)
    requires k < |names|
    ensures DepthFirstAll(index, names[k..], trail, listed) ==
            match DepthFirst(index, names[k], trail, listed)
            case Ok(more) => DepthFirstAll(index, names[k + 1..], trail, more)
            case Err(e) => Err(e)
  {
    assert names[k..][0] == names[k] && names[k..][1..] == names[k + 1..];
  }

  lemma DepthFirstDone(index: Index, names: seq<string>, trail: seq<string>, listed: seq<string>)
    ensures DepthFirstAll(index, names[|names|..], trail, listed) == Ok(listed)
  {
  }

  lemma DepthFirstInto(index: Index, name: string, trail: seq<string>, listed: seq<string>)
    requires name !in listed && name !in trail && Present(index, name)
    ensures var below := DepthFirstAll(index, Lookup(index, name).dependencies, trail + [name], listed);
            DepthFirst(index, name, trail, listed) == if below.Ok? then Ok(below.value + [name]) else below
  {
  }

  /** What comes back for `name` when the walk went down along `trail`. */
  ghost predicate Explains(index: Index, trail: seq<string>, name: string, e: PkgError)
    requires |trail| > 0
  {
    match e
    case DependencyCycle => CycleFrom(index, trail[0])
    case DependencyNotFound(n) => Reachable(index, name, n) && !Present(index, n)
  }

  class Walk {
    const index: Index
    var visiting: seq<string>
    var ordered: seq<string>

    ghost predicate Valid()
      reads this
    {
      && NoDup(visiting) && NoDup(ordered) && Ordered(index, ordered)
      && (forall n | n in visiting :: Present(index, n) && n !in ordered)
    }

    constructor (index: Index)
      ensures Valid() && this.index == index && visiting == [] && ordered == []
    {
      this.index := index;
      visiting, ordered := [], [];
    }

    /**
     `visit`: put `name` and everything it needs at the end of the order. The walk came
     down along `visiting`, which is left as it was found.
     */
    method Visit(name: string) returns (r: Result<(), PkgError>)
      requires Valid() && IsPath(index, visiting + [name])
      modifies this
      ensures r.Ok? ==>
                && Valid() && visiting == old(visiting)
                && old(ordered) <= ordered && name in ordered
                && (name !in old(ordered) ==> ordered[|ordered| - 1] == name)
                && forall i | |old(ordered)| <= i < |ordered| :: Reachable(index, name, ordered[i])
      ensures r.Err? ==> Explains(index, old(visiting) + [name], name, r.error)
      ensures DepthFirst(index, name, old(visiting), old(ordered)) == if r.Ok? then Ok(ordered) else Err(r.error)
      decreases Unvisited(index, visiting)
    {
      hide Reachable, IsPath, Unvisited, Present, Lookup, DepthFirstAll;
      if name in ordered {
        return Ok(());
      }
      if name in visiting {
        var i :| 0 <= i < |visiting| && visiting[i] == name;
        BackEdge(index, visiting + [name], i);
        return Err(DependencyCycle);
      }
      if !Present(index, name) {
        ReachableSelf(index, name);
        return Err(DependencyNotFound(name));
      }
      ghost var trail, before := visiting, ordered;
      var deps := Lookup(index, name).dependencies;
      visiting := visiting + [name];
      UnvisitedShrinks(index, trail, name);
      DepthFirstInto(index, name, trail, before);
      assert deps[0..] == deps;
      for k := 0 to |deps|
        invariant Valid() && visiting == trail + [name]
        invariant before <= ordered
        invariant forall j | 0 <= j < k :: deps[j] in ordered
        invariant DepthFirstAll(index, deps, trail + [name], before) == DepthFirstAll(index, deps[k..], visiting, ordered)
        invariant forall i | |before| <= i < |ordered| :: Reachable(index, name, ordered[i])
      {
        ghost var sofar := ordered;
        TrailGrows(index, trail, name, deps[k]);
        DepthFirstNext(index, deps, k, visiting, ordered);
        r := Visit(deps[k]);
        if r.Err? {
          ErrorAbove(index, trail, name, deps[k], r.error);
          return;
        }
        NewReachable(index, name, deps[k], sofar, ordered);
      }
      DepthFirstDone(index, deps, visiting, ordered);
      WithoutLast(trail, name);
      visiting := Without(visiting, name);
      assert (trail + [name])[|trail|] == name;
      ReachableSelf(index, name);
      OrderedPush(index, ordered, name);
      ordered := ordered + [name];
      return Ok(());
    }
  }

  lemma UnvisitedShrinks(index: Index, trail: seq<string>, name: string)
    requires Present(index, name) && name !in trail
    ensures Unvisited(index, trail + [name]) < Unvisited(index, trail)
  {
    assert Lookup(index, name) in index;
    assert name in Unvisited(index, trail);
    assert (trail + [name])[|trail|] == name;
  }

  lemma TrailGrows(index: Index, trail: seq<string>, name: string, d: string)
    requires IsPath(index, trail + [name]) && Edge(index, name, d)
    ensures IsPath(index, trail + [name] + [d])
  {
    var p, q := trail + [name], trail + [name] + [d];
    forall i | 0 <= i < |q| - 1
      ensures Edge(index, q[i], q[i + 1])
    {
      if i < |p| - 1 {
        assert Edge(index, p[i], p[i + 1]);
      }
    }
  }

  lemma ErrorAbove(index: Index, trail: seq<string>, name: string, d: string, e: PkgError)
    requires Edge(index, name, d) && Explains(index, trail + [name] + [d], d, e)
    ensures Explains(index, trail + [name], name, e)
  {
    if e.DependencyNotFound? {
      ReachableStep(index, name, d, e.name);
    }
  }

  lemma NewReachable(index: Index, name: string, d: string, before: seq<string>, after: seq<string>)
    requires Edge(index, name, d) && |before| <= |after|
    requires forall i | |before| <= i < |after| :: Reachable(index, d, after[i])
    ensures forall i | |before| <= i < |after| :: Reachable(index, name, after[i])
  {
    forall i | |before| <= i < |after|
      ensures Reachable(index, name, after[i])
    {
      ReachableStep(index, name, d, after[i]);
    }
  }

  lemma OrderedPush(index: Index, s: seq<string>, name: string)
    requires Ordered(index, s) && NoDup(s) && Present(index, name) && name !in s
    requires forall d | d in Lookup(index, name).dependencies :: d in s
    ensures Ordered(index, s + [name]) && NoDup(s + [name])
  {
    var t := s + [name];
    forall i | 0 <= i < |t|
      ensures Present(index, t[i]) && forall d | d in Lookup(index, t[i]).dependencies :: d in t[..i]
    {
      if i < |s| {
        assert t[..i] == s[..i];
      } else {
        assert t[..i] == s;
      }
    }
  }

  /** Everything the root needs is there, and nothing it needs goes round in a circle. */
  ghost predicate Resolvable(index: Index, root: string) {
    && (forall n :: Reachable(index, root, n) ==> Present(index, n))
    && !CycleFrom(index, root)
  }

  /**
   `resolve_dependencies`. Success is exactly resolvability; the list then holds each
   reachable package once, after its dependencies, the root last. An error names its cause.
   */
  method ResolveDependencies(index: Index, root: string) returns (r: Result<seq<string>, PkgError>)
    ensures r.Ok? <==> Resolvable(index, root)
    ensures r.Ok? ==>
              && NoDup(r.value) && Ordered(index, r.value)
              && (forall n :: n in r.value <==> Reachable(index, root, n))
              && |r.value| > 0 && r.value[|r.value| - 1] == root
    ensures r == DepthFirst(index, root, [], [])
    ensures r == Err(DependencyCycle) ==> CycleFrom(index, root)
    ensures r.Err? && r.error.DependencyNotFound? ==>
              Reachable(index, root, r.error.name) && !Present(index, r.error.name)
  {
    var walk := new Walk(index);
    var v := walk.Visit(root);
    if v.Err? {
      return Err(v.error);
    }
    assert forall n | n in walk.ordered :: Reachable(index, root, n);
    forall n | Reachable(index, root, n)
      ensures n in walk.ordered
    {
      var p :| PathBetween(index, p, root, n);
      ClosedUnderPath(index, walk.ordered, p);
    }
    OrderedAcyclic(index, walk.ordered, root);
    return Ok(walk.ordered);
  }
}
