/** The architecture check's tiers: a package may only depend on its own tier or a lower one. */
module Tiers {
  import opened CycleFinder

  datatype Violation = UnknownPackage(name: string)
                     | UnknownDependency(name: string, dependency: string)
                     | HigherTier(name: string, dependency: string)

  /** What the rules object to in one package. */
  ghost predicate Breaks(tiers: map<string, int>, package: Package, v: Violation) {
    && v.name == package.name
    && match v
       case UnknownPackage(name) => name !in tiers
       case UnknownDependency(name, dependency) =>
         name in tiers && Needs(package, dependency) && dependency !in tiers
       case HigherTier(name, dependency) =>
         && name in tiers && Needs(package, dependency)
         && dependency in tiers && tiers[dependency] > tiers[name]
  }

  /** The violations of one package, in the order of its dependencies. */
  method CheckPackage(tiers: map<string, int>, package: Package) returns (errors: seq<Violation>)
    ensures forall v :: v in errors <==> Breaks(tiers, package, v)
  {
    EdgesAreNeeds(package);
    hide EdgesOf, Needs;
    errors := [];
    if package.name !in tiers {
      return [UnknownPackage(package.name)];
    }
    var dependencies := EdgesOf(package);
    for i := 0 to |dependencies|
      invariant forall v :: v in errors <==>
                  Breaks(tiers, package, v) && v.dependency in dependencies[..i]
    {
      var dependency := dependencies[i];
      if dependency !in tiers {
        errors := errors + [UnknownDependency(package.name, dependency)];
      } else if tiers[dependency] > tiers[package.name] {
        errors := errors + [HigherTier(package.name, dependency)];
      }
    }
  }

  method CheckTierViolations(tiers: map<string, int>, packages: seq<Package>) returns (errors: seq<Violation>)
    ensures forall v :: v in errors <==> exists package <- packages :: Breaks(tiers, package, v)
    ensures errors == [] ==> Layered(tiers, GraphOf(packages))
    ensures errors == [] ==>
              forall a, b :: Requires(packages, a, b) ==> a in tiers && b in tiers && tiers[b] <= tiers[a]
  {
    hide Breaks, GraphOf, Requires, Edge;
    errors := [];
    for i := 0 to |packages|
      invariant forall v :: v in errors <==> exists package <- packages[..i] :: Breaks(tiers, package, v)
    {
      var more := CheckPackage(tiers, packages[i]);
      assert packages[..i + 1] == packages[..i] + [packages[i]];
      errors := errors + more;
    }
    assert packages[..|packages|] == packages;
    if errors == [] {
      forall package <- packages, v ensures !Breaks(tiers, package, v) {
        assert v !in errors;
      }
      CleanIsLayered(tiers, packages);
      forall a, b | Requires(packages, a, b) ensures a in tiers && b in tiers && tiers[b] <= tiers[a] {
        GraphIsExact(packages, a, b);
      }
    }
  }

  /** Every package has a tier, and no edge leads to a higher one. */
  ghost predicate Layered(tiers: map<string, int>, g: Graph) {
    forall a, b :: Edge(g, a, b) ==> a in tiers && b in tiers && tiers[b] <= tiers[a]
  }

  lemma {:induction false} CleanIsLayered(tiers: map<string, int>, packages: seq<Package>)
    requires forall package <- packages, v :: !Breaks(tiers, package, v)
    ensures Layered(tiers, GraphOf(packages))
  {
    if packages != [] {
      var n := |packages| - 1;
      var last := packages[n];
      CleanIsLayered(tiers, packages[..n]);
      EdgesAreNeeds(last);
      hide EdgesOf, Needs;
      forall b | b in EdgesOf(last) ensures last.name in tiers && b in tiers && tiers[b] <= tiers[last.name] {
        assert !Breaks(tiers, last, UnknownPackage(last.name));
        assert !Breaks(tiers, last, UnknownDependency(last.name, b));
        assert !Breaks(tiers, last, HigherTier(last.name, b));
      }
      var g, before := GraphOf(packages), GraphOf(packages[..n]);
      forall a, b | Edge(g, a, b) ensures a in tiers && b in tiers && tiers[b] <= tiers[a] {
        assert a != last.name ==> Edge(before, a, b);
      }
    }
  }

  lemma {:induction false} TiersNeverRise(tiers: map<string, int>, g: Graph, p: seq<string>, i: nat, j: nat)
    requires Layered(tiers, g) && Walk(g, p) && i < j < |p|
    ensures p[i] in tiers && p[j] in tiers && tiers[p[j]] <= tiers[p[i]]
  {
    assert Edge(g, p[j - 1], p[j]);
    if i < j - 1 {
      TiersNeverRise(tiers, g, p, i, j - 1);
    }
  }

  /** Without violations a dependency cycle can only run inside one tier. */
  lemma CyclesStayInOneTier(tiers: map<string, int>, g: Graph, c: seq<string>, i: nat)
    requires Layered(tiers, g) && ClosedWalk(g, c) && i < |c|
    ensures c[0] in tiers && c[i] in tiers && tiers[c[i]] == tiers[c[0]]
  {
    TiersNeverRise(tiers, g, c, 0, |c| - 1);
    if 0 < i < |c| - 1 {
      TiersNeverRise(tiers, g, c, 0, i);
      TiersNeverRise(tiers, g, c, i, |c| - 1);
    }
  }
}
