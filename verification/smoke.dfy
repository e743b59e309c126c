/**
 * The two-package universe of the solver's smoke test: A 1.0.0 and 2.0.0
 * both depend on B in [2.0.0, 3.0.0); B has 1.5.0 and 2.1.0. Ranks stand in
 * for the version order.
 */
module SolverExample {
  import opened Wrappers
  import opened Versions
  import opened Domain
  import opened Solver

  const V100 := Version(100, "1.0.0")
  const V150 := Version(150, "1.5.0")
  const V200 := Version(200, "2.0.0")
  const V210 := Version(210, "2.1.0")
  const V300 := Version(300, "3.0.0")

  /** `[2.0.0, 3.0.0)` */
  const OnB := DependencyInfo("B", Some(VersionRange(Some(Bound(V200, true)), Some(Bound(V300, false)))), false, false)

  const AnyGroupOnB := [DependencyGroupInfo(AnyMoniker, [OnB])]
  const AnyGroupEmpty := [DependencyGroupInfo(AnyMoniker, [])]

  const Example := PackageUniverse(
    map["A" := [PackageVersionNode("A", V100, "test", None, AnyGroupOnB),
                PackageVersionNode("A", V200, "test", None, AnyGroupOnB)],
        "B" := [PackageVersionNode("B", V150, "test", None, AnyGroupEmpty),
                PackageVersionNode("B", V210, "test", None, AnyGroupEmpty)]],
    {"A"},
    map[("A", 0) := [OnB], ("A", 1) := [OnB], ("B", 0) := [], ("B", 1) := []])

  /** The assignment picking the newest version of each package. */
  const Newest: Assignment := map["A" := 1, "B" := 1]

  /** Only B 2.1.0 lies in A's range. */
  lemma OnlyNewerBAllowed()
    ensures AllowedIndices(OnB.versionRange, Example.candidatesByPackage["B"]) == {1}
  {
    var s := AllowedIndices(OnB.versionRange, Example.candidatesByPackage["B"]);
    assert 1 in s;
    assert 0 !in s;
  }

  /** Every feasible assignment picks B 2.1.0, and picking it together with the newest A is feasible. */
  lemma FeasibleAssignments(a: Assignment)
    ensures Feasible(Example, a) ==> a["B"] == 1 && a["A"] <= 1
    ensures Feasible(Example, Newest)
  {
    OnlyNewerBAllowed();
    if Feasible(Example, a) {
      assert "A" in a;
      var k := ("A", a["A"]);
      assert k in Example.effectiveDependencies;
      assert OnB in Example.effectiveDependencies[k];
      assert DependencyHolds(Example, a, OnB);
    }
    assert InDomain(Example, Newest);
    forall k, d | k in Example.effectiveDependencies && d in Example.effectiveDependencies[k]
      ensures Implies(k.0 in Newest && Newest[k.0] == k.1, DependencyHolds(Example, Newest, d))
    {
      if k.0 == "A" {
        assert d == OnB;
      }
    }
  }

  /** With a single summed package, the objective is that package's index. */
  lemma ObjectiveOfOne(a: Assignment, p: PackageId)
    requires p in a
    ensures Objective(a, {p}) == a[p]
  {
    ObjectiveRemove(a, {p}, p);
    assert {p} - {p} == {};
  }

  /** The solver picks A 2.0.0 and B 2.1.0. */
  method SolveExample() returns (versionA: string, versionB: string)
    ensures versionA == "2.0.0" && versionB == "2.1.0"
  {
    FeasibleAssignments(Newest);
    assert Known(Example, ObjectivePackages(Example, None));
    var r := SolveForNewest(Example, None);
    assert r.Success?;
    var a := SelectedIndices(r.value.selectionByPackage);
    FeasibleAssignments(a);
    ObjectiveOfOne(a, "A");
    ObjectiveOfOne(Newest, "A");
    assert a["A"] == 1;
    versionA := r.value.selectionByPackage["A"].version;
    versionB := r.value.selectionByPackage["B"].version;
  }
}
