/**
 * The pipeline test script's driver: it runs its named tests in order,
 * records a test that raises as failed, counts the passed ones and exits 0
 * exactly when all of them passed.
 */
module TestPipeline {

  /** The names of the four tests, in the order they run. */
  const TEST_NAMES: seq<string> :=
    ["ScholarshipData Creation", "JSON Schema Validation", "Discovery Pipeline", "Daily Discovery"]

  /** How one test ended: it returned a value (truthy or not) or it raised. */
  datatype TestOutcome = Returned(truthy: bool) | Raised(message: string)

  /** What is recorded for a test: its truthiness, and false when it raised. */
  function Recorded(o: TestOutcome): bool {
    match o
    case Returned(t) => t
    case Raised(_) => false
  }

  /** The number of true entries. */
  function CountTrue(bs: seq<bool>): (n: nat)
    ensures n <= |bs|
  {
    if bs == [] then 0 else CountTrue(bs[..|bs| - 1]) + (if bs[|bs| - 1] then 1 else 0)
  }

  /** All entries are true exactly when the count of true entries is the length. */
  lemma {:induction false} CountTrueAll(bs: seq<bool>)
    ensures CountTrue(bs) == |bs| <==> forall i :: 0 <= i < |bs| ==> bs[i]
  {
    if bs != [] {
      var init := bs[..|bs| - 1];
      CountTrueAll(init);
      assert forall i :: 0 <= i < |init| ==> init[i] == bs[i];
    }
  }

  /**
   * `main`: with the environment set up, run each test, record its outcome,
   * count the passed ones and exit 0 exactly when every test passed; without
   * it, exit 1 straight away. `run(name)` is how the test called `name` ends.
   */
  method RunTests(envReady: bool, run: string -> TestOutcome) returns (results: seq<bool>, passed: nat, exitCode: int)
    ensures envReady ==> |results| == |TEST_NAMES|
    ensures envReady ==> forall i :: 0 <= i < |TEST_NAMES| ==> results[i] == Recorded(run(TEST_NAMES[i]))
    ensures passed == CountTrue(results) && passed <= |results|
    ensures exitCode == 0 <==> envReady && forall i :: 0 <= i < |TEST_NAMES| ==> run(TEST_NAMES[i]) == Returned(true)
  {
    if !envReady {
      return [], 0, 1;
    }
    results := [];
    var i := 0;
    while i < |TEST_NAMES|
      invariant 0 <= i <= |TEST_NAMES| && |results| == i
      invariant forall k :: 0 <= k < i ==> results[k] == Recorded(run(TEST_NAMES[k]))
    {
      match run(TEST_NAMES[i]) {
        case Returned(t) =>
          results := results + [t];
        case Raised(_) =>
          results := results + [false];
      }
      i := i + 1;
    }
    passed := 0;
    var j := 0;
    while j < |results|
      invariant 0 <= j <= |results|
      invariant passed == CountTrue(results[..j])
    {
      assert results[..j + 1][..j] == results[..j];
      if results[j] {
        passed := passed + 1;
      }
      j := j + 1;
    }
    assert results[..j] == results;
    CountTrueAll(results);
    exitCode := if passed == |results| then 0 else 1;
  }
}
