/** The Collatz map on unsigned 64-bit values: the forward trajectory of a
    number and the (at most two) numbers one step before it. Values are
    unbounded naturals; the 64-bit width is kept by `U64Max`. */
module Collatz {

  /** Largest value a `u64` holds. */
  const U64Max: nat := 0xFFFF_FFFF_FFFF_FFFF

  /** One forward Collatz step: halve an even value, map an odd one to 3n+1.
      An odd value always steps up to an even one. */
  function Step(n: nat): (r: nat)
    ensures n % 2 == 0 ==> 2 * r == n
    ensures n % 2 == 1 ==> r % 2 == 0 && r > n && (r - 1) % 3 == 0 && (r - 1) / 3 == n
  {
    if n % 2 == 0 then n / 2 else 3 * n + 1
  }

  /** The value `k` forward steps after `n`. */
  function Iterate(n: nat, k: nat): nat
    decreases k
  {
    if k == 0 then n else Iterate(Step(n), k - 1)
  }

  /** How a run of `CollatzSequence` ended. */
  datatype Outcome =
    | Reached    // the loop stopped at 1
    | Overflow   // the next value, 3n+1, does not fit in a u64 (Rust panics)
    | OutOfFuel  // the step budget ran out before 1 was reached

  /** `s` is the complete trajectory of `n`: it starts at `n`, each element is
      one step from the previous one, it ends with 1 and 1 occurs nowhere before. */
  ghost predicate IsTrajectory(n: nat, s: seq<nat>) {
    && |s| >= 1
    && s[0] == n
    && (forall i :: 0 <= i < |s| - 1 ==> s[i + 1] == Step(s[i]))
    && (forall i :: 0 <= i < |s| - 1 ==> s[i] != 1)
    && s[|s| - 1] == 1
  }

  /** The forward sequence of `n`, pushing every value until 1 is reached.
      The original loop is unbounded (termination is the Collatz
      conjecture, and it never ends for 0), so it runs here for at most
      `fuel` steps; a step whose 3n+1 leaves the u64 range stops the run. */
  method CollatzSequence(n: nat, fuel: nat) returns (sequence: seq<nat>, outcome: Outcome)
    requires n <= U64Max
    ensures |sequence| >= 1 && sequence[0] == n
    ensures forall i :: 0 <= i < |sequence| - 1 ==> sequence[i + 1] == Step(sequence[i])
    ensures forall i :: 0 <= i < |sequence| - 1 ==> sequence[i] != 1
    ensures forall i :: 0 <= i < |sequence| ==> sequence[i] <= U64Max
    ensures outcome == Reached <==> sequence[|sequence| - 1] == 1
    ensures outcome == Reached ==> IsTrajectory(n, sequence)
    ensures outcome == Overflow ==>
              var last := sequence[|sequence| - 1];
              last % 2 == 1 && 3 * last + 1 > U64Max && last != 1
    ensures outcome == Overflow ==> |sequence| <= fuel
    ensures outcome == OutOfFuel ==> |sequence| == fuel + 1 && sequence[fuel] != 1
  {
    var current := n;
    sequence := [n];
    var steps := 0;
    while current != 1 && steps < fuel
      invariant steps <= fuel && |sequence| == steps + 1 && sequence[0] == n
      invariant sequence[|sequence| - 1] == current && current <= U64Max
      invariant forall i :: 0 <= i < |sequence| - 1 ==> sequence[i + 1] == Step(sequence[i])
      invariant forall i :: 0 <= i < |sequence| - 1 ==> sequence[i] != 1
      invariant forall i :: 0 <= i < |sequence| ==> sequence[i] <= U64Max
      decreases fuel - steps
    {
      if current % 2 == 1 && 3 * current + 1 > U64Max {
        return sequence, Overflow;
      }
      current := if current % 2 == 0 then current / 2 else 3 * current + 1;
      sequence := sequence + [current];
      steps := steps + 1;
    }
    outcome := if current == 1 then Reached else OutOfFuel;
  }

  /** A trajectory is determined by its start: two complete trajectories of
      the same number are equal. */
  lemma {:induction false} TrajectoryUnique(n: nat, s: seq<nat>, t: seq<nat>)
    requires IsTrajectory(n, s) && IsTrajectory(n, t)
    ensures s == t
  {
    var k := 0;
    while k < |s| && k < |t|
      invariant k <= |s| && k <= |t|
      invariant s[..k] == t[..k]
      invariant k > 0 ==> s[k - 1] == t[k - 1]
    {
      if k > 0 {
        assert s[k] == Step(s[k - 1]) == t[k];
      }
      assert s[..k + 1] == s[..k] + [s[k]] && t[..k + 1] == t[..k] + [t[k]];
      k := k + 1;
    }
    if |s| != |t| {
      assert false;
    }
    assert s == s[..k] && t == t[..k];
  }

  /** The trajectories the unit test of `collatz_sequence` expects for 1, 2 and 3. */
  lemma TrajectoryExamples()
    ensures IsTrajectory(1, [1])
    ensures IsTrajectory(2, [2, 1])
    ensures IsTrajectory(3, [3, 10, 5, 16, 8, 4, 2, 1])
  {
  }

  /** So whenever `CollatzSequence(3, fuel)` reaches 1, it returns exactly the
      sequence the unit test expects. */
  lemma SequenceOfThree(s: seq<nat>)
    requires IsTrajectory(3, s)
    ensures s == [3, 10, 5, 16, 8, 4, 2, 1]
  {
    TrajectoryExamples();
    TrajectoryUnique(3, s, [3, 10, 5, 16, 8, 4, 2, 1]);
  }

  /** The values that map to `n` in one step, even predecessor first:
      always 2n, and (n-1)/3 when n > 1, n % 3 == 1 and that quotient is odd.
      Every returned value steps to `n` (`PredecessorsComplete` shows the
      converse). */
  function Predecessors(n: nat): (predecessors: seq<nat>)
    requires 2 * n <= U64Max
    ensures 1 <= |predecessors| <= 2 && predecessors[0] == 2 * n
    ensures |predecessors| == 2 <==> n > 1 && n % 3 == 1 && ((n - 1) / 3) % 2 == 1
    ensures |predecessors| == 2 ==>
              predecessors[1] % 2 == 1 && 3 * predecessors[1] + 1 == n
    ensures forall i :: 0 <= i < |predecessors| ==> Step(predecessors[i]) == n
  {
    var even := [2 * n];
    if n > 1 && n % 3 == 1 && (n - 1) % 3 == 0 && ((n - 1) / 3) % 2 == 1 then
      even + [(n - 1) / 3]
    else
      even
  }

  /** Every value that steps to `n` is among its predecessors, so together
      with the contract of `Predecessors`: m is returned iff Step(m) == n. */
  lemma PredecessorsComplete(n: nat, m: nat)
    requires 2 * n <= U64Max
    ensures m in Predecessors(n) <==> Step(m) == n
  {
    var predecessors := Predecessors(n);
    if Step(m) == n {
      if m % 2 == 0 {
        assert m == 2 * n == predecessors[0];
      } else {
        assert 3 * m + 1 == n;
        assert n > 1 && n % 3 == 1 && (n - 1) / 3 == m;
        assert predecessors[1] == m;
      }
    }
  }

  /** The examples of the predecessor unit test: 2 precedes 1 (0, the candidate
      odd predecessor, is even), and 8 and 1 precede 4. */
  lemma PredecessorsExamples()
    ensures Predecessors(1) == [2]
    ensures Predecessors(4) == [8, 1]
  {
  }
}
