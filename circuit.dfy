/**
 * The circuit-build `Context`, modelled as an append-only log of the steps the
 * BLS gadgets issue: witness loads, constraints (on-curve assertions, equality
 * assertions) and the computations whose outputs are witnesses only.
 */
module Circuit {
  import opened Fields
  import opened Pairing

  datatype Step =
    | LoadG1(g: G1Point)                          // load_private_g1_unchecked
    | LoadG2(q: G2Point)                          // load_private_g2_unchecked
    | AssertOnCurveG1(g: G1Point)                 // assert_is_on_curve over Fp
    | AssertOnCurveG2(q: G2Point)                 // assert_is_on_curve over Fp2
    | SubgroupTrace(point: G2Point, computed: seq<Fq2>)  // values assert_in_g2 computes, none constrained
    | AssertFq2Equal(lhs: Fq2, rhs: Fq2)          // an equality constraint, as a working subgroup check would emit
    | NegateG12(q: G2Point)                       // negate through the Fp12-coordinate EC chip
    | MultiMillerLoop(pairs: seq<PairInput>)      // multi_miller_loop
    | FinalExponentiation(value: int)             // final_exp

  /** A step that constrains the circuit (makes it unsatisfiable when it fails). */
  predicate IsConstraint(s: Step)
  {
    s.AssertOnCurveG1? || s.AssertOnCurveG2? || s.AssertFq2Equal?
  }

  /** The constraints of a log, in emission order. */
  function Constraints(log: seq<Step>): (cs: seq<Step>)
    ensures |cs| <= |log|
  {
    if log == [] then []
    else (if IsConstraint(log[0]) then [log[0]] else []) + Constraints(log[1..])
  }

  /** Every step `Constraints` lists is a constraint that the log holds. */
  lemma {:induction false} ConstraintsSound(log: seq<Step>)
    ensures forall i :: 0 <= i < |Constraints(log)| ==>
      IsConstraint(Constraints(log)[i]) && Constraints(log)[i] in log
  {
    if log != [] {
      ConstraintsSound(log[1..]);
      var head := if IsConstraint(log[0]) then [log[0]] else [];
      assert Constraints(log) == head + Constraints(log[1..]);
      forall i | 0 <= i < |Constraints(log)|
        ensures IsConstraint(Constraints(log)[i]) && Constraints(log)[i] in log
      {
        if i >= |head| {
          assert Constraints(log)[i] == Constraints(log[1..])[i - |head|];
          assert Constraints(log)[i] in log[1..];
        }
      }
    }
  }

  lemma {:induction false} ConstraintsAppend(a: seq<Step>, b: seq<Step>)
    ensures Constraints(a + b) == Constraints(a) + Constraints(b)
  {
    if a == [] {
      assert a + b == b;
    } else {
      assert (a + b)[0] == a[0];
      assert (a + b)[1..] == a[1..] + b;
      ConstraintsAppend(a[1..], b);
      var head := if IsConstraint(a[0]) then [a[0]] else [];
      assert Constraints(a + b) == head + Constraints(a[1..] + b);
      assert Constraints(a) == head + Constraints(a[1..]);
    }
  }

  /** The points the subgroup gadget was called on, in call order. */
  function SubgroupCalls(log: seq<Step>): (calls: seq<G2Point>)
    ensures |calls| <= |log|
  {
    if log == [] then []
    else (if log[0].SubgroupTrace? then [log[0].point] else []) + SubgroupCalls(log[1..])
  }

  lemma {:induction false} SubgroupCallsAppend(a: seq<Step>, b: seq<Step>)
    ensures SubgroupCalls(a + b) == SubgroupCalls(a) + SubgroupCalls(b)
  {
    if a == [] {
      assert a + b == b;
    } else {
      assert (a + b)[0] == a[0];
      assert (a + b)[1..] == a[1..] + b;
      SubgroupCallsAppend(a[1..], b);
      var head := if a[0].SubgroupTrace? then [a[0].point] else [];
      assert SubgroupCalls(a + b) == head + SubgroupCalls(a[1..] + b);
      assert SubgroupCalls(a) == head + SubgroupCalls(a[1..]);
    }
  }

  /** A log without constraint steps constrains nothing. */
  lemma {:induction false} ConstraintsNone(log: seq<Step>)
    requires forall i :: 0 <= i < |log| ==> !IsConstraint(log[i])
    ensures Constraints(log) == []
  {
    if log != [] {
      assert forall i :: 0 <= i < |log[1..]| ==> log[1..][i] == log[i + 1];
      ConstraintsNone(log[1..]);
    }
  }

  /** A log made only of constraint steps is its own list of constraints. */
  lemma {:induction false} ConstraintsAll(log: seq<Step>)
    requires forall i :: 0 <= i < |log| ==> IsConstraint(log[i])
    ensures Constraints(log) == log
  {
    if log != [] {
      assert forall i :: 0 <= i < |log[1..]| ==> log[1..][i] == log[i + 1];
      ConstraintsAll(log[1..]);
      assert log == [log[0]] + log[1..];
    }
  }

  /** A log without subgroup-gadget steps calls the gadget on no point. */
  lemma {:induction false} SubgroupCallsNone(log: seq<Step>)
    requires forall i :: 0 <= i < |log| ==> !log[i].SubgroupTrace?
    ensures SubgroupCalls(log) == []
  {
    if log != [] {
      assert forall i :: 0 <= i < |log[1..]| ==> log[1..][i] == log[i + 1];
      SubgroupCallsNone(log[1..]);
    }
  }

  /** The constraints and subgroup calls of a single step. */
  lemma SingleStep(s: Step)
    ensures Constraints([s]) == if IsConstraint(s) then [s] else []
    ensures SubgroupCalls([s]) == if s.SubgroupTrace? then [s.point] else []
  {
    assert [s][1..] == [];
  }

  /** Four single-step appends make one four-step append. */
  lemma Append4(log: seq<Step>, a: Step, b: Step, c: Step, d: Step)
    ensures log + [a] + [b] + [c] + [d] == log + [a, b, c, d]
  {
  }

  /** Three single-step appends make one three-step append. */
  lemma Append3(log: seq<Step>, a: Step, b: Step, c: Step)
    ensures log + [a] + [b] + [c] == log + [a, b, c]
  {
  }

  /**
   * The log of a verification: two phases appended one after the other, two
   * subgroup steps, then a last phase, make one append of the whole trace.
   */
  lemma AppendTrace(log: seq<Step>, prefix: seq<Step>, s1: Step, s2: Step, suffix: seq<Step>)
    ensures log + prefix + [s1] + [s2] + suffix == log + (prefix + [s1, s2] + suffix)
  {
  }

  class Context {
    var log: seq<Step>

    constructor ()
      ensures log == []
    {
      log := [];
    }

    /** Append one step; nothing already emitted changes. */
    method Emit(s: Step)
      modifies this
      ensures log == old(log) + [s]
    {
      log := log + [s];
    }
  }
}
