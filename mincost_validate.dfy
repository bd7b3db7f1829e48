/** The checks every minimum-cost flow solver runs on its residual network
    before solving: the supplies must balance, a network without edges must
    have nothing left to move, and a network without nodes or edges has the
    answer zero at once. None of them changes the network. */
module MinimumCostFlowValidate {
  import opened Wrappers
  import opened Sums
  import opened MinimumCostFlowResidualNetwork
  import Graph
  import opened MinimumCostFlowNormalizedNetwork

  /** The solver status values (`NotSolved` is the default). */
  datatype Status = NotSolved | BadInput | Unbalanced | Infeasible

  /** `validate_balance`: `Unbalanced` exactly when the excesses do not add
      up to zero. */
  function ValidateBalance(rn: ResidualNetwork): (r: Result<(), Status>)
    reads rn
    requires rn.Valid()
    ensures r.Err? <==> Sum(rn.excesses) != 0
    ensures r.Err? ==> r.error == Unbalanced
  {
    if Sum(rn.excesses) != 0 then Err(Unbalanced) else Ok(())
  }

  /** `validate_infeasible`: `Infeasible` exactly when there is no edge to
      carry flow and yet some node has excess. */
  function ValidateInfeasible(rn: ResidualNetwork): (r: Result<(), Status>)
    reads rn
    requires rn.Valid()
    ensures r.Err? <==> rn.numEdges == 0 && exists u :: 0 <= u < rn.numNodes && rn.excesses[u] != 0
    ensures r.Err? ==> r.error == Infeasible
  {
    if rn.numEdges == 0 && AnyNonZero(rn.excesses) then Err(Infeasible) else Ok(())
  }

  /** `trivial_solution_if_any`: the answer zero when the network has no
      node or no edge, and no answer otherwise. */
  function TrivialSolutionIfAny(rn: ResidualNetwork): (r: Option<Result<int, Status>>)
    reads rn
    requires rn.Valid()
    ensures r.Some? <==> rn.numNodes == 0 || rn.numEdges == 0
    ensures r.Some? ==> r.value == Ok(0)
  {
    if rn.numNodes == 0 || rn.numEdges == 0 then Some(Ok(0)) else None
  }

  /** The trivial answer is exact once the network passed the feasibility
      check: there is then no base edge, so every flow costs zero, and no
      node has excess left to move. */
  lemma TrivialSolutionExact(rn: ResidualNetwork)
    requires rn.Valid() && ValidateInfeasible(rn).Ok? && TrivialSolutionIfAny(rn).Some?
    ensures rn.numEdgesOriginalGraph == 0 && |rn.net.base| == 0
    ensures forall x :: |x| == 0 ==> ObjectiveOf(rn.net.base, x) == 0
    ensures forall u :: 0 <= u < rn.numNodes ==> rn.excesses[u] == 0
  {
    ghost var base, n := rn.net.base, rn.net.numNodes;
    if |base| > 0 {
      Graph.EdgeEndpoints(base, n, 0);
      assert false;
    }
  }
}
