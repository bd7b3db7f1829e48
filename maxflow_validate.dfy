/** The terminal check every maximum-flow solver runs before touching its
    residual network. */
module MaximumFlowValidate {
  import opened Wrappers

  /** The solver status values; `BadInput` is the one a failed check reports. */
  datatype Status = NotSolved | Optimal | BadInput

  /** Source and sink are both nodes of the `n`-node graph, and different. */
  predicate ValidTerminals(n: nat, source: nat, sink: nat)
  {
    source < n && sink < n && source != sink
  }

  /** `validate_input`: rejects with `BadInput` exactly the terminals that
      are out of range or equal, and accepts all others. */
  function ValidateInput(n: nat, source: nat, sink: nat): (r: Result<(), Status>)
    ensures r.Err? <==> source >= n || sink >= n || source == sink
    ensures r.Err? ==> r.error == BadInput
    ensures r.Ok? <==> ValidTerminals(n, source, sink)
  {
    if source >= n || sink >= n || source == sink then Err(BadInput) else Ok(())
  }
}
