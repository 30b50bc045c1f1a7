/**
  The loop of `checkContractRequest` over the targets of the request, in the
  iteration order of the target map's key set. The body of one iteration is a
  parameter here (`check`), so the loop's properties hold whatever that body
  does: the loop stops at the first target that does not pass.
 */
module TargetLoop {
  import opened Exceptions
  import opened Messages
  import opened Collaborators

  /** The result of checking one target: it passed, or handling stops with `flow`. */
  datatype TargetOutcome = Passed | Stopped(flow: Outcome<MessageResponse>)

  /** Every iteration looks up the offers of its own target, once, and of no other. */
  ghost predicate LooksUpOwnTarget(check: Uri -> Traced<TargetOutcome>) {
    forall t :: Lookups(check(t).calls) == [t]
  }

  /** No iteration builds a contract agreement. */
  ghost predicate NeverBuildsAgreement(check: Uri -> Traced<TargetOutcome>) {
    forall t, c :: c in check(t).calls ==> !c.BuildAgreement?
  }

  /** The `for` loop over the targets: the first iteration that stops ends the loop. */
  function ForEachTarget(check: Uri -> Traced<TargetOutcome>, targets: seq<Uri>): (r: Traced<TargetOutcome>)
    ensures r.value.Stopped? ==> exists k :: 0 <= k < |targets| && check(targets[k]).value == r.value
    ensures NeverBuildsAgreement(check) ==> forall c <- r.calls :: !c.BuildAgreement?
    decreases |targets|
  {
    if targets == [] then Traced(Passed, [])
    else
      var one := check(targets[0]);
      if one.value.Stopped? then one
      else
        var rest := ForEachTarget(check, targets[1..]);
        assert forall k :: 0 <= k < |targets[1..]| ==> targets[1..][k] == targets[k + 1];
        Traced(rest.value, one.calls + rest.calls)
  }

  /** The loop runs to completion exactly when every target passes. */
  lemma {:induction false} AllTargetsPass(check: Uri -> Traced<TargetOutcome>, targets: seq<Uri>)
    ensures ForEachTarget(check, targets).value.Passed?
            <==> forall k :: 0 <= k < |targets| ==> check(targets[k]).value.Passed?
    decreases |targets|
  {
    if targets != [] {
      AllTargetsPass(check, targets[1..]);
      assert forall k :: 1 <= k < |targets| ==> targets[k] == targets[1..][k - 1];
    }
  }

  /** A loop that runs to completion has looked up every target once, in key-set order. */
  lemma {:induction false} CompletedLoopLooksUpAllTargets(check: Uri -> Traced<TargetOutcome>, targets: seq<Uri>)
    requires LooksUpOwnTarget(check)
    requires ForEachTarget(check, targets).value.Passed?
    ensures Lookups(ForEachTarget(check, targets).calls) == targets
    decreases |targets|
  {
    if targets != [] {
      var one := check(targets[0]);
      var rest := ForEachTarget(check, targets[1..]);
      CompletedLoopLooksUpAllTargets(check, targets[1..]);
      LookupsAppend(one.calls, rest.calls);
      assert targets == [targets[0]] + targets[1..];
    }
  }

  /**
    First failure wins: when every target before position `k` passes and the
    target at `k` does not, the loop ends with that target's outcome.
   */
  lemma {:induction false} FirstFailingTargetWins(check: Uri -> Traced<TargetOutcome>, targets: seq<Uri>, k: nat)
    requires k < |targets|
    requires forall j :: 0 <= j < k ==> check(targets[j]).value.Passed?
    requires !check(targets[k]).value.Passed?
    ensures ForEachTarget(check, targets).value == check(targets[k]).value
    decreases k
  {
    if k > 0 {
      assert check(targets[0]).value.Passed?;
      FirstFailingTargetWins(check, targets[1..], k - 1);
    }
  }

  /**
    Under the same conditions the loop has looked up the targets up to and
    including position `k`, in key-set order, and no later one.
   */
  lemma {:induction false} FailingLoopStopsLookingUp(check: Uri -> Traced<TargetOutcome>, targets: seq<Uri>, k: nat)
    requires LooksUpOwnTarget(check)
    requires k < |targets|
    requires forall j :: 0 <= j < k ==> check(targets[j]).value.Passed?
    requires !check(targets[k]).value.Passed?
    ensures Lookups(ForEachTarget(check, targets).calls) == targets[..k + 1]
    decreases k
  {
    var one := check(targets[0]);
    if k == 0 {
      assert targets[..1] == [targets[0]];
    } else {
      assert one.value.Passed?;
      var rest := ForEachTarget(check, targets[1..]);
      FailingLoopStopsLookingUp(check, targets[1..], k - 1);
      LookupsAppend(one.calls, rest.calls);
      assert targets[..k + 1] == [targets[0]] + targets[1..][..k];
    }
  }

  /**
    The loop as written: iterate over the targets and return at the first one
    that stops. It makes the same calls, in the same order, as the recursive
    definition.
   */
  method ForEachTargetLoop(check: Uri -> Traced<TargetOutcome>, targets: seq<Uri>)
    returns (outcome: TargetOutcome, calls: seq<Call>)
    ensures outcome == ForEachTarget(check, targets).value
    ensures calls == ForEachTarget(check, targets).calls
  {
    calls := [];
    var i := 0;
    while i < |targets|
      invariant 0 <= i <= |targets|
      invariant ForEachTarget(check, targets).value == ForEachTarget(check, targets[i..]).value
      invariant ForEachTarget(check, targets).calls == calls + ForEachTarget(check, targets[i..]).calls
    {
      assert targets[i..][1..] == targets[i + 1..];
      var step := check(targets[i]);
      calls := calls + step.calls;
      if step.value.Stopped? {
        return step.value, calls;
      }
      i := i + 1;
    }
    return Passed, calls;
  }
}
