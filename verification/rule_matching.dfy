/**
  `areRulesValid`: does some contract offer carry rules equivalent to the rules
  the request asks for on one target? Offers are tried in list order and the
  search stops at the first offer the policy comparison accepts.
 */
module RuleMatching {
  import opened Exceptions
  import opened Messages
  import opened Collaborators

  /** The comparison result for one offer: fetch its rules, then compare them to the request's. */
  function Verdict(env: Env, offer: Contract, requested: seq<Rule>): Outcome<bool> {
    match env.rulesOfOffer(offer)
    case Threw(e) => Threw(e)
    case Returned(offered) => env.compareRules(offered, requested)
  }

  /**
    Offer `i` is the first accepted one: the comparison accepts it and rejects,
    without throwing, every offer before it.
   */
  ghost predicate FirstAccepted(env: Env, offers: seq<Contract>, requested: seq<Rule>, i: int) {
    && 0 <= i < |offers|
    && Verdict(env, offers[i], requested) == Returned(true)
    && forall j :: 0 <= j < i ==> Verdict(env, offers[j], requested) == Returned(false)
  }

  /** Some offer is accepted before any comparison throws. */
  ghost predicate SomeOfferAccepted(env: Env, offers: seq<Contract>, requested: seq<Rule>) {
    exists i :: FirstAccepted(env, offers, requested, i)
  }

  /** The rule comparison, fetching and comparing rules offer by offer. */
  function AreRulesValid(env: Env, offers: seq<Contract>, requested: seq<Rule>): (r: Traced<Outcome<bool>>)
    ensures offers == [] ==> r.value == Returned(false) && r.calls == []
    ensures forall c <- r.calls :: c.RulesOfOffer? || c.CompareRules?
    ensures r.value == Returned(true) ==>
              exists i :: 0 <= i < |offers| && Verdict(env, offers[i], requested) == Returned(true)
    ensures r.value == Returned(false) ==>
              forall i :: 0 <= i < |offers| ==> Verdict(env, offers[i], requested) == Returned(false)
    ensures r.value.Threw? ==>
              exists i :: 0 <= i < |offers| && Verdict(env, offers[i], requested) == r.value
    decreases |offers|
  {
    if offers == [] then Traced(Returned(false), [])
    else
      var offer := offers[0];
      match env.rulesOfOffer(offer)
      case Threw(e) => Traced(Threw(e), [RulesOfOffer(offer)])
      case Returned(offered) =>
        var calls := [RulesOfOffer(offer), CompareRules(offered, requested)];
        match env.compareRules(offered, requested)
        case Threw(e) => Traced(Threw(e), calls)
        case Returned(valid) =>
          if valid then Traced(Returned(true), calls)
          else
            var rest := AreRulesValid(env, offers[1..], requested);
            assert forall i :: 1 <= i < |offers| ==> offers[i] == offers[1..][i - 1];
            Traced(rest.value, calls + rest.calls)
  }

  /**
    The comparison accepts exactly when some offer is accepted and every offer
    before it is rejected; it rejects exactly when every offer is rejected.
   */
  lemma {:induction false} AreRulesValidCharacterized(env: Env, offers: seq<Contract>, requested: seq<Rule>)
    ensures AreRulesValid(env, offers, requested).value == Returned(true)
            <==> SomeOfferAccepted(env, offers, requested)
    ensures AreRulesValid(env, offers, requested).value == Returned(false)
            <==> forall i :: 0 <= i < |offers| ==> Verdict(env, offers[i], requested) == Returned(false)
    decreases |offers|
  {
    if offers != [] {
      var tail := offers[1..];
      AreRulesValidCharacterized(env, tail, requested);
      var v := Verdict(env, offers[0], requested);
      if v == Returned(true) {
        assert FirstAccepted(env, offers, requested, 0);
      } else if v == Returned(false) {
        if SomeOfferAccepted(env, tail, requested) {
          var i :| FirstAccepted(env, tail, requested, i);
          assert FirstAccepted(env, offers, requested, i + 1);
        }
        if SomeOfferAccepted(env, offers, requested) {
          var i :| FirstAccepted(env, offers, requested, i);
          assert FirstAccepted(env, tail, requested, i - 1);
        }
      } else {
        assert !FirstAccepted(env, offers, requested, 0);
        assert forall i :: !FirstAccepted(env, offers, requested, i);
      }
    }
  }

  /**
    When no comparison throws, the result is true exactly when some offer,
    anywhere in the list, carries rules equivalent to the request's.
   */
  lemma ValidIffSomeOfferMatches(env: Env, offers: seq<Contract>, requested: seq<Rule>)
    requires forall i :: 0 <= i < |offers| ==> Verdict(env, offers[i], requested).Returned?
    ensures AreRulesValid(env, offers, requested).value.Returned?
    ensures AreRulesValid(env, offers, requested).value.value
            <==> exists i :: 0 <= i < |offers| && Verdict(env, offers[i], requested) == Returned(true)
  {
  }

  /**
    Accepting offer `i` ends the search: exactly the offers up to and including
    `i` have their rules fetched, in list order.
   */
  lemma {:induction false} StopsAtFirstMatch(env: Env, offers: seq<Contract>, requested: seq<Rule>, i: nat)
    requires FirstAccepted(env, offers, requested, i)
    ensures AreRulesValid(env, offers, requested).value == Returned(true)
    ensures Inspected(AreRulesValid(env, offers, requested).calls) == offers[..i + 1]
    decreases i
  {
    var offered := env.rulesOfOffer(offers[0]).value;
    var head := [RulesOfOffer(offers[0]), CompareRules(offered, requested)];
    assert Inspected(head) == [offers[0]] by {
      var second := [CompareRules(offered, requested)];
      assert head[1..] == second && second[1..] == [];
      assert Inspected(second) == Inspected([]) == [];
      assert Inspected(head) == [offers[0]] + Inspected(second);
    }
    if i > 0 {
      var tail := offers[1..];
      assert FirstAccepted(env, tail, requested, i - 1);
      StopsAtFirstMatch(env, tail, requested, i - 1);
      InspectedAppend(head, AreRulesValid(env, tail, requested).calls);
      assert offers[..i + 1] == [offers[0]] + tail[..i];
    }
  }

  /** The result depends on the offers' comparison results only. */
  lemma {:induction false} DependsOnlyOnVerdicts(env1: Env, env2: Env, offers: seq<Contract>, requested: seq<Rule>)
    requires forall i :: 0 <= i < |offers| ==> Verdict(env1, offers[i], requested) == Verdict(env2, offers[i], requested)
    ensures AreRulesValid(env1, offers, requested).value == AreRulesValid(env2, offers, requested).value
    decreases |offers|
  {
    if offers != [] {
      assert Verdict(env1, offers[0], requested) == Verdict(env2, offers[0], requested);
      DependsOnlyOnVerdicts(env1, env2, offers[1..], requested);
    }
  }

  /**
    `areRulesValid` as written: a loop over the offers that breaks at the first
    accepted one. It makes the same calls, in the same order, as the recursive
    definition.
   */
  method AreRulesValidLoop(env: Env, contractOffers: seq<Contract>, requested: seq<Rule>)
    returns (result: Outcome<bool>, calls: seq<Call>)
    ensures result == AreRulesValid(env, contractOffers, requested).value
    ensures calls == AreRulesValid(env, contractOffers, requested).calls
  {
    var valid := false;
    calls := [];
    var i := 0;
    while i < |contractOffers|
      invariant 0 <= i <= |contractOffers|
      invariant !valid
      invariant AreRulesValid(env, contractOffers, requested).value
                == AreRulesValid(env, contractOffers[i..], requested).value
      invariant AreRulesValid(env, contractOffers, requested).calls
                == calls + AreRulesValid(env, contractOffers[i..], requested).calls
    {
      var contract := contractOffers[i];
      assert contractOffers[i..][1..] == contractOffers[i + 1..];
      var ruleList := env.rulesOfOffer(contract);
      calls := calls + [RulesOfOffer(contract)];
      if ruleList.Threw? {
        return Threw(ruleList.exc), calls;
      }
      var compared := env.compareRules(ruleList.value, requested);
      calls := calls + [CompareRules(ruleList.value, requested)];
      if compared.Threw? {
        return Threw(compared.exc), calls;
      }
      valid := compared.value;
      if valid {
        break;
      }
      i := i + 1;
    }
    return Returned(valid), calls;
  }
}
