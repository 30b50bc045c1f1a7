/**
  The services the contract-request handler calls, as uninterpreted functions,
  and the trace of calls a handler run makes on them.
 */
module Collaborators {
  import opened Exceptions
  import opened Messages

  /**
    Each field stands for one collaborator method. Results are fixed per input:
    within one handler run a collaborator is assumed to answer the same question
    the same way.
   */
  datatype Env = Env(
    validate: ContractRequestMessage -> Outcome<()>,                    // messageService.validateIncomingRequestMessage
    payloadAsString: MessagePayload -> Outcome<string>,                 // MessageUtils.getPayloadAsString
    parseRequest: string -> Outcome<ContractRequest>,                   // messageService.getContractRequestFromPayload
    extractRules: ContractRequest -> Outcome<seq<Rule>>,                // PolicyUtils.extractRulesFromContract
    targetRuleMap: seq<Rule> -> Outcome<TargetRuleMap>,                 // PolicyUtils.getTargetRuleMap
    offersByArtifact: Uri -> Outcome<seq<Contract>>,                    // dependencyResolver.getContractOffersByArtifactId
    removeInvalidConsumers: (seq<Contract>, Uri) -> Outcome<seq<Contract>>, // PolicyUtils.removeContractsWithInvalidConsumer
    rulesOfOffer: Contract -> Outcome<seq<Rule>>,                       // dependencyResolver.getRulesByContractOffer
    compareRules: (seq<Rule>, seq<Rule>) -> Outcome<bool>,              // managementService.compareRulesOfOfferToRequest
    buildAgreement: ContractRequest -> Outcome<string>,                 // managementService.buildContractAgreement
    agreementHeader: MessageDesc -> Outcome<Header>,                    // agreementService.buildMessage
    rejectionHeader: MessageDesc -> Outcome<Header>)                    // rejectionService.buildMessage, cast to RejectionMessage

  /** One call on a collaborator, with its arguments. */
  datatype Call =
    | Validate(message: ContractRequestMessage)
    | ReadPayload(payload: MessagePayload)
    | ParseRequest(text: string)
    | ExtractRules(request: ContractRequest)
    | BuildTargetRuleMap(rules: seq<Rule>)
    | LookupOffers(target: Uri)
    | FilterConsumers(offers: seq<Contract>, issuer: Uri)
    | RulesOfOffer(offer: Contract)
    | CompareRules(offered: seq<Rule>, requested: seq<Rule>)
    | BuildAgreement(request: ContractRequest)
    | BuildAgreementHeader(desc: MessageDesc)
    | BuildRejectionHeader(desc: MessageDesc)

  /** A value together with the calls made, in order, to compute it. */
  datatype Traced<+T> = Traced(value: T, calls: seq<Call>)

  /** Both header builders copy the correlation id and recipient of their description. */
  ghost predicate HeadersEchoDescription(env: Env) {
    && (forall d :: env.agreementHeader(d).Returned? ==> Echoes(env.agreementHeader(d).value, d))
    && (forall d :: env.rejectionHeader(d).Returned? ==> Echoes(env.rejectionHeader(d).value, d))
  }

  /** The targets whose offers were looked up, in order. */
  function Lookups(calls: seq<Call>): seq<Uri> {
    if calls == [] then []
    else if calls[0].LookupOffers? then [calls[0].target] + Lookups(calls[1..])
    else Lookups(calls[1..])
  }

  /** The offers whose rules were fetched for comparison, in order. */
  function Inspected(calls: seq<Call>): seq<Contract> {
    if calls == [] then []
    else if calls[0].RulesOfOffer? then [calls[0].offer] + Inspected(calls[1..])
    else Inspected(calls[1..])
  }

  lemma {:induction false} LookupsAppend(a: seq<Call>, b: seq<Call>)
    ensures Lookups(a + b) == Lookups(a) + Lookups(b)
    decreases |a|
  {
    if a != [] {
      assert (a + b)[1..] == a[1..] + b;
      LookupsAppend(a[1..], b);
    } else {
      assert a + b == b;
    }
  }

  lemma {:induction false} InspectedAppend(a: seq<Call>, b: seq<Call>)
    ensures Inspected(a + b) == Inspected(a) + Inspected(b)
    decreases |a|
  {
    if a != [] {
      assert (a + b)[1..] == a[1..] + b;
      InspectedAppend(a[1..], b);
    } else {
      assert a + b == b;
    }
  }

  /** A trace without lookup calls records no looked-up target. */
  lemma {:induction false} NoLookups(calls: seq<Call>)
    requires forall c <- calls :: !c.LookupOffers?
    ensures Lookups(calls) == []
    decreases |calls|
  {
    if calls != [] {
      assert calls[0] in calls;
      assert forall c <- calls[1..] :: c in calls;
      NoLookups(calls[1..]);
    }
  }

  /** Calls without lookups in front of a trace add no looked-up target. */
  lemma LookupsAfterPrefix(prefix: seq<Call>, rest: seq<Call>)
    requires forall c <- prefix :: !c.LookupOffers?
    ensures Lookups(prefix + rest) == Lookups(rest)
  {
    NoLookups(prefix);
    LookupsAppend(prefix, rest);
  }
}
