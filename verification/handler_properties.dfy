/**
  What `handleMessage` promises, end to end: the order in which failures are
  checked, the short-circuit at the first failing target, the fixed rejection,
  the agreement built only when every target matches, and the mapping of
  exceptions to responses.
 */
module HandlerProperties {
  import opened Exceptions
  import opened Messages
  import opened Collaborators
  import opened RuleMatching
  import opened TargetLoop
  import opened ContractRequestHandler

  /**
    The run passes validation, reads `text`, parses it to `request`, extracts a
    non-empty rule list `rules` and groups them into `m` with at least one
    target: it reaches the loop over the targets.
   */
  ghost predicate ReachesTargetLoop(env: Env, message: ContractRequestMessage, payload: MessagePayload,
                                    text: string, request: ContractRequest, rules: seq<Rule>, m: TargetRuleMap) {
    && env.validate(message).Returned?
    && env.payloadAsString(payload) == Returned(text)
    && env.parseRequest(text) == Returned(request)
    && env.extractRules(request) == Returned(rules) && rules != []
    && env.targetRuleMap(rules) == Returned(m) && Targets(m) != []
  }

  /** The loop over the targets as it runs for `message`. */
  ghost function LoopOf(env: Env, message: ContractRequestMessage, request: ContractRequest, m: TargetRuleMap)
    : Traced<TargetOutcome>
  {
    ForEachTarget(TargetCheck(env, request, m, message.id, message.issuerConnector), Targets(m))
  }

  /** The target passes its loop iteration for `message`. */
  ghost predicate Passes(env: Env, message: ContractRequestMessage, request: ContractRequest, m: TargetRuleMap, t: Uri) {
    CheckTarget(env, request, m, t, message.id, message.issuerConnector).value.Passed?
  }

  /**
    Reference definition of a matching target: its offers are found, some
    remain after dropping those for other consumers, and one of those is
    accepted by the rule comparison before any comparison throws.
   */
  ghost predicate TargetMatches(env: Env, m: TargetRuleMap, target: Uri, issuer: Uri) {
    && env.offersByArtifact(target).Returned?
    && env.offersByArtifact(target).value != []
    && var valid := env.removeInvalidConsumers(env.offersByArtifact(target).value, issuer);
    && valid.Returned? && valid.value != []
    && SomeOfferAccepted(env, valid.value, RulesFor(m, target))
  }

  /**
    Reference definition of acceptance: every step succeeds, every target
    matches, and the agreement and its header are built.
   */
  ghost predicate Accepts(env: Env, message: ContractRequestMessage, payload: MessagePayload) {
    && env.validate(message).Returned?
    && env.payloadAsString(payload).Returned?
    && var text := env.payloadAsString(payload).value;
    && env.parseRequest(text).Returned?
    && var request := env.parseRequest(text).value;
    && env.extractRules(request).Returned?
    && var rules := env.extractRules(request).value;
    && rules != []
    && env.targetRuleMap(rules).Returned?
    && var m := env.targetRuleMap(rules).value;
    && Targets(m) != []
    && (forall t <- Targets(m) :: TargetMatches(env, m, t, message.issuerConnector))
    && env.buildAgreement(request).Returned?
    && env.agreementHeader(MessageDesc(message.id, message.issuerConnector)).Returned?
  }

  /** One loop iteration passes exactly when its target matches. */
  lemma TargetPassesIff(env: Env, message: ContractRequestMessage, request: ContractRequest, m: TargetRuleMap, t: Uri)
    ensures Passes(env, message, request, m, t) <==> TargetMatches(env, m, t, message.issuerConnector)
  {
    var found := env.offersByArtifact(t);
    if found.Returned? && found.value != [] {
      var valid := env.removeInvalidConsumers(found.value, message.issuerConnector);
      if valid.Returned? && valid.value != [] {
        AreRulesValidCharacterized(env, valid.value, RulesFor(m, t));
      }
    }
  }

  /**
    Envelope checks come first: a failed validation ends the run before the
    payload is read. An empty message and an unsupported version get their own
    responses, the latter naming the declared model version; any other
    exception escapes the handler.
   */
  lemma EnvelopeCheckedFirst(env: Env, message: ContractRequestMessage, payload: MessagePayload)
    requires env.validate(message).Threw?
    ensures var r := HandleMessage(env, message, payload);
            var e := env.validate(message).exc;
            && r.calls == [Validate(message)]
            && (e.kind == MessageEmpty ==> r.value == Returned(ExceptionResponse(MessageEmptyHandled(e))))
            && (e.kind == VersionNotSupported ==>
                  r.value == Returned(ExceptionResponse(InfoModelNotSupported(e, message.modelVersion))))
            && (!IsEnvelopeFailure(e.kind) ==> r.value == Threw(e))
  {
  }

  /**
    A payload that cannot be read ends the run before parsing; the rejection
    names the message id and issuer connector. Any other exception escapes.
   */
  lemma PayloadFailureRejected(env: Env, message: ContractRequestMessage, payload: MessagePayload)
    requires env.validate(message).Returned?
    requires env.payloadAsString(payload).Threw?
    ensures var r := HandleMessage(env, message, payload);
            var e := env.payloadAsString(payload).exc;
            && r.calls == [Validate(message), ReadPayload(payload)]
            && (e.kind == MalformedPayload ==>
                  r.value == Returned(ExceptionResponse(MalformedPayloadHandled(e, message.id, message.issuerConnector))))
            && (e.kind == MissingPayload ==>
                  r.value == Returned(ExceptionResponse(MissingPayloadHandled(e, message.id, message.issuerConnector))))
            && (!IsPayloadFailure(e.kind) ==> r.value == Threw(e))
  {
  }

  /**
    A payload that does not parse is answered, never escapes: an
    `IllegalArgumentException` gets the illegal-argument response, any other
    exception the processing-failed response. Nothing else is called.
   */
  lemma ParseFailureMapped(env: Env, message: ContractRequestMessage, payload: MessagePayload, text: string)
    requires env.validate(message).Returned?
    requires env.payloadAsString(payload) == Returned(text)
    requires env.parseRequest(text).Threw?
    ensures var r := HandleMessage(env, message, payload);
            var e := env.parseRequest(text).exc;
            && r.calls == [Validate(message), ReadPayload(payload), ParseRequest(text)]
            && (e.kind == IllegalArgument ==>
                  r.value == Returned(ExceptionResponse(IllegalArgumentHandled(e, text, message.issuerConnector, message.id))))
            && (e.kind != IllegalArgument ==>
                  r.value == Returned(ExceptionResponse(MessageProcessingFailed(e, text, message.issuerConnector, message.id))))
  {
  }

  /** A request without rules is rejected before its targets are computed or any offer is looked up. */
  lemma MissingRulesRejected(env: Env, message: ContractRequestMessage, payload: MessagePayload,
                             text: string, request: ContractRequest)
    requires env.validate(message).Returned?
    requires env.payloadAsString(payload) == Returned(text)
    requires env.parseRequest(text) == Returned(request)
    requires env.extractRules(request) == Returned([])
    ensures var r := HandleMessage(env, message, payload);
            && r.value == Returned(ExceptionResponse(MissingRules(request, message.id, message.issuerConnector)))
            && r.calls == [Validate(message), ReadPayload(payload), ParseRequest(text), ExtractRules(request)]
  {
  }

  /** A request whose rules name no target is rejected before any offer is looked up. */
  lemma MissingTargetRejected(env: Env, message: ContractRequestMessage, payload: MessagePayload,
                              text: string, request: ContractRequest, rules: seq<Rule>, m: TargetRuleMap)
    requires env.validate(message).Returned?
    requires env.payloadAsString(payload) == Returned(text)
    requires env.parseRequest(text) == Returned(request)
    requires env.extractRules(request) == Returned(rules) && rules != []
    requires env.targetRuleMap(rules) == Returned(m) && Targets(m) == []
    ensures var r := HandleMessage(env, message, payload);
            && r.value == Returned(ExceptionResponse(MissingTargetInRules(request, message.id, message.issuerConnector)))
            && r.calls == [Validate(message), ReadPayload(payload), ParseRequest(text), ExtractRules(request),
                           BuildTargetRuleMap(rules)]
  {
  }

  /** Once the payload is read, the handler's result is the caught result of `checkContractRequest`'s body. */
  lemma HandleMessageRunsCheck(env: Env, message: ContractRequestMessage, payload: MessagePayload, text: string)
    requires env.validate(message).Returned?
    requires env.payloadAsString(payload) == Returned(text)
    ensures var r := HandleMessage(env, message, payload);
            var body := CheckContract(env, text, message.id, message.issuerConnector);
            && r.value == Returned(CatchContractFailure(body.value, text, message.issuerConnector, message.id))
            && r.calls == [Validate(message), ReadPayload(payload)] + body.calls
  {
  }

  /** Inside `checkContractRequest`, a loop that stops ends the body with the stopping iteration's flow. */
  lemma StoppedLoopAnswers(env: Env, text: string, messageId: Uri, issuer: Uri,
                           request: ContractRequest, rules: seq<Rule>, m: TargetRuleMap)
    requires env.parseRequest(text) == Returned(request)
    requires env.extractRules(request) == Returned(rules) && rules != []
    requires env.targetRuleMap(rules) == Returned(m) && Targets(m) != []
    requires ForEachTarget(TargetCheck(env, request, m, messageId, issuer), Targets(m)).value.Stopped?
    ensures var r := CheckContract(env, text, messageId, issuer);
            var loop := ForEachTarget(TargetCheck(env, request, m, messageId, issuer), Targets(m));
            && r.value == loop.value.flow
            && r.calls == [ParseRequest(text), ExtractRules(request), BuildTargetRuleMap(rules)] + loop.calls
  {
  }

  /** Inside `checkContractRequest`, a loop that completes is followed by the accept step, which decides. */
  lemma CompletedLoopAccepts(env: Env, text: string, messageId: Uri, issuer: Uri,
                             request: ContractRequest, rules: seq<Rule>, m: TargetRuleMap)
    requires env.parseRequest(text) == Returned(request)
    requires env.extractRules(request) == Returned(rules) && rules != []
    requires env.targetRuleMap(rules) == Returned(m) && Targets(m) != []
    requires ForEachTarget(TargetCheck(env, request, m, messageId, issuer), Targets(m)).value.Passed?
    ensures var r := CheckContract(env, text, messageId, issuer);
            var loop := ForEachTarget(TargetCheck(env, request, m, messageId, issuer), Targets(m));
            var accept := AcceptContract(env, request, issuer, messageId);
            && r.value == accept.value
            && r.calls == [ParseRequest(text), ExtractRules(request), BuildTargetRuleMap(rules)] + loop.calls + accept.calls
  {
  }

  /** The calls before the loop neither look up offers nor build an agreement. */
  lemma PrefixQuiet(message: ContractRequestMessage, payload: MessagePayload,
                    text: string, request: ContractRequest, rules: seq<Rule>)
    ensures forall c <- [Validate(message), ReadPayload(payload)]
                        + [ParseRequest(text), ExtractRules(request), BuildTargetRuleMap(rules)] ::
              !c.LookupOffers? && !c.BuildAgreement?
  {
  }

  /**
    A loop that stops decides the response: the stopping iteration's flow,
    caught as in `checkContractRequest`, which is never an agreement; no
    agreement is built and the only lookups are the loop's.
   */
  lemma StoppedLoopDecides(env: Env, message: ContractRequestMessage, payload: MessagePayload,
                           text: string, request: ContractRequest, rules: seq<Rule>, m: TargetRuleMap)
    requires ReachesTargetLoop(env, message, payload, text, request, rules, m)
    ensures var r := HandleMessage(env, message, payload);
            var loop := LoopOf(env, message, request, m);
            loop.value.Stopped? ==>
              && Lookups(r.calls) == Lookups(loop.calls)
              && r.value == Returned(CatchContractFailure(loop.value.flow, text, message.issuerConnector, message.id))
              && !IsAgreement(r.value)
              && forall c <- r.calls :: !c.BuildAgreement?
  {
    var r := HandleMessage(env, message, payload);
    var loop := LoopOf(env, message, request, m);
    if loop.value.Passed? {
      return;
    }
    var head := [Validate(message), ReadPayload(payload)];
    var middle := [ParseRequest(text), ExtractRules(request), BuildTargetRuleMap(rules)];
    var prefix := head + middle;
    assert r.calls == prefix + loop.calls
        && r.value == Returned(CatchContractFailure(loop.value.flow, text, message.issuerConnector, message.id)) by {
      HandleMessageRunsCheck(env, message, payload, text);
      StoppedLoopAnswers(env, text, message.id, message.issuerConnector, request, rules, m);
    }
    PrefixQuiet(message, payload, text, request, rules);
    LoopBuildsNoAgreement(env, request, m, message.id, message.issuerConnector);
    LookupsAfterPrefix(prefix, loop.calls);
    StoppedLoopNeverAgrees(env, request, m, message.id, message.issuerConnector);
  }

  /**
    A loop that completes hands the response to the accept step, caught as in
    `checkContractRequest`; the agreement is built, and the only lookups are
    the loop's.
   */
  lemma CompletedLoopDecides(env: Env, message: ContractRequestMessage, payload: MessagePayload,
                             text: string, request: ContractRequest, rules: seq<Rule>, m: TargetRuleMap)
    requires ReachesTargetLoop(env, message, payload, text, request, rules, m)
    requires LoopOf(env, message, request, m).value.Passed?
    ensures var r := HandleMessage(env, message, payload);
            var loop := LoopOf(env, message, request, m);
            var accept := AcceptContract(env, request, message.issuerConnector, message.id);
            && Lookups(r.calls) == Lookups(loop.calls)
            && r.value == Returned(CatchContractFailure(accept.value, text, message.issuerConnector, message.id))
            && BuildAgreement(request) in r.calls
  {
    var r := HandleMessage(env, message, payload);
    var loop := LoopOf(env, message, request, m);
    var accept := AcceptContract(env, request, message.issuerConnector, message.id);
    var head := [Validate(message), ReadPayload(payload)];
    var prefix := head + [ParseRequest(text), ExtractRules(request), BuildTargetRuleMap(rules)];
    assert r.calls == (prefix + loop.calls) + accept.calls
        && r.value == Returned(CatchContractFailure(accept.value, text, message.issuerConnector, message.id)) by {
      HandleMessageRunsCheck(env, message, payload, text);
      CompletedLoopAccepts(env, text, message.id, message.issuerConnector, request, rules, m);
    }
    assert accept.calls[0] in r.calls;
    PrefixQuiet(message, payload, text, request, rules);
    LookupsAfterPrefix(prefix, loop.calls);
    NoLookups(accept.calls);
    LookupsAppend(prefix + loop.calls, accept.calls);
  }

  /** Once the loop is reached, its outcome decides the response. */
  lemma LoopDecides(env: Env, message: ContractRequestMessage, payload: MessagePayload,
                    text: string, request: ContractRequest, rules: seq<Rule>, m: TargetRuleMap)
    requires ReachesTargetLoop(env, message, payload, text, request, rules, m)
    ensures var r := HandleMessage(env, message, payload);
            var loop := LoopOf(env, message, request, m);
            && Lookups(r.calls) == Lookups(loop.calls)
            && (loop.value.Stopped? ==>
                  && r.value == Returned(CatchContractFailure(loop.value.flow, text, message.issuerConnector, message.id))
                  && !IsAgreement(r.value)
                  && forall c <- r.calls :: !c.BuildAgreement?)
            && (loop.value.Passed? ==>
                  var accept := AcceptContract(env, request, message.issuerConnector, message.id);
                  && r.value == Returned(CatchContractFailure(accept.value, text, message.issuerConnector, message.id))
                  && BuildAgreement(request) in r.calls)
  {
    if LoopOf(env, message, request, m).value.Stopped? {
      StoppedLoopDecides(env, message, payload, text, request, rules, m);
    } else {
      CompletedLoopDecides(env, message, payload, text, request, rules, m);
    }
  }

  /**
    The first failing loop iteration decides: when the iterations before
    position `k` pass and the one at `k` does not, the response is that
    iteration's flow, later targets are never looked up, and no agreement is
    built.
   */
  lemma FirstFailingIterationDecides(env: Env, message: ContractRequestMessage, payload: MessagePayload,
                                     text: string, request: ContractRequest, rules: seq<Rule>, m: TargetRuleMap, k: nat)
    requires ReachesTargetLoop(env, message, payload, text, request, rules, m)
    requires k < |Targets(m)|
    requires forall j :: 0 <= j < k ==> Passes(env, message, request, m, Targets(m)[j])
    requires !Passes(env, message, request, m, Targets(m)[k])
    ensures var r := HandleMessage(env, message, payload);
            var stop := CheckTarget(env, request, m, Targets(m)[k], message.id, message.issuerConnector).value;
            && r.value == Returned(CatchContractFailure(stop.flow, text, message.issuerConnector, message.id))
            && Lookups(r.calls) == Targets(m)[..k + 1]
            && forall c <- r.calls :: !c.BuildAgreement?
  {
    var check := TargetCheck(env, request, m, message.id, message.issuerConnector);
    TargetCheckWellBehaved(env, request, m, message.id, message.issuerConnector);
    FirstFailingTargetWins(check, Targets(m), k);
    FailingLoopStopsLookingUp(check, Targets(m), k);
    LoopDecides(env, message, payload, text, request, rules, m);
  }

  /**
    First failure wins: when the targets before position `k` match and the
    target at `k` does not, the response is the one that target's iteration
    produced, the offers of later targets are never looked up, and no
    agreement is built.
   */
  lemma FirstFailingTargetDecides(env: Env, message: ContractRequestMessage, payload: MessagePayload,
                                  text: string, request: ContractRequest, rules: seq<Rule>, m: TargetRuleMap, k: nat)
    requires ReachesTargetLoop(env, message, payload, text, request, rules, m)
    requires k < |Targets(m)|
    requires forall j :: 0 <= j < k ==> TargetMatches(env, m, Targets(m)[j], message.issuerConnector)
    requires !TargetMatches(env, m, Targets(m)[k], message.issuerConnector)
    ensures var r := HandleMessage(env, message, payload);
            var stop := CheckTarget(env, request, m, Targets(m)[k], message.id, message.issuerConnector).value;
            && stop.Stopped?
            && r.value == Returned(CatchContractFailure(stop.flow, text, message.issuerConnector, message.id))
            && Lookups(r.calls) == Targets(m)[..k + 1]
            && forall c <- r.calls :: !c.BuildAgreement?
  {
    forall j | 0 <= j < k ensures Passes(env, message, request, m, Targets(m)[j]) {
      TargetPassesIff(env, message, request, m, Targets(m)[j]);
    }
    TargetPassesIff(env, message, request, m, Targets(m)[k]);
    FirstFailingIterationDecides(env, message, payload, text, request, rules, m, k);
  }

  /**
    A failed offer lookup for the first failing target names that target:
    an invalid resource and a missing resource each get their own response.
   */
  lemma LookupFailureNamesTarget(env: Env, message: ContractRequestMessage, payload: MessagePayload,
                                 text: string, request: ContractRequest, rules: seq<Rule>, m: TargetRuleMap, k: nat)
    requires ReachesTargetLoop(env, message, payload, text, request, rules, m)
    requires k < |Targets(m)|
    requires forall j :: 0 <= j < k ==> TargetMatches(env, m, Targets(m)[j], message.issuerConnector)
    requires env.offersByArtifact(Targets(m)[k]).Threw?
    ensures var r := HandleMessage(env, message, payload);
            var e := env.offersByArtifact(Targets(m)[k]).exc;
            && (e.kind == InvalidResource ==>
                  r.value == Returned(ExceptionResponse(
                    InvalidResourceHandled(e, Targets(m)[k], message.issuerConnector, message.id))))
            && (e.kind == ResourceNotFound ==>
                  r.value == Returned(ExceptionResponse(
                    ResourceNotFoundHandled(e, Targets(m)[k], message.issuerConnector, message.id))))
            && Lookups(r.calls) == Targets(m)[..k + 1]
  {
    FirstFailingTargetDecides(env, message, payload, text, request, rules, m, k);
  }

  /**
    No offer for the first failing target, or none left once offers for other
    consumers are dropped: the negotiation ends with the missing-offers
    response.
   */
  lemma MissingOffersRejected(env: Env, message: ContractRequestMessage, payload: MessagePayload,
                              text: string, request: ContractRequest, rules: seq<Rule>, m: TargetRuleMap, k: nat)
    requires ReachesTargetLoop(env, message, payload, text, request, rules, m)
    requires k < |Targets(m)|
    requires forall j :: 0 <= j < k ==> TargetMatches(env, m, Targets(m)[j], message.issuerConnector)
    requires env.offersByArtifact(Targets(m)[k]).Returned?
    requires var offers := env.offersByArtifact(Targets(m)[k]).value;
             offers == [] || env.removeInvalidConsumers(offers, message.issuerConnector) == Returned([])
    ensures var r := HandleMessage(env, message, payload);
            && r.value == Returned(ExceptionResponse(MissingContractOffers(request, message.id, message.issuerConnector)))
            && Lookups(r.calls) == Targets(m)[..k + 1]
  {
    FirstFailingTargetDecides(env, message, payload, text, request, rules, m, k);
  }

  /**
    When the first failing target has offers for this consumer but the rule
    comparison rejects them all, the response is a rejection with the fixed
    payload, addressed back to the issuer and correlated to the request
    message; no agreement is built. A rejection header that cannot be built
    is mapped like any builder failure.
   */
  lemma NoMatchingOfferRejects(env: Env, message: ContractRequestMessage, payload: MessagePayload,
                               text: string, request: ContractRequest, rules: seq<Rule>, m: TargetRuleMap, k: nat)
    requires ReachesTargetLoop(env, message, payload, text, request, rules, m)
    requires k < |Targets(m)|
    requires forall j :: 0 <= j < k ==> TargetMatches(env, m, Targets(m)[j], message.issuerConnector)
    requires env.offersByArtifact(Targets(m)[k]).Returned? && env.offersByArtifact(Targets(m)[k]).value != []
    requires var valid := env.removeInvalidConsumers(env.offersByArtifact(Targets(m)[k]).value, message.issuerConnector);
             && valid.Returned? && valid.value != []
             && forall i :: 0 <= i < |valid.value| ==>
                  Verdict(env, valid.value[i], RulesFor(m, Targets(m)[k])) == Returned(false)
    ensures var r := HandleMessage(env, message, payload);
            var header := env.rejectionHeader(MessageDesc(message.id, message.issuerConnector));
            && (forall c <- r.calls :: !c.BuildAgreement?)
            && (header.Returned? ==> r.value == Returned(ErrorResponse(header.value, ContractRejected)))
            && (header.Returned? && HeadersEchoDescription(env) ==>
                  header.value.correlationMessage == message.id && header.value.recipient == message.issuerConnector)
            && (header.Threw? && IsResponseBuilderFailure(header.exc.kind) ==>
                  r.value == Returned(ExceptionResponse(ResponseMessageBuilderFailed(header.exc))))
  {
    var valid := env.removeInvalidConsumers(env.offersByArtifact(Targets(m)[k]).value, message.issuerConnector).value;
    AreRulesValidCharacterized(env, valid, RulesFor(m, Targets(m)[k]));
    FirstFailingTargetDecides(env, message, payload, text, request, rules, m, k);
  }

  /** The loop over the targets runs to completion exactly when every target matches. */
  lemma LoopCompletesIffEveryTargetMatches(env: Env, message: ContractRequestMessage, request: ContractRequest, m: TargetRuleMap)
    ensures LoopOf(env, message, request, m).value.Passed?
            <==> forall t <- Targets(m) :: TargetMatches(env, m, t, message.issuerConnector)
  {
    var check := TargetCheck(env, request, m, message.id, message.issuerConnector);
    var loop := LoopOf(env, message, request, m);
    AllTargetsPass(check, Targets(m));
    forall t <- Targets(m) {
      TargetPassesIff(env, message, request, m, t);
    }
    if loop.value.Stopped? {
      var k :| 0 <= k < |Targets(m)| && check(Targets(m)[k]).value == loop.value;
      assert !TargetMatches(env, m, Targets(m)[k], message.issuerConnector);
    } else {
      forall t <- Targets(m) ensures TargetMatches(env, m, t, message.issuerConnector) {
        var k :| 0 <= k < |Targets(m)| && Targets(m)[k] == t;
        assert check(Targets(m)[k]).value.Passed?;
      }
    }
  }

  /**
    Once the loop is reached, an agreement is the response exactly when every
    target matches and the agreement and its header are built.
   */
  lemma AgreementAtLoopIff(env: Env, message: ContractRequestMessage, payload: MessagePayload,
                           text: string, request: ContractRequest, rules: seq<Rule>, m: TargetRuleMap)
    requires ReachesTargetLoop(env, message, payload, text, request, rules, m)
    ensures IsAgreement(HandleMessage(env, message, payload).value)
            <==> && (forall t <- Targets(m) :: TargetMatches(env, m, t, message.issuerConnector))
                 && env.buildAgreement(request).Returned?
                 && env.agreementHeader(MessageDesc(message.id, message.issuerConnector)).Returned?
  {
    LoopCompletesIffEveryTargetMatches(env, message, request, m);
    LoopDecides(env, message, payload, text, request, rules, m);
  }


  /**
    An agreement is the response exactly when every step succeeds and every
    target has an accepted offer for this consumer (for all targets, some
    offer matches).
   */
  lemma AgreementIffEveryTargetMatches(env: Env, message: ContractRequestMessage, payload: MessagePayload)
    ensures IsAgreement(HandleMessage(env, message, payload).value) <==> Accepts(env, message, payload)
  {
    if env.validate(message).Threw? {
      EnvelopeCheckedFirst(env, message, payload);
    } else if env.payloadAsString(payload).Threw? {
      PayloadFailureRejected(env, message, payload);
    } else {
      var text := env.payloadAsString(payload).value;
      HandleMessageRunsCheck(env, message, payload, text);
      if env.parseRequest(text).Returned? {
        var request := env.parseRequest(text).value;
        if env.extractRules(request).Returned? && env.extractRules(request).value != [] {
          var rules := env.extractRules(request).value;
          if env.targetRuleMap(rules).Returned? && Targets(env.targetRuleMap(rules).value) != [] {
            AgreementAtLoopIff(env, message, payload, text, request, rules, env.targetRuleMap(rules).value);
          }
        }
      }
    }
  }

  /**
    An agreement is built from the original request, not from a matched offer;
    it comes only after every target was looked up, in key-set order, and its
    header is correlated to the request message and addressed to the issuer.
   */
  lemma AgreementBuiltFromRequest(env: Env, message: ContractRequestMessage, payload: MessagePayload,
                                  text: string, request: ContractRequest, rules: seq<Rule>, m: TargetRuleMap)
    requires ReachesTargetLoop(env, message, payload, text, request, rules, m)
    requires IsAgreement(HandleMessage(env, message, payload).value)
    ensures var r := HandleMessage(env, message, payload);
            var response := r.value.value;
            && env.buildAgreement(request) == Returned(response.payload)
            && env.agreementHeader(MessageDesc(message.id, message.issuerConnector)) == Returned(response.header)
            && BuildAgreement(request) in r.calls
            && (exists i :: 0 <= i < |r.calls| && r.calls[i] == BuildAgreement(request)
                            && Lookups(r.calls[..i]) == Targets(m))
            && Lookups(r.calls) == Targets(m)
            && (forall t <- Targets(m) :: TargetMatches(env, m, t, message.issuerConnector))
            && (HeadersEchoDescription(env) ==>
                  response.header.correlationMessage == message.id && response.header.recipient == message.issuerConnector)
  {
    var check := TargetCheck(env, request, m, message.id, message.issuerConnector);
    LoopDecides(env, message, payload, text, request, rules, m);
    AgreementIffEveryTargetMatches(env, message, payload);
    TargetCheckWellBehaved(env, request, m, message.id, message.issuerConnector);
    CompletedLoopLooksUpAllTargets(check, Targets(m));
    var r := HandleMessage(env, message, payload);
    var loop := LoopOf(env, message, request, m);
    var accept := AcceptContract(env, request, message.issuerConnector, message.id);
    var prefix := [Validate(message), ReadPayload(payload)]
                  + [ParseRequest(text), ExtractRules(request), BuildTargetRuleMap(rules)];
    assert r.calls == (prefix + loop.calls) + accept.calls by {
      HandleMessageRunsCheck(env, message, payload, text);
      CompletedLoopAccepts(env, text, message.id, message.issuerConnector, request, rules, m);
    }
    var i := |prefix + loop.calls|;
    assert r.calls[..i] == prefix + loop.calls;
    assert r.calls[i] == accept.calls[0] == BuildAgreement(request);
    PrefixQuiet(message, payload, text, request, rules);
    LookupsAfterPrefix(prefix, loop.calls);
  }

  /**
    For a target map with distinct keys, as Java's map guarantees, an accepted
    request looked up every target exactly once, and every entry's own rule
    list was matched by some offer for the issuer.
   */
  lemma AcceptedTargetsLookedUpOnce(env: Env, message: ContractRequestMessage, payload: MessagePayload,
                                    text: string, request: ContractRequest, rules: seq<Rule>, m: TargetRuleMap)
    requires ReachesTargetLoop(env, message, payload, text, request, rules, m)
    requires DistinctTargets(m)
    requires IsAgreement(HandleMessage(env, message, payload).value)
    ensures var looked := Lookups(HandleMessage(env, message, payload).calls);
            && |looked| == |m.entries|
            && (forall e <- m.entries :: e.target in looked)
            && (forall i, j :: 0 <= i < j < |looked| ==> looked[i] != looked[j])
            && forall e <- m.entries :: RulesFor(m, e.target) == e.rules
                                       && TargetMatches(env, m, e.target, message.issuerConnector)
  {
    AgreementBuiltFromRequest(env, message, payload, text, request, rules, m);
    TargetsDistinct(m);
    forall e <- m.entries ensures e.target in Targets(m) && RulesFor(m, e.target) == e.rules {
      var i :| 0 <= i < |m.entries| && m.entries[i] == e;
      assert Targets(m)[i] == e.target;
      RulesOfUnique(m.entries, e.target, e.rules);
    }
  }

  /**
    Exceptions while accepting, after every target passed: builder failures
    become the response-builder-failed response; otherwise
    `IllegalArgumentException` is caught before the generic handler.
   */
  lemma AcceptFailureMapped(env: Env, message: ContractRequestMessage, payload: MessagePayload,
                            text: string, request: ContractRequest, rules: seq<Rule>, m: TargetRuleMap, e: Exc)
    requires ReachesTargetLoop(env, message, payload, text, request, rules, m)
    requires forall t <- Targets(m) :: TargetMatches(env, m, t, message.issuerConnector)
    requires || env.buildAgreement(request) == Threw(e)
             || (env.buildAgreement(request).Returned?
                 && env.agreementHeader(MessageDesc(message.id, message.issuerConnector)) == Threw(e))
    ensures var r := HandleMessage(env, message, payload);
            && (IsResponseBuilderFailure(e.kind) ==>
                  r.value == Returned(ExceptionResponse(ResponseMessageBuilderFailed(e))))
            && (e.kind == IllegalArgument ==>
                  r.value == Returned(ExceptionResponse(IllegalArgumentHandled(e, text, message.issuerConnector, message.id))))
            && (!IsResponseBuilderFailure(e.kind) && e.kind != IllegalArgument ==>
                  r.value == Returned(ExceptionResponse(MessageProcessingFailed(e, text, message.issuerConnector, message.id))))
  {
    var check := TargetCheck(env, request, m, message.id, message.issuerConnector);
    forall k | 0 <= k < |Targets(m)| ensures check(Targets(m)[k]).value.Passed? {
      assert Targets(m)[k] in Targets(m);
      TargetPassesIff(env, message, request, m, Targets(m)[k]);
    }
    AllTargetsPass(check, Targets(m));
    LoopDecides(env, message, payload, text, request, rules, m);
  }
}
