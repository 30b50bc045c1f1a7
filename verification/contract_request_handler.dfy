/**
  The contract-request handler: validates the incoming message, reads and
  parses the contract request, and checks every target of the request against
  the provider's contract offers before accepting or rejecting it. Every step
  that fails short-circuits to exactly one response.
 */
module ContractRequestHandler {
  import opened Exceptions
  import opened Messages
  import opened Collaborators
  import opened RuleMatching
  import opened TargetLoop

  /** An outcome that is an agreement response. */
  predicate IsAgreement(o: Outcome<MessageResponse>) {
    o.Returned? && o.value.BodyResponse?
  }

  /**
    The catch clause shared by the accept and reject paths: builder failures
    become the response-builder-failed response; anything else propagates.
   */
  function CatchBuilderFailure(e: Exc): (o: Outcome<MessageResponse>)
    ensures o.Threw? <==> !IsResponseBuilderFailure(e.kind)
    ensures o.Threw? ==> o.exc == e
    ensures o.Returned? ==> o.value == ExceptionResponse(ResponseMessageBuilderFailed(e))
  {
    if IsResponseBuilderFailure(e.kind) then Returned(ExceptionResponse(ResponseMessageBuilderFailed(e)))
    else Threw(e)
  }

  /** `rejectContract`: a rejection correlated to the request, with the fixed payload. */
  function RejectContract(env: Env, issuerConnector: Uri, correlationMessage: Uri): (r: Traced<Outcome<MessageResponse>>)
    ensures r.calls == [BuildRejectionHeader(MessageDesc(correlationMessage, issuerConnector))]
    ensures !IsAgreement(r.value)
    ensures r.value.Returned? && r.value.value.ErrorResponse? ==>
              r.value.value.payload == ContractRejected
              && env.rejectionHeader(MessageDesc(correlationMessage, issuerConnector)) == Returned(r.value.value.header)
    ensures r.value.Threw? ==> !IsResponseBuilderFailure(r.value.exc.kind)
    ensures HeadersEchoDescription(env) && r.value.Returned? ==>
              Correlated(r.value.value, correlationMessage, issuerConnector)
  {
    var desc := MessageDesc(correlationMessage, issuerConnector);
    var calls := [BuildRejectionHeader(desc)];
    match env.rejectionHeader(desc)
    case Threw(e) => Traced(CatchBuilderFailure(e), calls)
    case Returned(header) => Traced(Returned(ErrorResponse(header, ContractRejected)), calls)
  }

  /** `acceptContract`: an agreement built from the request, correlated to the request message. */
  function AcceptContract(env: Env, request: ContractRequest, issuerConnector: Uri, correlationMessage: Uri)
    : (r: Traced<Outcome<MessageResponse>>)
    ensures r.calls != [] && r.calls[0] == BuildAgreement(request)
    ensures forall c <- r.calls :: c.BuildAgreement? || c.BuildAgreementHeader?
    ensures !(r.value.Returned? && r.value.value.ErrorResponse?)
    ensures IsAgreement(r.value) <==>
              env.buildAgreement(request).Returned?
              && env.agreementHeader(MessageDesc(correlationMessage, issuerConnector)).Returned?
    ensures IsAgreement(r.value) ==>
              env.buildAgreement(request) == Returned(r.value.value.payload)
              && env.agreementHeader(MessageDesc(correlationMessage, issuerConnector)) == Returned(r.value.value.header)
    ensures r.value.Threw? ==> !IsResponseBuilderFailure(r.value.exc.kind)
    ensures HeadersEchoDescription(env) && r.value.Returned? ==>
              Correlated(r.value.value, correlationMessage, issuerConnector)
  {
    match env.buildAgreement(request)
    case Threw(e) => Traced(CatchBuilderFailure(e), [BuildAgreement(request)])
    case Returned(payload) =>
      var desc := MessageDesc(correlationMessage, issuerConnector);
      var calls := [BuildAgreement(request), BuildAgreementHeader(desc)];
      match env.agreementHeader(desc)
      case Threw(e) => Traced(CatchBuilderFailure(e), calls)
      case Returned(header) => Traced(Returned(BodyResponse(header, payload)), calls)
  }

  /**
    One iteration of the loop over the targets: look up the target's offers,
    drop those for other consumers, and compare rules; a mismatch rejects.
   */
  function CheckTarget(env: Env, request: ContractRequest, m: TargetRuleMap, target: Uri,
                       messageId: Uri, issuerConnector: Uri): (r: Traced<TargetOutcome>)
    ensures r.calls != [] && r.calls[0] == LookupOffers(target)
    ensures forall j :: 1 <= j < |r.calls| ==> !r.calls[j].LookupOffers?
    ensures forall c <- r.calls :: !c.BuildAgreement?
    ensures r.value.Stopped? ==> !IsAgreement(r.value.flow)
    ensures HeadersEchoDescription(env) && r.value.Stopped? && r.value.flow.Returned? ==>
              Correlated(r.value.flow.value, messageId, issuerConnector)
  {
    var lookup := [LookupOffers(target)];
    match env.offersByArtifact(target)
    case Threw(e) =>
      if e.kind == InvalidResource then
        Traced(Stopped(Returned(ExceptionResponse(InvalidResourceHandled(e, target, issuerConnector, messageId)))), lookup)
      else if e.kind == ResourceNotFound then
        Traced(Stopped(Returned(ExceptionResponse(ResourceNotFoundHandled(e, target, issuerConnector, messageId)))), lookup)
      else
        Traced(Stopped(Threw(e)), lookup)
    case Returned(contracts) =>
      if contracts == [] then
        Traced(Stopped(Returned(ExceptionResponse(MissingContractOffers(request, messageId, issuerConnector)))), lookup)
      else
        var filtered := lookup + [FilterConsumers(contracts, issuerConnector)];
        match env.removeInvalidConsumers(contracts, issuerConnector)
        case Threw(e) => Traced(Stopped(Threw(e)), filtered)
        case Returned(validContracts) =>
          if validContracts == [] then
            Traced(Stopped(Returned(ExceptionResponse(MissingContractOffers(request, messageId, issuerConnector)))), filtered)
          else
            var matching := AreRulesValid(env, validContracts, RulesFor(m, target));
            var compared := filtered + matching.calls;
            assert forall j :: 2 <= j < |compared| ==> compared[j] in matching.calls;
            match matching.value
            case Threw(e) => Traced(Stopped(Threw(e)), compared)
            case Returned(valid) =>
              if valid then Traced(Passed, compared)
              else
                var reject := RejectContract(env, issuerConnector, messageId);
                Traced(Stopped(reject.value), compared + reject.calls)
  }

  /** The trace of one iteration looks up exactly its own target. */
  lemma CheckTargetLooksUpItsTarget(env: Env, request: ContractRequest, m: TargetRuleMap, target: Uri,
                                    messageId: Uri, issuerConnector: Uri)
    ensures Lookups(CheckTarget(env, request, m, target, messageId, issuerConnector).calls) == [target]
  {
    var calls := CheckTarget(env, request, m, target, messageId, issuerConnector).calls;
    NoLookups(calls[1..]);
  }

  /** The loop body of `checkContractRequest`, for a fixed request, target map and correlation. */
  function TargetCheck(env: Env, request: ContractRequest, m: TargetRuleMap, messageId: Uri, issuerConnector: Uri)
    : Uri -> Traced<TargetOutcome>
  {
    target => CheckTarget(env, request, m, target, messageId, issuerConnector)
  }

  /** The loop body looks up only its own target and never builds an agreement. */
  lemma TargetCheckWellBehaved(env: Env, request: ContractRequest, m: TargetRuleMap, messageId: Uri, issuerConnector: Uri)
    ensures LooksUpOwnTarget(TargetCheck(env, request, m, messageId, issuerConnector))
    ensures NeverBuildsAgreement(TargetCheck(env, request, m, messageId, issuerConnector))
  {
    forall t {
      CheckTargetLooksUpItsTarget(env, request, m, t, messageId, issuerConnector);
    }
  }

  /** The loop over the targets builds no agreement. */
  lemma LoopBuildsNoAgreement(env: Env, request: ContractRequest, m: TargetRuleMap, messageId: Uri, issuerConnector: Uri)
    ensures forall c <- ForEachTarget(TargetCheck(env, request, m, messageId, issuerConnector), Targets(m)).calls ::
              !c.BuildAgreement?
  {
    TargetCheckWellBehaved(env, request, m, messageId, issuerConnector);
  }

  /** A loop over the targets that stops never stops with an agreement. */
  lemma StoppedLoopNeverAgrees(env: Env, request: ContractRequest, m: TargetRuleMap, messageId: Uri, issuerConnector: Uri)
    requires ForEachTarget(TargetCheck(env, request, m, messageId, issuerConnector), Targets(m)).value.Stopped?
    ensures !IsAgreement(ForEachTarget(TargetCheck(env, request, m, messageId, issuerConnector), Targets(m)).value.flow)
  {
    var check := TargetCheck(env, request, m, messageId, issuerConnector);
    var k :| 0 <= k < |Targets(m)| && check(Targets(m)[k]).value == ForEachTarget(check, Targets(m)).value;
    assert check(Targets(m)[k]) == CheckTarget(env, request, m, Targets(m)[k], messageId, issuerConnector);
  }

  /**
    The body of the `try` in `checkContractRequest`: parse, extract rules and
    targets, check every target, accept. `Threw` is an exception reaching the
    `catch` clauses.
   */
  function CheckContract(env: Env, payload: string, messageId: Uri, issuerConnector: Uri)
    : (r: Traced<Outcome<MessageResponse>>)
    ensures r.calls != [] && r.calls[0] == ParseRequest(payload)
    ensures HeadersEchoDescription(env) && r.value.Returned? ==> Correlated(r.value.value, messageId, issuerConnector)
  {
    var parse := [ParseRequest(payload)];
    match env.parseRequest(payload)
    case Threw(e) => Traced(Threw(e), parse)
    case Returned(request) =>
      var extract := [ParseRequest(payload), ExtractRules(request)];
      match env.extractRules(request)
      case Threw(e) => Traced(Threw(e), extract)
      case Returned(rules) =>
        if rules == [] then
          Traced(Returned(ExceptionResponse(MissingRules(request, messageId, issuerConnector))), extract)
        else
          var group := [ParseRequest(payload), ExtractRules(request), BuildTargetRuleMap(rules)];
          match env.targetRuleMap(rules)
          case Threw(e) => Traced(Threw(e), group)
          case Returned(m) =>
            if Targets(m) == [] then
              Traced(Returned(ExceptionResponse(MissingTargetInRules(request, messageId, issuerConnector))), group)
            else
              var loop := ForEachTarget(TargetCheck(env, request, m, messageId, issuerConnector), Targets(m));
              var checked := group + loop.calls;
              match loop.value
              case Stopped(flow) =>
                assert HeadersEchoDescription(env) && flow.Returned? ==> Correlated(flow.value, messageId, issuerConnector);
                Traced(flow, checked)
              case Passed =>
                var accept := AcceptContract(env, request, issuerConnector, messageId);
                Traced(accept.value, checked + accept.calls)
  }

  /**
    The two `catch` clauses of `checkContractRequest`: `IllegalArgumentException`
    is caught before the generic `Exception`; a returned response passes through.
   */
  function CatchContractFailure(o: Outcome<MessageResponse>, payload: string, issuerConnector: Uri, messageId: Uri)
    : (r: MessageResponse)
    ensures o.Returned? ==> r == o.value
    ensures r.BodyResponse? <==> IsAgreement(o)
    ensures o.Threw? ==> r.ExceptionResponse? && Correlated(r, messageId, issuerConnector)
    ensures o.Threw? && o.exc.kind == IllegalArgument ==>
              r.handled == IllegalArgumentHandled(o.exc, payload, issuerConnector, messageId)
    ensures o.Threw? && o.exc.kind != IllegalArgument ==>
              r.handled == MessageProcessingFailed(o.exc, payload, issuerConnector, messageId)
  {
    match o
    case Returned(response) => response
    case Threw(e) =>
      if e.kind == IllegalArgument then ExceptionResponse(IllegalArgumentHandled(e, payload, issuerConnector, messageId))
      else ExceptionResponse(MessageProcessingFailed(e, payload, issuerConnector, messageId))
  }

  /** `checkContractRequest`: the contract check; no exception escapes it. */
  function CheckContractRequest(env: Env, payload: string, messageId: Uri, issuerConnector: Uri)
    : (r: Traced<MessageResponse>)
    ensures r.calls != [] && r.calls[0] == ParseRequest(payload)
    ensures HeadersEchoDescription(env) ==> Correlated(r.value, messageId, issuerConnector)
  {
    var body := CheckContract(env, payload, messageId, issuerConnector);
    Traced(CatchContractFailure(body.value, payload, issuerConnector, messageId), body.calls)
  }

  /** The kinds `handleMessage` catches around message validation. */
  predicate IsEnvelopeFailure(k: ExcKind) {
    k.MessageEmpty? || k.VersionNotSupported?
  }

  /** The kinds `handleMessage` catches around reading the payload. */
  predicate IsPayloadFailure(k: ExcKind) {
    k.MalformedPayload? || k.MissingPayload?
  }

  /**
    `handleMessage`: validate the envelope, read the payload, check the
    contract. Exceptions it does not catch escape as `Threw`.
   */
  function HandleMessage(env: Env, message: ContractRequestMessage, payload: MessagePayload)
    : (r: Traced<Outcome<MessageResponse>>)
    ensures r.calls != [] && r.calls[0] == Validate(message)
    ensures r.value.Threw? && |r.calls| == 1 ==>
              env.validate(message) == Threw(r.value.exc) && !IsEnvelopeFailure(r.value.exc.kind)
    ensures r.value.Threw? && |r.calls| != 1 ==>
              |r.calls| == 2 && env.payloadAsString(payload) == Threw(r.value.exc) && !IsPayloadFailure(r.value.exc.kind)
    ensures HeadersEchoDescription(env) && env.validate(message).Returned? && r.value.Returned? ==>
              Correlated(r.value.value, message.id, message.issuerConnector)
  {
    var validate := [Validate(message)];
    match env.validate(message)
    case Threw(e) =>
      if e.kind == MessageEmpty then
        Traced(Returned(ExceptionResponse(MessageEmptyHandled(e))), validate)
      else if e.kind == VersionNotSupported then
        Traced(Returned(ExceptionResponse(InfoModelNotSupported(e, message.modelVersion))), validate)
      else
        Traced(Threw(e), validate)
    case Returned(_) =>
      var issuerConnector := message.issuerConnector;
      var messageId := message.id;
      var read := [Validate(message), ReadPayload(payload)];
      match env.payloadAsString(payload)
      case Threw(e) =>
        if e.kind == MalformedPayload then
          Traced(Returned(ExceptionResponse(MalformedPayloadHandled(e, messageId, issuerConnector))), read)
        else if e.kind == MissingPayload then
          Traced(Returned(ExceptionResponse(MissingPayloadHandled(e, messageId, issuerConnector))), read)
        else
          Traced(Threw(e), read)
      case Returned(text) =>
        var check := CheckContractRequest(env, text, messageId, issuerConnector);
        Traced(Returned(check.value), read + check.calls)
  }
}
