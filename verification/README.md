# Contract-request handler of the Dataspace Connector, in Dafny

This project models how the connector's `ContractRequestHandler` decides an
incoming IDS contract request message. The handler does the following, in order:

1. It validates the message envelope.
2. It reads the payload as text.
3. It parses the contract request.
4. It extracts the request's rules and groups them by target artifact.
5. For every target, in the key-set order of the target map, it looks up the provider's contract offers. It drops the offers meant for other consumers. It then compares the remaining offers' rules with the requested rules; the first matching offer settles the target.
6. It answers with one of three responses:
   - a contract agreement, when every target matches;
   - the fixed rejection "Contract rejected.", at the first target no offer matches;
   - one of the exception-service responses, each stopping handling at the first failing step.

Modules, following the handler's structure:

- `Exceptions`: Java's "returns or throws" as `Outcome<T>`. It also has the exception classes the `catch` clauses tell apart.
- `Messages`: the request message, the payload, the contract request, the target rule map and the response.
  - The exception service is a free term. `ExceptionResponse(Handled)` records which handler method was called and with which arguments.
  - `Correlated` says that a response refers back to the request message and its issuer.
- `Collaborators`: every service the handler calls, as a function-typed field of `Env`. The trace of calls a run makes is recorded as `Traced(value, calls)`. This makes "the payload is never read", "later targets are never looked up" and "no agreement is built" statable.
- `RuleMatching`: `areRulesValid`, both as a recursive function and as the source's loop with `break`.
- `TargetLoop`: the `for` loop over the targets. It is generic in its loop body, and the first iteration that stops ends it.
- `ContractRequestHandler`: `handleMessage`, `checkContractRequest`, one loop iteration, `acceptContract` and `rejectContract`.
- `HandlerProperties`: end-to-end properties of `handleMessage`: the order of the checks, the response for each failure, and the first failing target deciding the response. The acceptance and first-failure lemmas are stated against independent reference definitions:
  - `TargetMatches` (some offer for this consumer is accepted);
  - `Accepts` (every step succeeds and every target matches).

## Behaviour worth noting

- `handleMessage` catches only two validation failures, "message empty" and "version not supported". Any other exception from validation escapes the handler. Likewise only "malformed" and "missing" payload failures are caught; any other exception from payload reading escapes (`ContractRequestHandler.java:101-124`).
- A payload that does not parse gets the illegal-argument response when the parser throws `IllegalArgumentException`, and the processing-failed response for any other exception (`ContractRequestHandler.java:193-200`).
- The response-builder-failed response carries no correlation data, because the exception service is given only the exception (`ContractRequestHandler.java:256`, `280`). The two envelope rejections carry none either (`ContractRequestHandler.java:104-107`).
- A header-builder failure of one of the four builder classes during accept or reject becomes a response to the requester (`ContractRequestHandler.java:254-257`, `278-281`). Any other exception there reaches the catch clauses of `checkContractRequest`: an `IllegalArgumentException` the one at `ContractRequestHandler.java:193-195`, and anything else, such as a failed `(RejectionMessage)` cast (`ContractRequestHandler.java:273`), the one at `ContractRequestHandler.java:196-199`.

## Model

| member | source | states |
|---|---|---|
| Messages.RulesOf | src/main/java/de/fraunhofer/isst/dataspaceconnector/services/messages/handler/ContractRequestHandler.java:219 | `map.get(target)` yields a rule list stored for a target of the key set, and nothing for any other target |
| Messages.TargetsOf | src/main/java/de/fraunhofer/isst/dataspaceconnector/services/messages/handler/ContractRequestHandler.java:154-161 | the key set of the target map, in iteration order: one target per entry, at the same position |
| Messages.Targets | src/main/java/de/fraunhofer/isst/dataspaceconnector/services/messages/handler/ContractRequestHandler.java:154-161 | the key set the handler tests for emptiness and iterates over, in iteration order |
| Messages.RulesOfUnique | src/main/java/de/fraunhofer/isst/dataspaceconnector/services/messages/handler/ContractRequestHandler.java:219 | with distinct keys, as in a Java map, `map.get(target)` is the rule list of the target's one entry |
| Messages.TargetsDistinct | src/main/java/de/fraunhofer/isst/dataspaceconnector/services/messages/handler/ContractRequestHandler.java:161 | with distinct keys, the loop's target sequence lists every target once |
| Exceptions.IsResponseBuilderFailure | src/main/java/de/fraunhofer/isst/dataspaceconnector/services/messages/handler/ContractRequestHandler.java:254-255 | the four exception classes of the multi-catch in accept and reject: message builder, illegal state, constraint violation, RDF builder |
| RuleMatching.Verdict | src/main/java/de/fraunhofer/isst/dataspaceconnector/services/messages/handler/ContractRequestHandler.java:217-222 | one step of the offer loop: fetch the offer's rules, then compare them with the requested rules; a fetch failure skips the comparison |
| RuleMatching.AreRulesValid | src/main/java/de/fraunhofer/isst/dataspaceconnector/services/messages/handler/ContractRequestHandler.java:211-229 | no offers gives false with no calls; true means some offer's rules compare equal; false means every offer was compared and rejected; an exception is the one thrown for some offer; only rule fetches and comparisons are made |
| RuleMatching.AreRulesValidCharacterized | src/main/java/de/fraunhofer/isst/dataspaceconnector/services/messages/handler/ContractRequestHandler.java:214-228 | true exactly when some offer is accepted with every earlier offer rejected without an exception; false exactly when every offer is rejected |
| RuleMatching.ValidIffSomeOfferMatches | src/main/java/de/fraunhofer/isst/dataspaceconnector/services/messages/handler/ContractRequestHandler.java:214-228 | when no comparison throws, the result is true exactly when some offer anywhere in the list matches |
| RuleMatching.StopsAtFirstMatch | src/main/java/de/fraunhofer/isst/dataspaceconnector/services/messages/handler/ContractRequestHandler.java:215-225 | the `break` at the first accepted offer: exactly the offers up to and including it have their rules fetched, in list order |
| RuleMatching.DependsOnlyOnVerdicts | src/main/java/de/fraunhofer/isst/dataspaceconnector/services/messages/handler/ContractRequestHandler.java:217-222 | the result depends only on each offer's fetch-and-compare result |
| RuleMatching.AreRulesValidLoop | src/main/java/de/fraunhofer/isst/dataspaceconnector/services/messages/handler/ContractRequestHandler.java:211-229 | the loop with `break` computes the same result as the recursive definition, exceptions included, and makes the same calls in the same order, so it too stops fetching at the first accepted offer |
| TargetLoop.ForEachTarget | src/main/java/de/fraunhofer/isst/dataspaceconnector/services/messages/handler/ContractRequestHandler.java:161-191 | a stopped loop ends with the outcome of one of its targets; a loop body that never builds an agreement gives a loop that never does |
| TargetLoop.AllTargetsPass | src/main/java/de/fraunhofer/isst/dataspaceconnector/services/messages/handler/ContractRequestHandler.java:161-192 | the loop runs to completion exactly when every target's iteration passes |
| TargetLoop.CompletedLoopLooksUpAllTargets | src/main/java/de/fraunhofer/isst/dataspaceconnector/services/messages/handler/ContractRequestHandler.java:161-164 | a completed loop looked up exactly the key-set sequence, in order; with distinct keys (`Messages.TargetsDistinct`) that is every target once |
| TargetLoop.FirstFailingTargetWins | src/main/java/de/fraunhofer/isst/dataspaceconnector/services/messages/handler/ContractRequestHandler.java:161-191 | first failure wins: with every earlier target passing, the loop ends with the first failing target's outcome |
| TargetLoop.FailingLoopStopsLookingUp | src/main/java/de/fraunhofer/isst/dataspaceconnector/services/messages/handler/ContractRequestHandler.java:161-191 | a loop stopping at position k has looked up exactly the targets up to k, in order; later targets are never examined |
| TargetLoop.ForEachTargetLoop | src/main/java/de/fraunhofer/isst/dataspaceconnector/services/messages/handler/ContractRequestHandler.java:161-192 | the `for` loop with early `return` computes the same outcome as the recursive definition and makes the same calls in the same order, so it too never examines a target after the first one that stops |
| ContractRequestHandler.CatchBuilderFailure | src/main/java/de/fraunhofer/isst/dataspaceconnector/services/messages/handler/ContractRequestHandler.java:254-257 | exactly the four builder exception classes become the response-builder-failed response; every other exception propagates unchanged |
| ContractRequestHandler.RejectContract | src/main/java/de/fraunhofer/isst/dataspaceconnector/services/messages/handler/ContractRequestHandler.java:267-282 | only the rejection header is built; a rejection carries the fixed payload and the built header; it is never an agreement; an exception that escapes is not a builder failure; with echoing header builders the response is correlated to the request and addressed to the issuer |
| ContractRequestHandler.AcceptContract | src/main/java/de/fraunhofer/isst/dataspaceconnector/services/messages/handler/ContractRequestHandler.java:240-257 | the agreement is built first, from the request; the result is an agreement exactly when both the agreement and its header are built, and then it carries them; never a rejection; an exception that escapes is not a builder failure; correlation as for rejections |
| ContractRequestHandler.CheckTarget | src/main/java/de/fraunhofer/isst/dataspaceconnector/services/messages/handler/ContractRequestHandler.java:162-190 | one iteration looks up its target's offers first and never again; it never builds an agreement; a stopping iteration never answers with an agreement; with echoing header builders its answer is correlated |
| ContractRequestHandler.CheckTargetLooksUpItsTarget | src/main/java/de/fraunhofer/isst/dataspaceconnector/services/messages/handler/ContractRequestHandler.java:164 | one iteration looks up exactly its own target |
| ContractRequestHandler.TargetCheckWellBehaved | src/main/java/de/fraunhofer/isst/dataspaceconnector/services/messages/handler/ContractRequestHandler.java:161-191 | every iteration looks up only its own target and builds no agreement |
| ContractRequestHandler.LoopBuildsNoAgreement | src/main/java/de/fraunhofer/isst/dataspaceconnector/services/messages/handler/ContractRequestHandler.java:161-191 | the whole loop over the targets builds no agreement |
| ContractRequestHandler.StoppedLoopNeverAgrees | src/main/java/de/fraunhofer/isst/dataspaceconnector/services/messages/handler/ContractRequestHandler.java:161-191 | a loop that returns early never returns an agreement |
| ContractRequestHandler.CheckContract | src/main/java/de/fraunhofer/isst/dataspaceconnector/services/messages/handler/ContractRequestHandler.java:142-192 | the `try` body parses first; with echoing header builders every response it returns is correlated to the request message and issuer |
| ContractRequestHandler.CatchContractFailure | src/main/java/de/fraunhofer/isst/dataspaceconnector/services/messages/handler/ContractRequestHandler.java:193-200 | a returned response passes unchanged; `IllegalArgumentException` gets the illegal-argument response and every other exception the processing-failed response, both correlated and naming the payload; catching never produces an agreement |
| ContractRequestHandler.CheckContractRequest | src/main/java/de/fraunhofer/isst/dataspaceconnector/services/messages/handler/ContractRequestHandler.java:139-201 | no exception escapes; parsing comes first; with echoing header builders every response is correlated |
| ContractRequestHandler.IsEnvelopeFailure | src/main/java/de/fraunhofer/isst/dataspaceconnector/services/messages/handler/ContractRequestHandler.java:103-108 | the validation exceptions `handleMessage` catches: message empty and version not supported |
| ContractRequestHandler.IsPayloadFailure | src/main/java/de/fraunhofer/isst/dataspaceconnector/services/messages/handler/ContractRequestHandler.java:118-124 | the payload exceptions `handleMessage` catches: malformed and missing payload |
| ContractRequestHandler.HandleMessage | src/main/java/de/fraunhofer/isst/dataspaceconnector/services/messages/handler/ContractRequestHandler.java:97-128 | validation comes first; an escaping exception is an uncaught validation exception (nothing else called) or an uncaught payload exception (only validation and payload reading called); once validated, every response is correlated under echoing header builders |
| HandlerProperties.TargetPassesIff | src/main/java/de/fraunhofer/isst/dataspaceconnector/services/messages/handler/ContractRequestHandler.java:162-190 | one iteration passes exactly when the target matches: offers found, some left for this consumer, one accepted by the rule comparison |
| HandlerProperties.EnvelopeCheckedFirst | src/main/java/de/fraunhofer/isst/dataspaceconnector/services/messages/handler/ContractRequestHandler.java:100-108 | a failed validation ends the run before the payload is read: empty message and unsupported version (naming the declared version) get their responses; any other exception escapes |
| HandlerProperties.PayloadFailureRejected | src/main/java/de/fraunhofer/isst/dataspaceconnector/services/messages/handler/ContractRequestHandler.java:110-124 | an unreadable payload ends the run before parsing; malformed and missing payloads get responses naming the message id and issuer; any other exception escapes |
| HandlerProperties.ParseFailureMapped | src/main/java/de/fraunhofer/isst/dataspaceconnector/services/messages/handler/ContractRequestHandler.java:142-144 | a parse failure is answered: illegal-argument or processing-failed response by exception class; nothing further is called |
| HandlerProperties.MissingRulesRejected | src/main/java/de/fraunhofer/isst/dataspaceconnector/services/messages/handler/ContractRequestHandler.java:146-151 | a request without rules gets the missing-rules response before targets are grouped or any offer is looked up |
| HandlerProperties.MissingTargetRejected | src/main/java/de/fraunhofer/isst/dataspaceconnector/services/messages/handler/ContractRequestHandler.java:153-158 | rules without targets get the missing-target response before any offer is looked up |
| HandlerProperties.HandleMessageRunsCheck | src/main/java/de/fraunhofer/isst/dataspaceconnector/services/messages/handler/ContractRequestHandler.java:126-127 | once the payload is read, the handler answers with the caught result of the contract check, after validation and payload reading |
| HandlerProperties.StoppedLoopAnswers | src/main/java/de/fraunhofer/isst/dataspaceconnector/services/messages/handler/ContractRequestHandler.java:161-191 | inside the check, an early return from the loop is the check's result, after parse, rule extraction and grouping |
| HandlerProperties.CompletedLoopAccepts | src/main/java/de/fraunhofer/isst/dataspaceconnector/services/messages/handler/ContractRequestHandler.java:191-192 | inside the check, a completed loop is followed by the accept step, whose result is the check's result |
| HandlerProperties.StoppedLoopDecides | src/main/java/de/fraunhofer/isst/dataspaceconnector/services/messages/handler/ContractRequestHandler.java:161-200 | a loop that stops decides the response (caught as in the check); it is never an agreement, no agreement is built, and the only lookups are the loop's |
| HandlerProperties.CompletedLoopDecides | src/main/java/de/fraunhofer/isst/dataspaceconnector/services/messages/handler/ContractRequestHandler.java:161-200 | a loop that completes hands the response to the accept step; the agreement is built; the only lookups are the loop's |
| HandlerProperties.LoopDecides | src/main/java/de/fraunhofer/isst/dataspaceconnector/services/messages/handler/ContractRequestHandler.java:161-200 | both cases together: once the loop is reached its outcome decides the response |
| HandlerProperties.FirstFailingIterationDecides | src/main/java/de/fraunhofer/isst/dataspaceconnector/services/messages/handler/ContractRequestHandler.java:161-191 | with every earlier loop iteration passing and the one at position k stopping, that iteration's flow is the response; only targets up to k are looked up; no agreement is built |
| HandlerProperties.FirstFailingTargetDecides | src/main/java/de/fraunhofer/isst/dataspaceconnector/services/messages/handler/ContractRequestHandler.java:161-191 | with every earlier target matching (`TargetMatches`) and the one at position k not, that target's iteration stops and its flow is the response; only targets up to k are looked up; no agreement is built |
| HandlerProperties.LookupFailureNamesTarget | src/main/java/de/fraunhofer/isst/dataspaceconnector/services/messages/handler/ContractRequestHandler.java:163-171 | a failed offer lookup at the first failing target gets the invalid-resource or resource-not-found response naming that target; no later target is looked up |
| HandlerProperties.MissingOffersRejected | src/main/java/de/fraunhofer/isst/dataspaceconnector/services/messages/handler/ContractRequestHandler.java:173-185 | no offers, or none left for this consumer, at the first failing target gets the missing-offers response; no later target is looked up |
| HandlerProperties.NoMatchingOfferRejects | src/main/java/de/fraunhofer/isst/dataspaceconnector/services/messages/handler/ContractRequestHandler.java:187-190 | when every offer's rules are rejected, the response is the fixed rejection with the built header, correlated and addressed to the issuer under echoing builders; a header failure of a builder class becomes the builder-failed response; no agreement is built |
| HandlerProperties.LoopCompletesIffEveryTargetMatches | src/main/java/de/fraunhofer/isst/dataspaceconnector/services/messages/handler/ContractRequestHandler.java:161-191 | the loop completes exactly when every target matches |
| HandlerProperties.AgreementAtLoopIff | src/main/java/de/fraunhofer/isst/dataspaceconnector/services/messages/handler/ContractRequestHandler.java:161-192 | once the loop is reached, the response is an agreement exactly when every target matches and the agreement and its header are built |
| HandlerProperties.AgreementIffEveryTargetMatches | src/main/java/de/fraunhofer/isst/dataspaceconnector/services/messages/handler/ContractRequestHandler.java:97-201 | the handler answers with an agreement exactly when every step succeeds, every target has a matching offer for this consumer, and the agreement and its header are built |
| HandlerProperties.AgreementBuiltFromRequest | src/main/java/de/fraunhofer/isst/dataspaceconnector/services/messages/handler/ContractRequestHandler.java:240-253 | an agreement is built from the original request, only after every target was looked up in key-set order, and its header is correlated and addressed to the issuer under echoing builders |
| HandlerProperties.AcceptedTargetsLookedUpOnce | src/main/java/de/fraunhofer/isst/dataspaceconnector/services/messages/handler/ContractRequestHandler.java:153-164 | for a target map with distinct keys, an accepted request looked up every target exactly once, and each entry's own rule list was compared and matched by some offer for the issuer |
| HandlerProperties.AcceptFailureMapped | src/main/java/de/fraunhofer/isst/dataspaceconnector/services/messages/handler/ContractRequestHandler.java:192-200 | after every target passed, an accept failure gets the builder-failed, illegal-argument or processing-failed response, by exception class |

## Left out

- `services/communication/MessageService.java` is not part of this model. It is the dispatch layer that builds headers and sends messages over HTTP, which is network I/O. It is also not the `MessageService` the handler calls: that one is `services.messages.MessageService`, whose validation and parsing appear here as the `validate` and `parseRequest` fields of `Env`.
- `RetrievalInformation` and `CommunicationProtocol` are not part of this model. They are plain data holders that the handler does not use.
- The collaborators' own logic is not modelled. Every service the handler calls is an uninterpreted function of `Env`, so the proofs hold for every implementation. This covers message validation, payload decoding, JSON-LD parsing, rule extraction and grouping, offer lookup, consumer filtering, policy comparison, and agreement and header building.
- Each collaborator is assumed to answer the same input the same way within one run. Java services with hidden state could differ from call to call.
- Exceptions thrown by the exception service itself are left out. So are Java `Error`s, which no `catch (Exception …)` catches.
- The exception classes are a flat enumeration, assumed disjoint. Sub-classing between the project's exception classes is not visible; a sub-class of `IllegalArgumentException` would be caught as one.
- The target map is an association list in key-set iteration order. The order of Java's `keySet()` is taken as given. The list may repeat a target, which a Java map cannot; the loop properties hold either way, and `Messages.DistinctTargets` states the map's distinct keys where a property needs them (`RulesOfUnique`, `TargetsDistinct`, `HandlerProperties.AcceptedTargetsLookedUpOnce`).
- Logging, Spring wiring, RDF serialisation of messages and concurrency are left out.
- `MessageUtils.extractMessageIdFromMessage` and `extractIssuerConnectorFromMessage` are left out. They become the message's `id` and `issuerConnector` fields, and are assumed not to throw.
- Messages.Correlated: holds for the response-builder-failed response without comparing anything. The exception service is given only the exception there, so the response has no correlation data to compare.
- ContractRequestHandler.RejectContract: correlation of a built rejection is proved only under `HeadersEchoDescription`, the assumption that the header builders copy the description's correlation id and recipient. The builders' internals are outside the model. The same holds for AcceptContract, CheckTarget, CheckContract, CheckContractRequest and HandleMessage.
