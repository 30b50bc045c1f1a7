/**
  The protocol entities the contract-request handler reads and produces:
  the incoming request message, its payload, the parsed contract request,
  its rules grouped by target, provider contract offers, and the response
  handed back to the transport layer.
 */
module Messages {
  import opened Exceptions

  type Uri = string

  /** The header of an incoming contract request message. */
  datatype ContractRequestMessage = ContractRequestMessage(
    id: Uri,               // what MessageUtils.extractMessageIdFromMessage reads
    issuerConnector: Uri,  // what MessageUtils.extractIssuerConnectorFromMessage reads
    modelVersion: string)  // the information-model version the issuer declares

  /** The raw second part of the multipart message. */
  datatype MessagePayload = MessagePayload(bytes: seq<bv8>)

  /** Usage rules, contract requests and contract offers are opaque to the handler. */
  datatype Rule = Rule(id: Uri)
  datatype ContractRequest = ContractRequest(id: Uri)
  datatype Contract = Contract(id: Uri)

  /**
    The request's rules grouped by target artifact. The entries are listed in
    the iteration order of the map's key set.
   */
  datatype TargetRules = TargetRules(target: Uri, rules: seq<Rule>)
  datatype TargetRuleMap = TargetRuleMap(entries: seq<TargetRules>)

  /** The targets of a list of entries, in order. */
  function TargetsOf(entries: seq<TargetRules>): (ts: seq<Uri>)
    ensures |ts| == |entries|
    ensures forall i :: 0 <= i < |entries| ==> ts[i] == entries[i].target
  {
    if entries == [] then [] else [entries[0].target] + TargetsOf(entries[1..])
  }

  /** The key set of the map, in iteration order. */
  function Targets(m: TargetRuleMap): (ts: seq<Uri>)
    ensures |ts| == |m.entries|
    ensures forall i :: 0 <= i < |ts| ==> ts[i] == m.entries[i].target
  {
    TargetsOf(m.entries)
  }

  /**
    `map.get(target)`: the rules of the first entry for `target`. The handler
    only asks for targets of the key set; any other target has no rules.
   */
  function RulesOf(entries: seq<TargetRules>, target: Uri): (rules: seq<Rule>)
    ensures target in TargetsOf(entries) ==> TargetRules(target, rules) in entries
    ensures target !in TargetsOf(entries) ==> rules == []
  {
    if entries == [] then []
    else if entries[0].target == target then entries[0].rules
    else RulesOf(entries[1..], target)
  }

  function RulesFor(m: TargetRuleMap, target: Uri): seq<Rule> {
    RulesOf(m.entries, target)
  }

  /** No target has two entries, as for the key set of a Java map. */
  predicate DistinctKeys(entries: seq<TargetRules>) {
    forall i, j :: 0 <= i < j < |entries| ==> entries[i].target != entries[j].target
  }

  predicate DistinctTargets(m: TargetRuleMap) {
    DistinctKeys(m.entries)
  }

  /** With distinct keys, `map.get(target)` is the rule list of the target's one entry. */
  lemma {:induction false} RulesOfUnique(entries: seq<TargetRules>, target: Uri, rules: seq<Rule>)
    requires DistinctKeys(entries)
    requires TargetRules(target, rules) in entries
    ensures RulesOf(entries, target) == rules
    decreases |entries|
  {
    if entries[0] != TargetRules(target, rules) {
      var k :| 0 <= k < |entries| && entries[k] == TargetRules(target, rules);
      assert entries[0].target != target by {
        assert k > 0;
      }
      assert entries[1..][k - 1] == entries[k];
      RulesOfUnique(entries[1..], target, rules);
    }
  }

  /** With distinct keys the key set lists every target once. */
  lemma TargetsDistinct(m: TargetRuleMap)
    requires DistinctTargets(m)
    ensures forall i, j :: 0 <= i < j < |Targets(m)| ==> Targets(m)[i] != Targets(m)[j]
  {
  }

  /** What the handler tells a response-header builder: correlation id and recipient. */
  datatype MessageDesc = MessageDesc(correlationMessage: Uri, recipient: Uri)

  /** A response header as built by the agreement or rejection message service. */
  datatype Header = Header(id: Uri, correlationMessage: Uri, recipient: Uri)

  /** The header copies the correlation id and recipient of the description it was built from. */
  predicate Echoes(h: Header, d: MessageDesc) {
    h.correlationMessage == d.correlationMessage && h.recipient == d.recipient
  }

  /**
    The responses of the exception service: which of its handler methods was
    invoked and with which arguments (argument order as in the calls).
   */
  datatype Handled =
    | MessageEmptyHandled(e: Exc)
    | InfoModelNotSupported(e: Exc, modelVersion: string)
    | MalformedPayloadHandled(e: Exc, messageId: Uri, issuerConnector: Uri)
    | MissingPayloadHandled(e: Exc, messageId: Uri, issuerConnector: Uri)
    | MissingRules(request: ContractRequest, messageId: Uri, issuerConnector: Uri)
    | MissingTargetInRules(request: ContractRequest, messageId: Uri, issuerConnector: Uri)
    | InvalidResourceHandled(e: Exc, target: Uri, issuerConnector: Uri, messageId: Uri)
    | ResourceNotFoundHandled(e: Exc, target: Uri, issuerConnector: Uri, messageId: Uri)
    | MissingContractOffers(request: ContractRequest, messageId: Uri, issuerConnector: Uri)
    | ResponseMessageBuilderFailed(e: Exc)
    | IllegalArgumentHandled(e: Exc, payload: string, issuerConnector: Uri, messageId: Uri)
    | MessageProcessingFailed(e: Exc, payload: string, issuerConnector: Uri, messageId: Uri)

  /** The response returned to the transport layer. */
  datatype MessageResponse =
    | BodyResponse(header: Header, payload: string)   // contract agreement
    | ErrorResponse(header: Header, payload: string)  // contract rejection
    | ExceptionResponse(handled: Handled)

  /** The fixed payload of a contract rejection. */
  const ContractRejected: string := "Contract rejected."

  /**
    The response refers back to the request message `messageId` of `issuer`
    wherever it carries correlation data. The response-builder failure carries
    none; the two envelope rejections are never correlated.
   */
  predicate Correlated(r: MessageResponse, messageId: Uri, issuer: Uri) {
    match r
    case BodyResponse(h, _) => h.correlationMessage == messageId && h.recipient == issuer
    case ErrorResponse(h, _) => h.correlationMessage == messageId && h.recipient == issuer
    case ExceptionResponse(x) =>
      match x
      case MessageEmptyHandled(_) => false
      case InfoModelNotSupported(_, _) => false
      case ResponseMessageBuilderFailed(_) => true
      case _ => x.messageId == messageId && x.issuerConnector == issuer
  }
}
