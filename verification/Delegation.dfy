/** Authorization of an agent's action by a chain of delegation policies, from the principal's policy
    first to the agent's last. Signatures, hashes and parsed dates are inputs. */
module Delegation {
  import Canonical
  import opened Wrappers
  import opened Text

  datatype Effect = Allow | Deny | OtherEffect

  datatype Constraints = Constraints(
    maxValue: Option<int>, currency: Option<Text>,
    allowedTools: Option<seq<Text>>, deniedTools: Option<seq<Text>>, allowedCounterparties: Option<seq<Text>>,
    maxActions: Option<int>, observedActions: Option<int>,
    requiresApproval: bool, requiresApprovalAbove: Option<int>)

  datatype Subdelegation = Subdelegation(allowed: bool, maxDepth: Option<int>, allowedActions: Option<seq<Text>>)

  /** `validFrom` and `validUntil` are parsed dates; nothing stands for a date that does not parse. */
  datatype Policy = Policy(
    id: Text, principal: Text, delegate: Text, effect: Effect, actions: seq<Text>, resources: seq<Text>,
    constraints: Constraints, subdelegation: Option<Subdelegation>, parent: Option<Text>,
    validFrom: Option<int>, validUntil: Option<int>, pointer: Text)

  datatype Action = Action(
    agent: Text, principal: Text, name: Text, resource: Text, tool: Option<Text>,
    issuedAt: Option<int>, chainRoot: Text, value: Option<int>, approval: Option<Text>)

  datatype Parameters = Parameters(value: Option<int>, currency: Option<Text>, counterparty: Option<Text>)

  /** `signs` and `actionSigned` say which signatures verify under which key, `rootOf` is the hash of a
      chain, and `parametersMatch` that disclosed parameters hash to the action's commitment. */
  datatype Input = Input(
    action: Action, chain: seq<Policy>, keys: map<Text, Text>,
    actionSigned: Text -> bool, signs: (Text, Policy) -> bool, rootOf: seq<Policy> -> Text,
    revokedIds: set<Text>, revokedPointers: set<Text>,
    parameters: Option<Parameters>, parametersMatch: bool)

  datatype Error =
    | TimestampInvalid | ActionSignatureInvalid | ConstraintViolation | DelegationMissing | ChainBroken
    | ChainRootMismatch | SignatureInvalid | Revoked | Expired | ScopeViolation | ValueLimitExceeded | ApprovalRequired

  /** What an accepted chain allows; it is what the returned commitment is computed from. */
  datatype Scope = Scope(actions: seq<seq<Text>>, resources: seq<seq<Text>>, maxValue: int, requiresApproval: bool)

  datatype Verdict = Accepted(scope: Scope) | Rejected(error: Error)

  // ---------- Matching ----------

  const STAR: Text := [0x2a]

  /** Equal, or a pattern ending in a star whose rest is a prefix. */
  predicate ResourceMatches(pattern: Text, resource: Text) {
    pattern == resource ||
    (pattern != [] && pattern[|pattern| - 1] == 0x2a && pattern[..|pattern| - 1] <= resource)
  }

  predicate ActionMatches(actions: seq<Text>, action: Text) {
    action in actions || STAR in actions
  }

  predicate SomeResourceMatches(patterns: seq<Text>, resource: Text) {
    exists i | 0 <= i < |patterns| :: ResourceMatches(patterns[i], resource)
  }

  predicate PolicyMatches(p: Policy, a: Action) {
    ActionMatches(p.actions, a.name) && SomeResourceMatches(p.resources, a.resource)
  }

  /** The value of an action is never negative. */
  function ValueOf(x: Input): int {
    var v := if x.action.value.Some? then x.action.value.value
             else if x.parameters.Some? && x.parameters.value.value.Some? then x.parameters.value.value.value
             else 0;
    if v > 0 then v else 0
  }

  /** A star at the end stands for anything; elsewhere it stands for itself. */
  lemma ResourceMatchesIs(text: Text, resource: Text)
    ensures ResourceMatches(text + STAR, resource) <==> text <= resource
    ensures text == [] || text[|text| - 1] != STAR[0] ==> (ResourceMatches(text, resource) <==> text == resource)
  {
    var pattern := text + STAR;
    assert pattern[..|pattern| - 1] == text;
    assert pattern == resource ==> text <= resource;
  }

  /** The value is the action's, or else the parameters', or else nothing, and never below zero. */
  lemma ValueIs(x: Input)
    ensures ValueOf(x) >= 0
    ensures x.action.value.Some? && x.action.value.value >= 0 ==> ValueOf(x) == x.action.value.value
    ensures x.action.value.None? && x.parameters.Some? && x.parameters.value.value.Some? ==>
      x.parameters.value.value.value >= 0 ==> ValueOf(x) == x.parameters.value.value.value
    ensures x.action.value.None? && (x.parameters.None? || x.parameters.value.value.None?) ==> ValueOf(x) == 0
  {
  }

  // ---------- One policy ----------

  predicate HasSignature(x: Input, p: Policy) {
    p.principal in x.keys && x.keys[p.principal] != [] && x.signs(x.keys[p.principal], p)
  }

  /** A date that does not parse compares false, so it bounds nothing. */
  predicate OutsideWindow(p: Policy, at: int) {
    (p.validFrom.Some? && p.validFrom.value > at) || (p.validUntil.Some? && at >= p.validUntil.value)
  }

  predicate SubdelegationAllows(p: Policy, depth: nat, action: Text) {
    && p.subdelegation.Some? && p.subdelegation.value.allowed
    && (p.subdelegation.value.maxDepth.Some? ==> depth <= p.subdelegation.value.maxDepth.value)
    && (p.subdelegation.value.allowedActions.Some? ==>
        ActionMatches(p.subdelegation.value.allowedActions.value, action))
  }

  predicate ConstraintsHold(x: Input, c: Constraints) {
    && (c.allowedTools.Some? ==> Truthy(x.action.tool) && x.action.tool.value in c.allowedTools.value)
    && (c.deniedTools.Some? ==> (if x.action.tool.Some? then x.action.tool.value else []) !in c.deniedTools.value)
    && (Truthy(c.currency) ==> x.parameters.Some? && x.parameters.value.currency == c.currency)
    && (c.allowedCounterparties.Some? && x.parameters.Some? && x.parameters.value.counterparty.Some? ==>
          x.parameters.value.counterparty.value in c.allowedCounterparties.value)
    && (c.maxActions.Some? && c.observedActions.Some? ==> c.observedActions.value < c.maxActions.value)
  }

  /** The first check that the policy fails, in the verifier's order. */
  function PolicyError(x: Input, p: Policy, at: int, depth: nat, expectedDelegate: Text,
      expectedParent: Option<Text>): Option<Error> {
    if !HasSignature(x, p) then Some(SignatureInvalid)
    else if p.id in x.revokedIds || p.pointer in x.revokedPointers then Some(Revoked)
    else if OutsideWindow(p, at) then Some(Expired)
    else if p.delegate != expectedDelegate then Some(ChainBroken)
    else if expectedParent.Some? && p.id != expectedParent.value then Some(ChainBroken)
    else if p.effect == Deny && PolicyMatches(p, x.action) then Some(ScopeViolation)
    else if p.effect != Allow then None
    else if depth > 0 && !SubdelegationAllows(p, depth, x.action.name) then Some(ScopeViolation)
    else if !ConstraintsHold(x, p.constraints) then Some(ConstraintViolation)
    else None
  }

  predicate NeedsApproval(x: Input, c: Constraints) {
    c.requiresApproval || (c.requiresApprovalAbove.Some? && ValueOf(x) > c.requiresApprovalAbove.value)
  }

  // ---------- The whole chain, declaratively ----------

  /** The policy at a distance from the agent: 0 is the agent's own. */
  function FromAgent(chain: seq<Policy>, depth: nat): Policy
    requires depth < |chain|
  {
    chain[|chain| - 1 - depth]
  }

  /** The nearest allow policy on the agent's side. */
  ghost function AllowBefore(chain: seq<Policy>, depth: nat): Option<Policy>
    requires depth <= |chain|
  {
    if depth == 0 then None
    else if FromAgent(chain, depth - 1).effect == Allow then Some(FromAgent(chain, depth - 1))
    else AllowBefore(chain, depth - 1)
  }

  ghost function ExpectedDelegate(x: Input, depth: nat): Text
    requires depth <= |x.chain|
  {
    var before := AllowBefore(x.chain, depth);
    if before.Some? then before.value.principal else x.action.agent
  }

  ghost function ExpectedParent(x: Input, depth: nat): Option<Text>
    requires depth <= |x.chain|
  {
    var before := AllowBefore(x.chain, depth);
    if before.Some? then before.value.parent else None
  }

  /** Everything asked of the policy at a depth. */
  ghost predicate PolicyHolds(x: Input, at: int, depth: nat)
    requires depth < |x.chain|
  {
    var p := FromAgent(x.chain, depth);
    && HasSignature(x, p)
    && p.id !in x.revokedIds && p.pointer !in x.revokedPointers
    && !OutsideWindow(p, at)
    && p.delegate == ExpectedDelegate(x, depth)
    && (ExpectedParent(x, depth).Some? ==> p.id == ExpectedParent(x, depth).value)
    && !(p.effect == Deny && PolicyMatches(p, x.action))
    && (p.effect == Allow ==>
          && (depth > 0 ==> SubdelegationAllows(p, depth, x.action.name))
          && ConstraintsHold(x, p.constraints)
          && PolicyMatches(p, x.action)
          && (p.constraints.maxValue.Some? ==> ValueOf(x) <= p.constraints.maxValue.value)
          && (NeedsApproval(x, p.constraints) ==> Truthy(x.action.approval)))
  }

  /** The action as a whole: its time, its signature, its parameters, and its tie to the chain. */
  ghost predicate ActionHolds(x: Input) {
    && x.action.issuedAt.Some?
    && x.action.agent in x.keys && x.keys[x.action.agent] != [] && x.actionSigned(x.keys[x.action.agent])
    && (x.parameters.Some? ==> x.parametersMatch)
    && x.chain != []
    && x.chain[0].principal == x.action.principal
    && x.action.chainRoot == x.rootOf(x.chain)
    && ValueOf(x) <= Canonical.MAX_SAFE_INTEGER
  }

  ghost predicate Authorized(x: Input) {
    ActionHolds(x) && forall depth: nat | depth < |x.chain| :: PolicyHolds(x, x.action.issuedAt.value, depth)
  }

  // ---------- What the loop collects ----------

  /** The scope collected from the allow policies up to a depth. */
  ghost function Collected(x: Input, depth: nat): Scope
    requires depth <= |x.chain|
  {
    if depth == 0 then Scope([], [], Canonical.MAX_SAFE_INTEGER, false) else
      var s, p := Collected(x, depth - 1), FromAgent(x.chain, depth - 1);
      if p.effect != Allow then s else
        Scope(s.actions + [p.actions], s.resources + [p.resources],
              Least(s.maxValue, p.constraints.maxValue), s.requiresApproval || NeedsApproval(x, p.constraints))
  }

  function Least(limit: int, other: Option<int>): int {
    if other.Some? && other.value < limit then other.value else limit
  }

  /** What the final checks ask of the collected scope. */
  ghost predicate ScopeHolds(x: Input, s: Scope) {
    && (forall i | 0 <= i < |s.actions| :: ActionMatches(s.actions[i], x.action.name))
    && (forall i | 0 <= i < |s.resources| :: SomeResourceMatches(s.resources[i], x.action.resource))
    && ValueOf(x) <= s.maxValue
    && (s.requiresApproval ==> Truthy(x.action.approval))
  }

  /** What a policy's own clause contributes to those final checks. */
  ghost predicate AllowHolds(x: Input, p: Policy) {
    p.effect == Allow ==>
      && PolicyMatches(p, x.action)
      && (p.constraints.maxValue.Some? ==> ValueOf(x) <= p.constraints.maxValue.value)
      && (NeedsApproval(x, p.constraints) ==> Truthy(x.action.approval))
  }

  lemma {:induction false} CollectedHolds(x: Input, depth: nat)
    requires depth <= |x.chain|
    ensures ScopeHolds(x, Collected(x, depth)) <==>
      ValueOf(x) <= Canonical.MAX_SAFE_INTEGER && forall d: nat | d < depth :: AllowHolds(x, FromAgent(x.chain, d))
  {
    hide ActionMatches, SomeResourceMatches, NeedsApproval, Truthy, ValueOf;
    if depth > 0 {
      CollectedHolds(x, depth - 1);
      var s, t, p := Collected(x, depth - 1), Collected(x, depth), FromAgent(x.chain, depth - 1);
      if p.effect == Allow {
        assert t.actions[..|s.actions|] == s.actions && t.resources[..|s.resources|] == s.resources;
        assert t.actions[|s.actions|] == p.actions && t.resources[|s.resources|] == p.resources;
        SameLength(x, depth - 1);
        GrownScope(x, s, t, p);
      }
      SplitLast(x, depth);
    }
  }

  lemma SplitLast(x: Input, depth: nat)
    requires 0 < depth <= |x.chain|
    ensures (forall d: nat | d < depth :: AllowHolds(x, FromAgent(x.chain, d))) <==>
      (forall d: nat | d < depth - 1 :: AllowHolds(x, FromAgent(x.chain, d))) &&
          AllowHolds(x, FromAgent(x.chain, depth - 1))
  {
    hide AllowHolds;
  }

  lemma {:induction false} SameLength(x: Input, depth: nat)
    requires depth <= |x.chain|
    ensures |Collected(x, depth).actions| == |Collected(x, depth).resources|
  {
    if depth > 0 { SameLength(x, depth - 1); }
  }

  lemma GrownScope(x: Input, s: Scope, t: Scope, p: Policy)
    requires p.effect == Allow && |s.actions| == |s.resources|
    requires t == Scope(s.actions + [p.actions], s.resources + [p.resources],
                        Least(s.maxValue, p.constraints.maxValue),
                        s.requiresApproval || NeedsApproval(x, p.constraints))
    ensures ScopeHolds(x, t) <==> ScopeHolds(x, s) && AllowHolds(x, p)
  {
    hide ActionMatches, SomeResourceMatches, NeedsApproval, Truthy, ValueOf;
    assert forall i | 0 <= i < |s.actions| :: t.actions[i] == s.actions[i] && t.resources[i] == s.resources[i];
    assert t.actions[|s.actions|] == p.actions && t.resources[|s.resources|] == p.resources;
  }

  // ---------- What a rejection says ----------

  /** A rejection names something that is wrong with the action or with some policy of the chain. */
  ghost predicate Explains(x: Input, error: Error) {
    match error
    case TimestampInvalid => x.action.issuedAt.None?
    case ActionSignatureInvalid =>
      !(x.action.agent in x.keys && x.keys[x.action.agent] != [] && x.actionSigned(x.keys[x.action.agent]))
    case DelegationMissing => x.chain == []
    case ChainRootMismatch => x.action.chainRoot != x.rootOf(x.chain)
    case ValueLimitExceeded => ValueOf(x) > Canonical.MAX_SAFE_INTEGER || SomePolicy(x, error)
    case ConstraintViolation => (x.parameters.Some? && !x.parametersMatch) || SomePolicy(x, error)
    case ChainBroken => (x.chain != [] && x.chain[0].principal != x.action.principal) || SomePolicy(x, error)
    case _ => SomePolicy(x, error)
  }

  ghost predicate SomePolicy(x: Input, error: Error) {
    exists depth: nat | depth < |x.chain| :: Blames(x, error, depth)
  }

  ghost predicate Blames(x: Input, error: Error, depth: nat)
    requires depth < |x.chain|
  {
    var p := FromAgent(x.chain, depth);
    match error
    case SignatureInvalid => !HasSignature(x, p)
    case Revoked => p.id in x.revokedIds || p.pointer in x.revokedPointers
    case Expired => x.action.issuedAt.Some? && OutsideWindow(p, x.action.issuedAt.value)
    case ChainBroken =>
      || p.delegate != ExpectedDelegate(x, depth)
      || (ExpectedParent(x, depth).Some? && p.id != ExpectedParent(x, depth).value)
    case ScopeViolation =>
      || (p.effect == Deny && PolicyMatches(p, x.action))
      || (p.effect == Allow && depth > 0 && !SubdelegationAllows(p, depth, x.action.name))
      || (p.effect == Allow && !PolicyMatches(p, x.action))
    case ConstraintViolation => p.effect == Allow && !ConstraintsHold(x, p.constraints)
    case ValueLimitExceeded =>
      p.effect == Allow && p.constraints.maxValue.Some? && ValueOf(x) > p.constraints.maxValue.value
    case ApprovalRequired => p.effect == Allow && NeedsApproval(x, p.constraints) && !Truthy(x.action.approval)
    case _ => false
  }

  lemma ErrorBlames(x: Input, at: int, depth: nat, error: Error)
    requires depth < |x.chain| && x.action.issuedAt == Some(at)
    requires PolicyError(x, FromAgent(x.chain, depth), at, depth, ExpectedDelegate(x, depth),
        ExpectedParent(x, depth)) == Some(error)
    ensures Explains(x, error)
  {
    hide AllowBefore, HasSignature, OutsideWindow, SubdelegationAllows, ConstraintsHold, PolicyMatches, ValueOf;
    assert Blames(x, error, depth);
  }

  lemma {:induction false} ScopeBlames(x: Input, depth: nat, i: nat)
    requires depth <= |x.chain| && i < |Collected(x, depth).actions| &&
        |Collected(x, depth).actions| == |Collected(x, depth).resources|
    requires
      || !ActionMatches(Collected(x, depth).actions[i], x.action.name)
      || !SomeResourceMatches(Collected(x, depth).resources[i], x.action.resource)
    ensures SomePolicy(x, ScopeViolation)
  {
    hide ActionMatches, SomeResourceMatches;
    SameLength(x, depth - 1);
    if i < |Collected(x, depth - 1).actions| {
      ScopeBlames(x, depth - 1, i);
    } else {
      assert Blames(x, ScopeViolation, depth - 1);
    }
  }

  lemma {:induction false} LimitBlames(x: Input, depth: nat)
    requires depth <= |x.chain| && ValueOf(x) > Collected(x, depth).maxValue
    ensures Explains(x, ValueLimitExceeded)
  {
    hide ValueOf;
    if depth > 0 {
      if ValueOf(x) > Collected(x, depth - 1).maxValue {
        LimitBlames(x, depth - 1);
      } else {
        assert Blames(x, ValueLimitExceeded, depth - 1);
      }
    }
  }

  lemma {:induction false} ApprovalBlames(x: Input, depth: nat)
    requires depth <= |x.chain| && Collected(x, depth).requiresApproval && !Truthy(x.action.approval)
    ensures SomePolicy(x, ApprovalRequired)
  {
    hide NeedsApproval, Truthy;
    if Collected(x, depth - 1).requiresApproval {
      ApprovalBlames(x, depth - 1);
    } else {
      assert Blames(x, ApprovalRequired, depth - 1);
    }
  }

  /** The verifier accepts exactly the authorized actions and returns the scope of the chain; when it
      rejects, its error says something true. */
  method VerifyDelegatedAgentAction(x: Input) returns (r: Verdict)
    ensures r.Accepted? <==> Authorized(x)
    ensures r.Accepted? ==> r.scope == Collected(x, |x.chain|)
    ensures r.Rejected? ==> Explains(x, r.error)
  {
    hide PolicyError, PolicyHolds, ValueOf, SomePolicy;
    if x.action.issuedAt.None? { return Rejected(TimestampInvalid); }
    var at := x.action.issuedAt.value;
    if x.action.agent !in x.keys || x.keys[x.action.agent] == [] || !x.actionSigned(x.keys[x.action.agent]) {
      return Rejected(ActionSignatureInvalid);
    }
    if x.parameters.Some? && !x.parametersMatch { return Rejected(ConstraintViolation); }
    if |x.chain| == 0 { return Rejected(DelegationMissing); }
    if x.chain[0].principal != x.action.principal { return Rejected(ChainBroken); }
    if x.action.chainRoot != x.rootOf(x.chain) { return Rejected(ChainRootMismatch); }
    var expectedDelegate := x.action.agent;
    var expectedParent: Option<Text> := None;
    var scope := Scope([], [], Canonical.MAX_SAFE_INTEGER, false);
    for depth := 0 to |x.chain|
      invariant expectedDelegate == ExpectedDelegate(x, depth) && expectedParent == ExpectedParent(x, depth)
      invariant scope == Collected(x, depth)
      invariant forall d: nat | d < depth :: Passes(x, at, d)
    {
      var policy := FromAgent(x.chain, depth);
      var error := PolicyError(x, policy, at, depth, expectedDelegate, expectedParent);
      if error.Some? {
        assert !Passes(x, at, depth);
        PolicySplits(x, at, depth);
        ErrorBlames(x, at, depth, error.value);
        return Rejected(error.value);
      }
      if policy.effect == Allow {
        scope := Scope(scope.actions + [policy.actions], scope.resources + [policy.resources],
                       Least(scope.maxValue, policy.constraints.maxValue),
                       scope.requiresApproval || NeedsApproval(x, policy.constraints));
        expectedParent := policy.parent;
        expectedDelegate := policy.principal;
      }
    }
    AuthorizedMeans(x, at);
    SameLength(x, |x.chain|);
    if exists i | 0 <= i < |scope.actions| :: !ActionMatches(scope.actions[i], x.action.name) {
      ghost var i :| 0 <= i < |scope.actions| && !ActionMatches(scope.actions[i], x.action.name);
      ScopeBlames(x, |x.chain|, i);
      return Rejected(ScopeViolation);
    }
    if exists i | 0 <= i < |scope.resources| :: !SomeResourceMatches(scope.resources[i], x.action.resource) {
      ghost var i :| 0 <= i < |scope.resources| && !SomeResourceMatches(scope.resources[i], x.action.resource);
      ScopeBlames(x, |x.chain|, i);
      return Rejected(ScopeViolation);
    }
    if ValueOf(x) > scope.maxValue {
      LimitBlames(x, |x.chain|);
      return Rejected(ValueLimitExceeded);
    }
    if scope.requiresApproval && !Truthy(x.action.approval) {
      ApprovalBlames(x, |x.chain|);
      return Rejected(ApprovalRequired);
    }
    return Accepted(scope);
  }

  /** The policy at a depth gets through the loop. */
  ghost predicate Passes(x: Input, at: int, depth: nat)
    requires depth < |x.chain|
  {
    PolicyError(x, FromAgent(x.chain, depth), at, depth, ExpectedDelegate(x, depth), ExpectedParent(x, depth)).None?
  }

  /** A policy holds when it gets through the loop and its share of the final checks holds. */
  lemma PolicySplits(x: Input, at: int, depth: nat)
    requires depth < |x.chain|
    ensures PolicyHolds(x, at, depth) <==> Passes(x, at, depth) && AllowHolds(x, FromAgent(x.chain, depth))
  {
    hide AllowBefore, HasSignature, OutsideWindow, SubdelegationAllows, ConstraintsHold, PolicyMatches, NeedsApproval,
        ValueOf, Truthy;
  }

  lemma AuthorizedMeans(x: Input, at: int)
    requires x.action.issuedAt == Some(at)
    requires forall d: nat | d < |x.chain| :: Passes(x, at, d)
    requires x.action.agent in x.keys && x.keys[x.action.agent] != [] && x.actionSigned(x.keys[x.action.agent])
    requires (x.parameters.Some? ==> x.parametersMatch) && x.chain != []
    requires x.chain[0].principal == x.action.principal && x.action.chainRoot == x.rootOf(x.chain)
    ensures Authorized(x) <==> ScopeHolds(x, Collected(x, |x.chain|))
  {
    hide Passes, AllowHolds, PolicyHolds, ScopeHolds, Collected, ValueOf;
    forall d: nat | d < |x.chain|
      ensures PolicyHolds(x, at, d) <==> AllowHolds(x, FromAgent(x.chain, d))
    {
      PolicySplits(x, at, d);
    }
    CollectedHolds(x, |x.chain|);
  }

  // ---------- Consequences ----------

  /** What acceptance says of every policy of the chain, in terms of its own fields. */
  lemma AcceptedPolicy(x: Input, depth: nat)
    requires Authorized(x) && depth < |x.chain|
    ensures x.action.issuedAt.Some?
    ensures var p, at := FromAgent(x.chain, depth), x.action.issuedAt.value;
      && p.principal in x.keys && x.signs(x.keys[p.principal], p)
      && p.id !in x.revokedIds && p.pointer !in x.revokedPointers
      && (p.validFrom.Some? ==> p.validFrom.value <= at) && (p.validUntil.Some? ==> at < p.validUntil.value)
  {
    hide AllowBefore, SubdelegationAllows, ConstraintsHold, PolicyMatches, NeedsApproval, ValueOf, Truthy;
    assert PolicyHolds(x, x.action.issuedAt.value, depth);
  }

  /** What acceptance says of every allow policy of the chain. */
  lemma AcceptedAllow(x: Input, depth: nat)
    requires Authorized(x) && depth < |x.chain| && FromAgent(x.chain, depth).effect == Allow
    ensures var p := FromAgent(x.chain, depth);
      && (x.action.name in p.actions || STAR in p.actions)
      && (exists pattern | pattern in p.resources :: ResourceMatches(pattern, x.action.resource))
      && (depth > 0 ==> p.subdelegation.Some? && p.subdelegation.value.allowed)
      && (depth > 0 && p.subdelegation.value.maxDepth.Some? ==> depth <= p.subdelegation.value.maxDepth.value)
      && (depth > 0 && p.subdelegation.value.allowedActions.Some? ==>
            x.action.name in p.subdelegation.value.allowedActions.value
            || STAR in p.subdelegation.value.allowedActions.value)
  {
    hide AllowBefore, HasSignature, OutsideWindow, ConstraintsHold, NeedsApproval, ValueOf, Truthy, ResourceMatches;
    assert PolicyHolds(x, x.action.issuedAt.value, depth);
    var p := FromAgent(x.chain, depth);
    var i :| 0 <= i < |p.resources| && ResourceMatches(p.resources[i], x.action.resource);
    assert p.resources[i] in p.resources;
  }

  /** What acceptance says of the constraints of every allow policy. */
  lemma AcceptedConstraints(x: Input, depth: nat)
    requires Authorized(x) && depth < |x.chain| && FromAgent(x.chain, depth).effect == Allow
    ensures var c := FromAgent(x.chain, depth).constraints;
      && (c.allowedTools.Some? ==> x.action.tool.Some? && x.action.tool.value in c.allowedTools.value)
      && (c.deniedTools.Some? && x.action.tool.Some? ==> x.action.tool.value !in c.deniedTools.value)
      && (c.currency.Some? && c.currency.value != [] ==>
            x.parameters.Some? && x.parameters.value.currency == c.currency)
      && (c.allowedCounterparties.Some? && x.parameters.Some? && x.parameters.value.counterparty.Some? ==>
            x.parameters.value.counterparty.value in c.allowedCounterparties.value)
      && (c.maxActions.Some? && c.observedActions.Some? ==> c.observedActions.value < c.maxActions.value)
      && (c.maxValue.Some? ==> ValueOf(x) <= c.maxValue.value)
      && (c.requiresApproval ==> x.action.approval.Some? && x.action.approval.value != [])
      && (c.requiresApprovalAbove.Some? && ValueOf(x) > c.requiresApprovalAbove.value ==>
            x.action.approval.Some? && x.action.approval.value != [])
  {
    hide AllowBefore, HasSignature, OutsideWindow, SubdelegationAllows, PolicyMatches, ValueOf;
    assert PolicyHolds(x, x.action.issuedAt.value, depth);
  }

  /** A matching deny anywhere in the chain rejects the action. */
  lemma DenyWins(x: Input, depth: nat)
    requires depth < |x.chain| && FromAgent(x.chain, depth).effect == Deny &&
        PolicyMatches(FromAgent(x.chain, depth), x.action)
    ensures !Authorized(x)
  {
    if ActionHolds(x) { assert !PolicyHolds(x, x.action.issuedAt.value, depth); }
  }

  /** For chains of allow policies, in chain order: policy i stands |chain|-1-i steps from the agent. */
  ghost predicate AllowChainHolds(x: Input) {
    var n := |x.chain|;
    && ActionHolds(x)
    && x.chain[n - 1].delegate == x.action.agent
    && (forall i | 0 <= i < n - 1 :: LinkHolds(x.chain, i))
    && (forall i | 0 <= i < n - 1 :: SubdelegationAllows(x.chain[i], n - 1 - i, x.action.name))
    && (forall i | 0 <= i < n :: OwnChecks(x, x.chain[i]))
  }

  /** Policy i delegates to the principal of the next, and is the parent it names, if it names one. */
  ghost predicate LinkHolds(chain: seq<Policy>, i: int)
    requires 0 <= i < |chain| - 1
  {
    && chain[i].delegate == chain[i + 1].principal
    && (chain[i + 1].parent.Some? ==> chain[i].id == chain[i + 1].parent.value)
  }

  /** What is asked of an allow policy by itself. */
  ghost predicate OwnChecks(x: Input, p: Policy) {
    && HasSignature(x, p)
    && p.id !in x.revokedIds && p.pointer !in x.revokedPointers
    && (x.action.issuedAt.Some? ==> !OutsideWindow(p, x.action.issuedAt.value))
    && PolicyMatches(p, x.action)
    && ConstraintsHold(x, p.constraints)
    && (p.constraints.maxValue.Some? ==> ValueOf(x) <= p.constraints.maxValue.value)
    && (NeedsApproval(x, p.constraints) ==> Truthy(x.action.approval))
  }

  lemma AllowChains(x: Input)
    requires forall p | p in x.chain :: p.effect == Allow
    ensures Authorized(x) <==> AllowChainHolds(x)
  {
    if ActionHolds(x) {
      var at, n := x.action.issuedAt.value, |x.chain|;
      forall d: nat | d < n
        ensures PolicyHolds(x, at, d) <==> AllowHoldsAt(x, n - 1 - d)
      {
        AllowHoldsAtPlace(x, at, d);
      }
      AllowInChainOrder(x, at);
    }
  }

  /** `PolicyHolds` for an allow chain, at a place counted from the principal. */
  ghost predicate AllowHoldsAt(x: Input, i: int)
    requires 0 <= i < |x.chain|
  {
    var n := |x.chain|;
    && OwnChecks(x, x.chain[i])
    && (if i == n - 1 then x.chain[i].delegate == x.action.agent
        else LinkHolds(x.chain, i) && SubdelegationAllows(x.chain[i], n - 1 - i, x.action.name))
  }

  lemma AllowHoldsAtPlace(x: Input, at: int, d: nat)
    requires forall p | p in x.chain :: p.effect == Allow
    requires d < |x.chain| && x.action.issuedAt == Some(at)
    ensures PolicyHolds(x, at, d) <==> AllowHoldsAt(x, |x.chain| - 1 - d)
  {
    hide HasSignature, OutsideWindow, SubdelegationAllows, ConstraintsHold, PolicyMatches, NeedsApproval, ValueOf,
        Truthy;
    assert FromAgent(x.chain, d) in x.chain;
    if d > 0 {
      assert FromAgent(x.chain, d - 1) in x.chain;
      assert AllowBefore(x.chain, d) == Some(FromAgent(x.chain, d - 1));
    }
  }

  lemma AllowInChainOrder(x: Input, at: int)
    requires ActionHolds(x) && x.action.issuedAt == Some(at)
    requires forall d: nat | d < |x.chain| :: PolicyHolds(x, at, d) <==> AllowHoldsAt(x, |x.chain| - 1 - d)
    ensures Authorized(x) <==> AllowChainHolds(x)
  {
    hide PolicyHolds, OwnChecks, SubdelegationAllows, ValueOf, LinkHolds, AllowHoldsAt;
    var n := |x.chain|;
    AllPlaces(x);
    if forall d: nat | d < n :: PolicyHolds(x, at, d) {
      forall i | 0 <= i < n ensures AllowHoldsAt(x, i) {
        var d: nat := n - 1 - i;
        assert PolicyHolds(x, at, d);
      }
    }
    if forall i | 0 <= i < n :: AllowHoldsAt(x, i) {
      forall d: nat | d < n ensures PolicyHolds(x, at, d) {
        assert AllowHoldsAt(x, n - 1 - d);
      }
    }
  }

  lemma AllPlaces(x: Input)
    requires ActionHolds(x)
    ensures AllowChainHolds(x) <==> forall i | 0 <= i < |x.chain| :: AllowHoldsAt(x, i)
  {
    hide OwnChecks, SubdelegationAllows, ValueOf, LinkHolds;
    var n := |x.chain|;
    if forall i | 0 <= i < n :: AllowHoldsAt(x, i) {
      assert AllowHoldsAt(x, n - 1);
      forall i | 0 <= i < n - 1
        ensures LinkHolds(x.chain, i) && SubdelegationAllows(x.chain[i], n - 1 - i, x.action.name)
      {
        assert AllowHoldsAt(x, i);
      }
      forall i | 0 <= i < n ensures OwnChecks(x, x.chain[i]) {
        assert AllowHoldsAt(x, i);
      }
    }
  }

  // ---------- Chains with other policies ----------

  ghost predicate AllowAt(chain: seq<Policy>, i: nat) {
    i < |chain| && chain[i].effect == Allow
  }

  /** Places of matching allow policies, in chain order, each delegating to the principal of the next and the
      last one to the agent. */
  ghost predicate LeadsToAgent(x: Input, path: seq<nat>) {
    && path != []
    && (forall i | 0 <= i < |path| :: AllowAt(x.chain, path[i]) && PolicyMatches(x.chain[path[i]], x.action))
    && (forall i | 0 <= i < |path| - 1 :: LinkedAt(x.chain, path, i))
    && AllowAt(x.chain, path[|path| - 1]) && x.chain[path[|path| - 1]].delegate == x.action.agent
  }

  ghost predicate LinkedAt(chain: seq<Policy>, path: seq<nat>, i: nat) {
    && i + 1 < |path| && path[i] < path[i + 1] < |chain|
    && chain[path[i]].delegate == chain[path[i + 1]].principal
  }

  /** The action's principal has allowed it, step by step down to the agent. */
  ghost predicate AllowedByPrincipal(x: Input) {
    exists path :: LeadsToAgent(x, path) && x.chain[path[0]].principal == x.action.principal
  }

  lemma {:induction false} AllowBeforeIs(chain: seq<Policy>, depth: nat) returns (d: nat)
    requires depth <= |chain| && AllowBefore(chain, depth).Some?
    ensures d < depth && FromAgent(chain, d) == AllowBefore(chain, depth).value && FromAgent(chain, d).effect == Allow
  {
    if FromAgent(chain, depth - 1).effect == Allow {
      d := depth - 1;
    } else {
      d := AllowBeforeIs(chain, depth - 1);
    }
  }

  /** In an accepted chain every allow policy leads down to the agent. */
  lemma {:induction false} AllowLeadsDown(x: Input, depth: nat) returns (path: seq<nat>)
    requires Authorized(x) && depth < |x.chain| && FromAgent(x.chain, depth).effect == Allow
    ensures LeadsToAgent(x, path) && path[0] == |x.chain| - 1 - depth
    decreases depth
  {
    hide HasSignature, OutsideWindow, SubdelegationAllows, ConstraintsHold, PolicyMatches, NeedsApproval, ValueOf;
    assert PolicyHolds(x, x.action.issuedAt.value, depth);
    var place: nat := |x.chain| - 1 - depth;
    if AllowBefore(x.chain, depth).None? {
      path := [place];
    } else {
      var d := AllowBeforeIs(x.chain, depth);
      var rest := AllowLeadsDown(x, d);
      path := [place] + rest;
      StepsDown(x, place, rest);
    }
  }

  lemma StepsDown(x: Input, place: nat, rest: seq<nat>)
    requires LeadsToAgent(x, rest) && place < rest[0]
    requires AllowAt(x.chain, place) && PolicyMatches(x.chain[place], x.action)
    requires x.chain[place].delegate == x.chain[rest[0]].principal
    ensures LeadsToAgent(x, [place] + rest)
  {
    hide PolicyMatches;
    var path := [place] + rest;
    forall i | 0 <= i < |path| - 1 ensures LinkedAt(x.chain, path, i) {
      if i > 0 { assert LinkedAt(x.chain, rest, i - 1); }
    }
  }

  /** Acceptance means that the action's principal allowed it if and only if some allow policy of the chain
      is the principal's own. */
  lemma AcceptedAndAllowed(x: Input)
    requires Authorized(x)
    ensures AllowedByPrincipal(x) <==> exists i: nat ::
        AllowAt(x.chain, i) && x.chain[i].principal == x.action.principal
  {
    hide Authorized, PolicyMatches;
    if i: nat :| AllowAt(x.chain, i) && x.chain[i].principal == x.action.principal {
      var path := AllowLeadsDown(x, |x.chain| - 1 - i);
      assert x.chain[path[0]].principal == x.action.principal;
    }
  }

  // Two accepted actions that their principal has not allowed.

  const PRINCIPAL: Text := [0x70]
  const MIDDLE: Text := [0x6d]
  const AGENT: Text := [0x61]

  function SamplePolicy(principal: Text, delegate: Text, effect: Effect, actions: seq<Text>): Policy {
    Policy([], principal, delegate, effect, actions, [STAR],
           Constraints(None, None, None, None, None, None, None, false, None), None, None, None, None, [])
  }

  /** Every key there and every signature good. */
  function SampleInput(chain: seq<Policy>): Input {
    Input(Action(AGENT, PRINCIPAL, [0x78], [0x79], None, Some(0), [], None, None), chain,
          map[PRINCIPAL := [0x6b], MIDDLE := [0x6b], AGENT := [0x6b]],
          key => true, (key, p) => true, c => [], {}, {}, None, true)
  }

  /** A chain of one deny policy that does not match is accepted. */
  lemma OnlyDenyAccepted()
    ensures var x := SampleInput([SamplePolicy(PRINCIPAL, AGENT, Deny, [])]);
      Authorized(x) && !AllowedByPrincipal(x) && Collected(x, 1).actions == []
  {
    var x := SampleInput([SamplePolicy(PRINCIPAL, AGENT, Deny, [])]);
    assert ActionHolds(x);
    assert forall depth: nat | depth < 1 :: PolicyHolds(x, 0, depth);
    AcceptedAndAllowed(x);
  }

  /** So is a deny of the principal that does not match, followed by an allow of its delegate. */
  lemma DelegateAloneAccepted()
    ensures var deny, allow := SamplePolicy(PRINCIPAL, MIDDLE, Deny, []), SamplePolicy(MIDDLE, AGENT, Allow, [STAR]);
      var x := SampleInput([deny, allow]);
      Authorized(x) && !AllowedByPrincipal(x)
  {
    var x := SampleInput([SamplePolicy(PRINCIPAL, MIDDLE, Deny, []), SamplePolicy(MIDDLE, AGENT, Allow, [STAR])]);
    assert ActionHolds(x);
    assert ResourceMatches([STAR][0], x.action.resource);
    assert AllowBefore(x.chain, 1) == Some(x.chain[1]);
    assert PolicyHolds(x, 0, 0) && PolicyHolds(x, 0, 1);
    assert forall depth: nat | depth < 2 :: PolicyHolds(x, 0, depth);
    AcceptedAndAllowed(x);
  }
}
