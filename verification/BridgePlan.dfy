/** The two validators a language-model plan passes: the host's, on JSON, and the guest's, on
    typed values. Whatever the host lets through under the guest's allow list, the guest accepts. */
module BridgePlan {
  import opened Basics
  import opened Agent
  import opened Unicode

  // ----- JSON values, as Python sees them

  /** `Lone` is a string with an unpaired surrogate: a string, but without a UTF-8 form. */
  datatype Json = Null | Bool(b: bool) | Number(n: int) | Str(s: string) | Lone | List(items: seq<Json>) | Obj(fields: map<string, Json>)

  predicate IsText(j: Json) { j.Str? || j.Lone? }

  // ----- the host's validator

  datatype Contract = Contract(intent: string, risk: string, args: nat)

  const NAMES: seq<string> := [
    "list_files", "read_file", "write_file", "stat_file", "delete_file",
    "show_history", "show_version", "show_ticks", "show_memory_map"]

  /** What each known action must come with; `None` for anything else. */
  function ContractFor(action: string): Option<Contract>
  {
    if action == "read_file" || action == "stat_file" then Some(Contract(action, "safe", 1))
    else if action == "write_file" || action == "delete_file" then Some(Contract(action, "risky", 1))
    else if action in NAMES then Some(Contract(action, "safe", 0))
    else None
  }

  datatype Verdict = Accept(plan: map<string, Json>) | Reject

  /** The allow list of a request, if it is well-formed. */
  function AllowList(request: Json): Option<seq<string>>
  {
    if !request.Obj? || "allowedActions" !in request.fields then None else
    var list := request.fields["allowedActions"];
    if !list.List? || exists i :: 0 <= i < |list.items| && !(list.items[i].Str? && ContractFor(list.items[i].s).Some?) then None
    else Some(seq(|list.items|, i requires 0 <= i < |list.items| => list.items[i].s))
  }

  const FIELDS := {"intent", "action", "args", "risk", "explanation"}
  const REQUIRED := {"intent", "action", "risk"}

  function Args(response: map<string, Json>): Json
  {
    if "args" in response then response["args"] else List([])
  }

  predicate GoodArgument(a: Json) { a.Str? && a.s != [] && EncodedSize(a.s) <= MAX_NAME }

  predicate GoodExplanation(response: map<string, Json>)
  {
    "explanation" in response ==> response["explanation"].Str? && EncodedSize(response["explanation"].s) <= 256
  }

  /** `validate_provider_plan`. */
  function ValidateProviderPlan(request: Json, response: Json): Verdict
  {
    var allowed := AllowList(request);
    if allowed.None? then Reject
    else if !response.Obj? then Reject
    else
      var r := response.fields;
      if !(r.Keys <= FIELDS) || !(REQUIRED <= r.Keys) then Reject
      else
        var intent, action, risk, args := r["intent"], r["action"], r["risk"], Args(r);
        if !IsText(intent) || !IsText(action) || !IsText(risk) then Reject
        else if !args.List? || exists i :: 0 <= i < |args.items| && !IsText(args.items[i])
        then Reject
        else if !GoodExplanation(r) then Reject
        else if action == Str("unknown") then
          if intent != Str("unknown") || risk != Str("safe") || args.items != [] then Reject
          else Accept(r["args" := args])
        else if !action.Str? || action.s !in allowed.value then Reject
        else if ContractFor(action.s).None? then Reject
        else
          var c := ContractFor(action.s).value;
          if intent != Str(c.intent) || risk != Str(c.risk) then Reject
          else if |args.items| != c.args then Reject
          else if exists i :: 0 <= i < |args.items| && !GoodArgument(args.items[i]) then Reject
          else Accept(r["args" := args])
  }

  // ----- the guest's planner

  datatype BridgeResponse = BridgeResponse(intent: u8, action: u8, risk: u8, target: seq<byte>, targetLen: int)

  const GUEST_ALLOWED: seq<u8> := [
    LIST_FILES, READ_FILE, STAT_FILE, DELETE_FILE, SHOW_HISTORY, SHOW_VERSION, SHOW_TICKS, SHOW_MEMORY_MAP]

  predicate Allows(kind: u8) { kind in GUEST_ALLOWED }

  function BridgeIntent(kind: u8): u8 { if Allows(kind) then kind else UNKNOWN }

  /** The plan `LLMPlanner.Plan` returns for a bridge response, or why it refuses. */
  function GuestPlan(b: BridgeResponse): Result
  {
    if !Allows(b.action) then Refused(UnsupportedPlan)
    else if BridgeIntent(b.action) != b.intent then Refused(PlannerFailed)
    else
      var plan := SingleAction(LLM, b.intent, b.action, b.risk, []);
      var filled := plan.(actions := plan.actions[0 := plan.actions[0].(target := b.target, targetLen := b.targetLen)]);
      if Validate(filled) != OK then Refused(Validate(filled)) else Planned(filled)
  }

  datatype Result = Planned(plan: Plan) | Refused(why: Message)

  // ----- from one to the other

  function KindOf(name: string): u8
  {
    match name
    case "list_files" => LIST_FILES
    case "read_file" => READ_FILE
    case "write_file" => WRITE_FILE
    case "stat_file" => STAT_FILE
    case "delete_file" => DELETE_FILE
    case "show_history" => SHOW_HISTORY
    case "show_version" => SHOW_VERSION
    case "show_ticks" => SHOW_TICKS
    case "show_memory_map" => SHOW_MEMORY_MAP
    case _ => UNKNOWN
  }

  function RiskOf(name: string): u8 { if name == "safe" then SAFE else if name == "risky" then RISKY else 255 }

  /** The accepted plan as typed values: names to numbers, the argument as its UTF-8 bytes. */
  function Mapped(plan: map<string, Json>): BridgeResponse
  {
    var text := (j: Json) => if j.Str? then j.s else "";
    var field := (k: string) => if k in plan then text(plan[k]) else "";
    var args := Args(plan);
    var target := if args.List? && |args.items| > 0 then Encoded(text(args.items[0])) else [];
    BridgeResponse(KindOf(field("intent")), KindOf(field("action")), RiskOf(field("risk")), target, |target|)
  }

  /** The allow list the guest sends, in words. */
  const GUEST_NAMES: seq<string> := [
    "list_files", "read_file", "stat_file", "delete_file",
    "show_history", "show_version", "show_ticks", "show_memory_map"]

  predicate FromGuest(request: Json)
  {
    AllowList(request) == Some(GUEST_NAMES)
  }

  lemma GuestNamesAreAllowed(name: string)
    requires name in GUEST_NAMES
    ensures Allows(KindOf(name)) && ContractFor(name).Some?
    ensures ContractFor(name).value.intent == name
    ensures RiskOf(ContractFor(name).value.risk) == ActionRisk(KindOf(name))
    ensures ContractFor(name).value.args == if RequiresTarget(KindOf(name)) then 1 else 0
  {}

  /** The guest accepts a mapped response exactly when its kind is allowed and matches its intent and
      risk, and its target fits and is there if needed. */
  lemma GuestAccepts(b: BridgeResponse)
    ensures GuestPlan(b).Planned? <==>
              Allows(b.action) && b.intent == b.action && b.risk == ActionRisk(b.action)
              && 0 <= b.targetLen <= MAX_NAME && (RequiresTarget(b.action) ==> b.targetLen > 0)
  {
    if Allows(b.action) && b.intent == b.action {
      var plan := SingleAction(LLM, b.intent, b.action, b.risk, []);
      var filled := plan.(actions := plan.actions[0 := plan.actions[0].(target := b.target, targetLen := b.targetLen)]);
      CheckedFrom(filled, 0);
    }
  }

  /** The plan it makes of it: one action, with the kind, risk and target of the response. */
  lemma GuestPlanIs(b: BridgeResponse)
    requires GuestPlan(b).Planned?
    ensures var p := GuestPlan(b).plan;
            && FixedSize(p) && p.planner == LLM && p.intent == b.intent && p.actionCount == 1
            && p.actions[0] == Action(b.action, b.risk, b.target, b.targetLen, 0)
  {
    hide Validate;
  }

  /** The names the guest prints for the numbers of kinds. */
  const KIND_NAMES: seq<string> := [
    "none", "list_files", "read_file", "write_file", "delete_file", "stat_file", "show_help",
    "show_history", "show_version", "show_ticks", "show_memory_map", "set_mode"]

  /** A name the host knows becomes the number the guest prints that name for. */
  lemma KindsArePrinted(name: string)
    requires name in NAMES
    ensures KindOf(name) < |KIND_NAMES| && KIND_NAMES[KindOf(name)] == name
  {}

  /** Whatever the host accepts under the guest's allow list, other than "unknown", the guest accepts too. */
  lemma HostAcceptsImpliesGuestAccepts(request: Json, response: Json)
    requires FromGuest(request) && ValidateProviderPlan(request, response).Accept?
    requires ValidateProviderPlan(request, response).plan["action"] != Str("unknown")
    ensures GuestPlan(Mapped(ValidateProviderPlan(request, response).plan)).Planned?
  {
    hide KindOf, RiskOf, Allows, ContractFor, GuestPlan, Encoded, EncodedSize;
    var v := ValidateProviderPlan(request, response).plan;
    var name := v["action"].s;
    GuestNamesAreAllowed(name);
    var args := Args(v).items;
    if |args| == 1 { SizeOfEncoded(args[0].s); }
    GuestAccepts(Mapped(v));
  }

  // ----- exactly where the two validators differ

  /** The shape the host asks of any response: the right fields, texts, a list of texts. */
  predicate WellShaped(response: Json)
  {
    && response.Obj? && REQUIRED <= response.fields.Keys <= FIELDS
    && IsText(response.fields["intent"]) && IsText(response.fields["action"]) && IsText(response.fields["risk"])
    && Args(response.fields).List? && (forall i :: 0 <= i < |Args(response.fields).items| ==> IsText(Args(response.fields).items[i]))
    && GoodExplanation(response.fields)
  }

  /** The host's way of saying that no action fits. */
  predicate SaysUnknown(r: map<string, Json>)
  {
    && "intent" in r && r["intent"] == Str("unknown") && "risk" in r && r["risk"] == Str("safe") && Args(r) == List([])
  }

  /** As many arguments as the action needs. */
  predicate RightArity(r: map<string, Json>)
    requires "action" in r && Args(r).List?
  {
    |Args(r).items| == if r["action"].Str? && RequiresTarget(KindOf(r["action"].s)) then 1 else 0
  }

  lemma KindsAreNames(name: string, other: string)
    ensures Allows(KindOf(name)) <==> name in GUEST_NAMES
    ensures name in GUEST_NAMES ==> (KindOf(other) == KindOf(name) <==> other == name)
  {}

  lemma RisksAreNames(name: string, risk: string)
    requires name in GUEST_NAMES
    ensures ContractFor(name).Some?
    ensures RiskOf(risk) == ActionRisk(KindOf(name)) <==> risk == ContractFor(name).value.risk
  {}

  /** An argument the host refuses is one the guest refuses, if the action needs it. */
  lemma ArgumentsAgree(a: Json)
    ensures var target := Encoded(if a.Str? then a.s else "");
            GoodArgument(a) <==> 0 < |target| <= MAX_NAME
  {
    if a.Str? { SizeOfEncoded(a.s); }
  }

  /** What the host asks of a named action. */
  lemma HostAcceptsNamed(request: Json, r: map<string, Json>)
    requires FromGuest(request) && WellShaped(Obj(r)) && r["action"] != Str("unknown")
    ensures ValidateProviderPlan(request, Obj(r)).Accept? <==>
              && r["action"].Str? && r["action"].s in GUEST_NAMES && r["intent"] == r["action"]
              && ContractFor(r["action"].s).Some? && r["risk"] == Str(ContractFor(r["action"].s).value.risk)
              && RightArity(r) && (|Args(r).items| > 0 ==> GoodArgument(Args(r).items[0]))
  {
    hide KindOf, RiskOf, Allows, ContractFor, GoodArgument, GoodExplanation, RequiresTarget;
    if r["action"].Str? && r["action"].s in GUEST_NAMES { GuestNamesAreAllowed(r["action"].s); }
  }

  /** What the host asks of a named action, for any allow list: that it is on it, that the intent is the same name, that
      it is called risky if it writes or deletes and safe otherwise, and one good argument for the actions that take a
      file and none for the others. */
  lemma HostAcceptsExactly(request: Json, r: map<string, Json>)
    requires WellShaped(Obj(r)) && r["action"] != Str("unknown")
    ensures ValidateProviderPlan(request, Obj(r)).Accept? <==>
              && AllowList(request).Some? && r["action"].Str? && r["action"].s in AllowList(request).value && r["action"].s in NAMES
              && r["intent"] == r["action"]
              && r["risk"] == Str(if r["action"].s == "write_file" || r["action"].s == "delete_file" then "risky" else "safe")
              && |Args(r).items| == (if r["action"].s in ["read_file", "write_file", "stat_file", "delete_file"] then 1 else 0)
              && (|Args(r).items| > 0 ==> GoodArgument(Args(r).items[0]))
  {
    hide GoodArgument, GoodExplanation, AllowList, ContractFor;
    if r["action"].Str? { ContractIs(r["action"].s); }
  }

  lemma ContractIs(name: string)
    ensures ContractFor(name).Some? <==> name in NAMES
    ensures ContractFor(name).Some? ==>
              ContractFor(name).value == Contract(name, if name == "write_file" || name == "delete_file" then "risky" else "safe",
                                                  if name in ["read_file", "write_file", "stat_file", "delete_file"] then 1 else 0)
  {}

  /** What the guest asks of a named action. */
  lemma GuestAcceptsNamed(r: map<string, Json>)
    requires WellShaped(Obj(r)) && RightArity(r)
    ensures GuestPlan(Mapped(r)).Planned? <==>
              && r["action"].Str? && r["action"].s in GUEST_NAMES && r["intent"] == r["action"]
              && ContractFor(r["action"].s).Some? && r["risk"] == Str(ContractFor(r["action"].s).value.risk)
              && (|Args(r).items| > 0 ==> GoodArgument(Args(r).items[0]))
  {
    hide KindOf, RiskOf, Allows, ContractFor, GuestPlan, Encoded, GoodArgument, GoodExplanation, ActionRisk, RequiresTarget;
    var b := Mapped(r);
    GuestAccepts(b);
    var args := Args(r).items;
    if |args| > 0 { ArgumentsAgree(args[0]); }
    var name := if r["action"].Str? then r["action"].s else "";
    var intent := if r["intent"].Str? then r["intent"].s else "";
    var risk := if r["risk"].Str? then r["risk"].s else "";
    assert b.action == KindOf(name) && b.intent == KindOf(intent) && b.risk == RiskOf(risk);
    KindsAreNames(name, intent);
    if name in GUEST_NAMES {
      GuestNamesAreAllowed(name);
      RisksAreNames(name, risk);
      RisksAreTexts(name);
    }
  }

  lemma RisksAreTexts(name: string)
    requires name in GUEST_NAMES
    ensures name != "" && ContractFor(name).Some? && ContractFor(name).value.risk != ""
  {}

  /** For a well-shaped response with a named action, the host accepts exactly when the guest does and
      the number of arguments is right. */
  lemma NamedActionsAgree(request: Json, r: map<string, Json>)
    requires FromGuest(request) && WellShaped(Obj(r)) && r["action"] != Str("unknown")
    ensures ValidateProviderPlan(request, Obj(r)).Accept? <==> GuestPlan(Mapped(r)).Planned? && RightArity(r)
  {
    hide ContractFor, GuestPlan, GoodArgument, GoodExplanation, RightArity, ValidateProviderPlan, Mapped;
    HostAcceptsNamed(request, r);
    if RightArity(r) { GuestAcceptsNamed(r); }
  }

  /** Under the guest's allow list, the host accepts exactly the well-shaped responses that say
      "unknown" properly, or that the guest accepts and that have the right number of arguments. */
  lemma ValidatorsAgree(request: Json, response: Json)
    requires FromGuest(request)
    ensures ValidateProviderPlan(request, response).Accept? <==>
              && WellShaped(response)
              && if response.fields["action"] == Str("unknown") then SaysUnknown(response.fields)
                 else GuestPlan(Mapped(response.fields)).Planned? && RightArity(response.fields)
  {
    hide ContractFor, GuestPlan, Mapped, GoodArgument, GoodExplanation, RightArity;
    if WellShaped(response) && response.fields["action"] != Str("unknown") {
      NamedActionsAgree(request, response.fields);
    }
  }

  /** Accepting a response only fills in the missing list of arguments. */
  lemma AcceptedPlanIs(request: Json, response: Json)
    requires ValidateProviderPlan(request, response).Accept?
    ensures response.Obj? && ValidateProviderPlan(request, response).plan == response.fields["args" := Args(response.fields)]
  {
    hide ContractFor, GoodArgument, GoodExplanation, AllowList;
  }

  /** The plan of an accepted action, end to end: the guest ends up with one action of the kind it calls by the name in
      the response, risky exactly for a delete, and with the argument, if there is one, as UTF-8. */
  lemma AcceptedMeansTheSame(request: Json, response: Json) returns (p: Plan)
    requires FromGuest(request) && ValidateProviderPlan(request, response).Accept?
    requires ValidateProviderPlan(request, response).plan["action"] != Str("unknown")
    ensures GuestPlan(Mapped(ValidateProviderPlan(request, response).plan)) == Planned(p)
    ensures FixedSize(p) && p.planner == LLM && p.actionCount == 1 && p.intent == p.actions[0].kind
    ensures WellShaped(response) && response.fields["action"].Str?
    ensures p.actions[0].kind < |KIND_NAMES| && KIND_NAMES[p.actions[0].kind] == response.fields["action"].s
    ensures p.actions[0].risk == (if response.fields["action"].s == "delete_file" then RISKY else SAFE)
    ensures var args := Args(response.fields).items;
            if args == [] then p.actions[0].target == []
            else |args| == 1 && args[0].Str? && ReadAll(Codes(p.actions[0].target)) == Some(Points(args[0].s))
  {
    hide KindOf, RiskOf, Allows, ContractFor, GuestPlan, Encoded, GoodArgument, GoodExplanation, ActionRisk, RequiresTarget,
         ValidateProviderPlan, Codes, ReadAll, Points;
    var v := ValidateProviderPlan(request, response).plan;
    HostAcceptsImpliesGuestAccepts(request, response);
    AcceptedPlanIs(request, response);
    ValidatorsAgree(request, response);
    var r := response.fields;
    HostAcceptsNamed(request, r);
    var name := r["action"].s;
    NamedKind(name);
    KindsArePrinted(name);
    p := GuestPlan(Mapped(v)).plan;
    GuestPlanIs(Mapped(v));
    GuestAccepts(Mapped(v));
    var args := Args(r).items;
    if args != [] {
      GoodIsText(args[0]);
      EncodedReads(args[0].s);
    }
  }

  lemma NamedKind(name: string)
    requires name in GUEST_NAMES
    ensures name in NAMES
    ensures ActionRisk(KindOf(name)) == if name == "delete_file" then RISKY else SAFE
  {}

  lemma GoodIsText(a: Json)
    requires GoodArgument(a)
    ensures a.Str?
  {}

  /** An "unknown" answer is one the guest never turns into a plan. */
  lemma UnknownIsRefused(r: map<string, Json>)
    requires "action" in r && r["action"] == Str("unknown")
    ensures GuestPlan(Mapped(r)).Refused?
  {
    hide Encoded;
  }

  const SUPERFLUOUS: map<string, Json> :=
    map["intent" := Str("list_files"), "action" := Str("list_files"), "risk" := Str("safe"), "args" := List([Str("x")])]

  /** The guest ignores a target it does not need; the host refuses it. */
  lemma GuestIsLaxer(request: Json)
    requires FromGuest(request)
    ensures GuestPlan(Mapped(SUPERFLUOUS)).Planned? && ValidateProviderPlan(request, Obj(SUPERFLUOUS)).Reject?
  {
    hide ValidateProviderPlan, GuestPlan, Encoded, FromGuest;
    assert Args(SUPERFLUOUS) == List([Str("x")]);
    assert EncodedSize("x") == Utf8Size('x') + EncodedSize([]);
    SizeOfEncoded("x");
    GuestAccepts(Mapped(SUPERFLUOUS));
    NamedActionsAgree(request, SUPERFLUOUS);
  }
}
