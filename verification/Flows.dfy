/**
 * Chatbot flows (packages/shared-core/src/flows.ts): checking a stored definition, which is arbitrary JSON, and advancing a
 * session through its nodes, at most STEP_CAP of them at a time.
 */
module Flows {
  import opened Options
  import opened Text

  const FLOW_MAX_NODES := 50
  const MAX_TEXT := 1024
  const MAX_BRANCHES := 10
  const STEP_CAP := 10

  // ---------- definitions ----------

  datatype Branch = Branch(match_: string, next: string)

  datatype Node =
    | Message(text: string, next: Option<string>)
    | Question(text: string, branches: seq<Branch>, fallbackNext: Option<string>)
    | AddTag(tag: string, next: Option<string>)
    | AssignTeam(teamId: string, next: Option<string>)
    | End

  datatype Definition = Definition(start: string, nodes: map<string, Node>)

  // ---------- validation ----------

  datatype Field = Field(name: string, value: Json)

  datatype Json =
    | Undefined | Null | Bool(b: bool) | Num(r: real) | Str(s: string) | Arr(items: seq<Json>) | Obj(fields: seq<Field>)

  datatype Verdict = Valid | Invalid | Throws

  function Get(fields: seq<Field>, name: string): Json {
    if fields == [] then Undefined
    else if fields[0].name == name then fields[0].value
    else Get(fields[1..], name)
  }

  /** Reading a property of anything but null or undefined, none of whose own properties are asked for otherwise. */
  function Property(value: Json, name: string): Json {
    if value.Obj? then Get(value.fields, name) else Undefined
  }

  predicate Readable(value: Json) {
    !value.Null? && !value.Undefined?
  }

  predicate Filled(value: Json, max: nat) {
    value.Str? && Trim(value.s) != [] && |value.s| <= max
  }

  predicate TargetExists(ids: seq<string>, target: Json) {
    target.Str? && target.s in ids
  }

  predicate OptionalTarget(ids: seq<string>, target: Json) {
    target.Undefined? || TargetExists(ids, target)
  }

  /** /^[0-9a-f-]{36}$/i */
  predicate TeamUuid(value: Json) {
    value.Str? && |value.s| == 36
    && forall i :: 0 <= i < 36 ==> '0' <= value.s[i] <= '9' || 'a' <= LowerChar(value.s[i]) <= 'f' || value.s[i] == '-'
  }

  function BranchVerdict(ids: seq<string>, branch: Json): Verdict {
    if !Readable(branch) then Throws
    else if !Filled(Property(branch, "match"), 100) || !TargetExists(ids, Property(branch, "next")) then Invalid
    else Valid
  }

  function BranchesVerdict(ids: seq<string>, branches: seq<Json>): Verdict {
    if branches == [] then Valid
    else if BranchVerdict(ids, branches[0]) != Valid then BranchVerdict(ids, branches[0])
    else BranchesVerdict(ids, branches[1..])
  }

  function NodeVerdict(ids: seq<string>, node: Json): Verdict {
    if !Readable(node) then Throws
    else if Property(node, "type") == Str("message") then
      if Filled(Property(node, "text"), MAX_TEXT) && OptionalTarget(ids, Property(node, "next")) then Valid else Invalid
    else if Property(node, "type") == Str("question") then
      var branches := Property(node, "branches");
      if !Filled(Property(node, "text"), MAX_TEXT) then Invalid
      else if !branches.Arr? || branches.items == [] || |branches.items| > MAX_BRANCHES then Invalid
      else if BranchesVerdict(ids, branches.items) != Valid then BranchesVerdict(ids, branches.items)
      else if !OptionalTarget(ids, Property(node, "fallbackNext")) then Invalid
      else Valid
    else if Property(node, "type") == Str("add_tag") then
      if Filled(Property(node, "tag"), 100) && OptionalTarget(ids, Property(node, "next")) then Valid else Invalid
    else if Property(node, "type") == Str("assign_team") then
      if TeamUuid(Property(node, "teamId")) && OptionalTarget(ids, Property(node, "next")) then Valid else Invalid
    else if Property(node, "type") == Str("end") then Valid
    else Invalid
  }

  function NodesVerdict(ids: seq<string>, fields: seq<Field>): Verdict {
    if fields == [] then Valid
    else if NodeVerdict(ids, fields[0].value) != Valid then NodeVerdict(ids, fields[0].value)
    else NodesVerdict(ids, fields[1..])
  }

  function Ids(fields: seq<Field>): (ids: seq<string>)
    ensures |ids| == |fields|
  {
    seq(|fields|, i requires 0 <= i < |fields| => fields[i].name)
  }

  /** The first node or branch, in order, that is wrong decides; a null one makes the check itself throw. */
  function FlowVerdict(value: Json): Verdict {
    var nodes, start := Property(value, "nodes"), Property(value, "start");
    if !value.Obj? || !nodes.Obj? || nodes.fields == [] || |nodes.fields| > FLOW_MAX_NODES then Invalid
    else if !TargetExists(Ids(nodes.fields), start) then Invalid
    else NodesVerdict(Ids(nodes.fields), nodes.fields)
  }

  method ValidateBranches(ids: seq<string>, branches: seq<Json>) returns (v: Verdict)
    ensures v == BranchesVerdict(ids, branches)
  {
    for i := 0 to |branches|
      invariant BranchesVerdict(ids, branches) == BranchesVerdict(ids, branches[i..])
    {
      assert branches[i..][1..] == branches[i + 1..];
      v := BranchVerdict(ids, branches[i]);
      if v != Valid {
        return;
      }
    }
    v := Valid;
  }

  method ValidateFlowDefinition(value: Json) returns (v: Verdict)
    ensures v == FlowVerdict(value)
  {
    hide NodeVerdict;
    if !value.Obj? || !Property(value, "nodes").Obj? {
      return Invalid;
    }
    var fields := Property(value, "nodes").fields;
    var ids := Ids(fields);
    if |ids| == 0 || |ids| > FLOW_MAX_NODES || !TargetExists(ids, Property(value, "start")) {
      return Invalid;
    }
    for i := 0 to |fields|
      invariant NodesVerdict(ids, fields) == NodesVerdict(ids, fields[i..])
    {
      assert fields[i..][1..] == fields[i + 1..];
      var node := fields[i].value;
      if Readable(node) && Property(node, "type") == Str("question") {
        v := ValidateQuestion(ids, node);
      } else {
        v := NodeVerdict(ids, node);
      }
      if v != Valid {
        return;
      }
    }
    v := Valid;
  }

  method ValidateQuestion(ids: seq<string>, node: Json) returns (v: Verdict)
    requires Readable(node) && Property(node, "type") == Str("question")
    ensures v == NodeVerdict(ids, node)
  {
    var branches := Property(node, "branches");
    if !Filled(Property(node, "text"), MAX_TEXT) || !branches.Arr? || branches.items == [] {
      return Invalid;
    }
    if |branches.items| > MAX_BRANCHES {
      return Invalid;
    }
    v := ValidateBranches(ids, branches.items);
    if v == Valid && !OptionalTarget(ids, Property(node, "fallbackNext")) {
      v := Invalid;
    }
  }

  // ---------- what a valid definition is ----------

  function ReadTarget(value: Json): Option<string> {
    if value.Str? then Some(value.s) else None
  }

  function ReadText(value: Json): string {
    if value.Str? then value.s else ""
  }

  function ReadBranches(items: seq<Json>): (branches: seq<Branch>)
    ensures |branches| == |items|
  {
    seq(|items|, i requires 0 <= i < |items| =>
      Branch(ReadText(Property(items[i], "match")), ReadText(Property(items[i], "next"))))
  }

  /** How advanceFlow, which trusts its type, reads a stored node. */
  function ReadNode(node: Json): Node {
    var kind, text, next := Property(node, "type"), ReadText(Property(node, "text")), ReadTarget(Property(node, "next"));
    if kind == Str("message") then Message(text, next)
    else if kind == Str("question") then
      var branches := Property(node, "branches");
      Question(text, if branches.Arr? then ReadBranches(branches.items) else [], ReadTarget(Property(node, "fallbackNext")))
    else if kind == Str("add_tag") then AddTag(ReadText(Property(node, "tag")), next)
    else if kind == Str("assign_team") then AssignTeam(ReadText(Property(node, "teamId")), next)
    else End
  }

  function ReadFlow(value: Json): Definition {
    var nodes := Property(value, "nodes");
    Definition(ReadText(Property(value, "start")),
      if nodes.Obj? then map id | id in Ids(nodes.fields) :: ReadNode(Get(nodes.fields, id)) else map[])
  }

  predicate PointsInto(target: Option<string>, ids: set<string>) {
    target.Some? ==> target.value in ids
  }

  predicate NodeClosed(node: Node, ids: set<string>) {
    match node
    case Question(_, branches, fallback) =>
      && 1 <= |branches| <= MAX_BRANCHES && PointsInto(fallback, ids)
      && forall b :: b in branches ==> Trim(b.match_) != [] && b.next in ids
    case End => true
    case _ => PointsInto(node.next, ids)
  }

  /** Nowhere in the flow is there a way out of it. */
  predicate Closed(d: Definition) {
    && d.start in d.nodes && |d.nodes| <= FLOW_MAX_NODES
    && forall id :: id in d.nodes ==> NodeClosed(d.nodes[id], d.nodes.Keys)
  }

  lemma {:induction false} BranchesClosed(ids: seq<string>, items: seq<Json>, i: nat)
    requires BranchesVerdict(ids, items) == Valid && i < |items|
    ensures Trim(ReadBranches(items)[i].match_) != [] && ReadBranches(items)[i].next in ids
  {
    if i > 0 { BranchesClosed(ids, items[1..], i - 1); }
  }

  lemma NodeIsClosed(ids: seq<string>, node: Json)
    requires NodeVerdict(ids, node) == Valid
    ensures NodeClosed(ReadNode(node), set id | id in ids)
  {
    if Property(node, "type") == Str("question") {
      var items := Property(node, "branches").items;
      forall b | b in ReadBranches(items) ensures Trim(b.match_) != [] && b.next in ids {
        var i :| 0 <= i < |items| && ReadBranches(items)[i] == b;
        BranchesClosed(ids, items, i);
      }
    }
  }

  lemma {:induction false} NodeChecked(ids: seq<string>, fields: seq<Field>, id: string)
    requires NodesVerdict(ids, fields) == Valid && id in Ids(fields)
    ensures NodeVerdict(ids, Get(fields, id)) == Valid
  {
    hide NodeVerdict;
    if fields[0].name != id {
      var i :| 0 <= i < |fields| && Ids(fields)[i] == id;
      assert Ids(fields[1..])[i - 1] == id;
      NodeChecked(ids, fields[1..], id);
    }
  }

  lemma {:induction false} DistinctBound(ids: seq<string>)
    ensures |set id | id in ids| <= |ids|
  {
    if ids != [] {
      DistinctBound(ids[1..]);
      assert (set id | id in ids) == (set id | id in ids[1..]) + {ids[0]};
    }
  }

  /** What passes validation has a start, no dangling target, and only questions with branches. */
  lemma ValidIsClosed(value: Json)
    requires FlowVerdict(value) == Valid
    ensures Closed(ReadFlow(value))
  {
    hide NodeVerdict, NodeClosed, ReadNode, Get;
    var fields, d := Property(value, "nodes").fields, ReadFlow(value);
    var ids := Ids(fields);
    assert d.nodes.Keys == set id | id in ids;
    DistinctBound(ids);
    forall id | id in d.nodes ensures NodeClosed(d.nodes[id], d.nodes.Keys) {
      NodeChecked(ids, fields, id);
      NodeIsClosed(ids, Get(fields, id));
    }
  }

  // ---------- and every such definition is valid ----------

  /** An absent target is an absent property. */
  function WriteTarget(target: Option<string>): Json {
    if target.Some? then Str(target.value) else Undefined
  }

  function WriteBranches(branches: seq<Branch>): (items: seq<Json>)
    ensures |items| == |branches|
  {
    seq(|branches|, i requires 0 <= i < |branches| =>
      Obj([Field("match", Str(branches[i].match_)), Field("next", Str(branches[i].next))]))
  }

  function WriteNode(node: Node): Json {
    match node
    case Message(text, next) =>
      Obj([Field("type", Str("message")), Field("text", Str(text)), Field("next", WriteTarget(next))])
    case Question(text, branches, fallback) =>
      Obj([Field("type", Str("question")), Field("text", Str(text)), Field("branches", Arr(WriteBranches(branches))),
           Field("fallbackNext", WriteTarget(fallback))])
    case AddTag(tag, next) => Obj([Field("type", Str("add_tag")), Field("tag", Str(tag)), Field("next", WriteTarget(next))])
    case AssignTeam(id, next) =>
      Obj([Field("type", Str("assign_team")), Field("teamId", Str(id)), Field("next", WriteTarget(next))])
    case End => Obj([Field("type", Str("end"))])
  }

  function WriteFlow(d: Definition, ids: seq<string>): Json
    requires forall id :: id in ids ==> id in d.nodes
  {
    Obj([Field("start", Str(d.start)), Field("nodes", Obj(WriteNodes(d, ids)))])
  }

  function WriteNodes(d: Definition, ids: seq<string>): (fields: seq<Field>)
    requires forall id :: id in ids ==> id in d.nodes
    ensures |fields| == |ids|
  {
    seq(|ids|, i requires 0 <= i < |ids| => Field(ids[i], WriteNode(d.nodes[ids[i]])))
  }

  predicate WithinLimits(node: Node) {
    match node
    case Message(text, _) => Filled(Str(text), MAX_TEXT)
    case Question(text, branches, _) =>
      Filled(Str(text), MAX_TEXT) && forall b :: b in branches ==> Filled(Str(b.match_), 100)
    case AddTag(tag, _) => Filled(Str(tag), 100)
    case AssignTeam(id, _) => TeamUuid(Str(id))
    case End => true
  }

  lemma GetAt(fields: seq<Field>, i: nat)
    requires i < |fields| && forall k :: 0 <= k < i ==> fields[k].name != fields[i].name
    ensures Get(fields, fields[i].name) == fields[i].value
    decreases i
  {
    if i > 0 { GetAt(fields[1..], i - 1); }
  }

  lemma GetAll(value: Json)
    requires value.Obj? && forall j, k :: 0 <= j < k < |value.fields| ==> value.fields[j].name != value.fields[k].name
    ensures forall i :: 0 <= i < |value.fields| ==> Property(value, value.fields[i].name) == value.fields[i].value
  {
    forall i | 0 <= i < |value.fields| ensures Property(value, value.fields[i].name) == value.fields[i].value {
      GetAt(value.fields, i);
    }
  }

  lemma {:induction false} BranchesAccepted(ids: seq<string>, branches: seq<Branch>)
    requires forall b :: b in branches ==> Filled(Str(b.match_), 100) && b.next in ids
    ensures BranchesVerdict(ids, WriteBranches(branches)) == Valid
  {
    if branches != [] {
      BranchReadsBack(branches[0]);
      assert WriteBranches(branches)[1..] == WriteBranches(branches[1..]);
      BranchesAccepted(ids, branches[1..]);
    }
  }

  lemma BranchReadsBack(b: Branch)
    ensures var item := Obj([Field("match", Str(b.match_)), Field("next", Str(b.next))]);
      Property(item, "match") == Str(b.match_) && Property(item, "next") == Str(b.next)
  {
    GetAll(Obj([Field("match", Str(b.match_)), Field("next", Str(b.next))]));
    assert Obj([Field("match", Str(b.match_)), Field("next", Str(b.next))]).fields[1].name == "next";
  }

  lemma NodeRoundTrip(ids: seq<string>, node: Node)
    requires WithinLimits(node) && NodeClosed(node, set id | id in ids)
    ensures NodeVerdict(ids, WriteNode(node)) == Valid && ReadNode(WriteNode(node)) == node
  {
    hide Get, Filled, TeamUuid;
    var json := WriteNode(node);
    if node.Question? {
      QuestionRoundTrip(ids, node);
    } else {
      GetAll(json);
      assert json.fields[0].name == "type";
      match node {
        case Message(_, _) => assert json.fields[1].name == "text" && json.fields[2].name == "next";
        case AddTag(_, _) => assert json.fields[1].name == "tag" && json.fields[2].name == "next";
        case AssignTeam(_, _) => assert json.fields[1].name == "teamId" && json.fields[2].name == "next";
        case End =>
      }
    }
  }

  lemma QuestionRoundTrip(ids: seq<string>, node: Node)
    requires node.Question? && WithinLimits(node) && NodeClosed(node, set id | id in ids)
    ensures NodeVerdict(ids, WriteNode(node)) == Valid && ReadNode(WriteNode(node)) == node
  {
    hide Get, Filled, BranchesVerdict, ReadBranches, WriteBranches;
    var json := WriteNode(node);
    GetAll(json);
    assert json.fields[0].name == "type" && json.fields[1].name == "text";
    assert json.fields[2].name == "branches" && json.fields[3].name == "fallbackNext";
    BranchesAccepted(ids, node.branches);
    BranchesRoundTrip(node.branches);
  }

  lemma BranchesRoundTrip(branches: seq<Branch>)
    ensures ReadBranches(WriteBranches(branches)) == branches
  {
    forall i | 0 <= i < |branches| ensures ReadBranches(WriteBranches(branches))[i] == branches[i] {
      BranchReadsBack(branches[i]);
    }
  }

  lemma {:induction false} NodesAccepted(ids: seq<string>, fields: seq<Field>)
    requires forall f :: f in fields ==> NodeVerdict(ids, f.value) == Valid
    ensures NodesVerdict(ids, fields) == Valid
  {
    hide NodeVerdict;
    if fields != [] { NodesAccepted(ids, fields[1..]); }
  }

  /** Every definition with a start, no dangling target and texts within the limits is accepted and reads back as itself. */
  lemma FlowRoundTrip(d: Definition, ids: seq<string>)
    requires Closed(d) && forall id :: id in d.nodes ==> WithinLimits(d.nodes[id])
    requires (set id | id in ids) == d.nodes.Keys && forall j, k :: 0 <= j < k < |ids| ==> ids[j] != ids[k]
    ensures FlowVerdict(WriteFlow(d, ids)) == Valid && ReadFlow(WriteFlow(d, ids)) == d
  {
    hide Get, Property, NodeVerdict, NodesVerdict, NodeClosed, WithinLimits, WriteNode, ReadNode, WriteFlow;
    FlowFields(d, ids);
    var fields := WriteNodes(d, ids);
    DistinctCount(ids);
    forall i | 0 <= i < |ids|
      ensures NodeVerdict(ids, fields[i].value) == Valid && ReadNode(Get(fields, ids[i])) == d.nodes[ids[i]]
    {
      GetAt(fields, i);
      NodeRoundTrip(ids, d.nodes[ids[i]]);
    }
    NodesAccepted(ids, fields);
  }

  lemma FlowFields(d: Definition, ids: seq<string>)
    requires forall id :: id in ids ==> id in d.nodes
    ensures WriteFlow(d, ids).Obj? && Ids(WriteNodes(d, ids)) == ids
    ensures Property(WriteFlow(d, ids), "start") == Str(d.start)
    ensures Property(WriteFlow(d, ids), "nodes") == Obj(WriteNodes(d, ids))
  {
    hide Get, WriteNode;
    var value := WriteFlow(d, ids);
    GetAll(value);
    assert value.fields[0].name == "start" && value.fields[1].name == "nodes";
  }

  lemma {:induction false} DistinctCount(ids: seq<string>)
    requires forall j, k :: 0 <= j < k < |ids| ==> ids[j] != ids[k]
    ensures |set id | id in ids| == |ids|
  {
    if ids != [] {
      DistinctCount(ids[1..]);
      assert (set id | id in ids) == (set id | id in ids[1..]) + {ids[0]};
    }
  }

  // ---------- advancing ----------

  datatype Action = Send(text: string) | TagContact(tag: string) | HandToTeam(teamId: string)

  datatype Outcome = Waiting(node: string) | Done

  datatype Advance = Advance(actions: seq<Action>, outcome: Outcome)

  datatype Config = Config(cursor: Option<string>, reply: Option<string>, actions: seq<Action>)

  datatype Visit = Onward(c: Config) | Stops(result: Advance)

  function Normalized(s: string): string {
    Lower(Trim(s))
  }

  /** The first branch whose match equals the reply, case and surrounding space aside. */
  function FindBranch(branches: seq<Branch>, reply: string): Option<Branch> {
    if branches == [] then None
    else if Normalized(branches[0].match_) == Normalized(reply) then Some(branches[0])
    else FindBranch(branches[1..], reply)
  }

  /** What a flow means, one node at a time: a message, tag or hand-over goes on; a question waits unless it has a reply. */
  function Step(d: Definition, c: Config): Visit
    requires c.cursor.Some?
  {
    var id := c.cursor.value;
    if id !in d.nodes then Stops(Advance(c.actions, Done))
    else
      match d.nodes[id]
      case Message(text, next) => Onward(Config(next, c.reply, c.actions + [Send(text)]))
      case AddTag(tag, next) => Onward(Config(next, c.reply, c.actions + [TagContact(tag)]))
      case AssignTeam(team, next) => Onward(Config(next, c.reply, c.actions + [HandToTeam(team)]))
      case End => Stops(Advance(c.actions, Done))
      case Question(text, branches, fallback) =>
        if c.reply.None? then Stops(Advance(c.actions + [Send(text)], Waiting(id)))
        else
          var branch := FindBranch(branches, c.reply.value);
          if branch.Some? then Onward(Config(Some(branch.value.next), None, c.actions))
          else if fallback.Some? then Onward(Config(fallback, None, c.actions))
          else Stops(Advance(c.actions, Waiting(id)))
  }

  /** The flow's own run, with no cap: its result if it stops within `fuel` nodes. */
  function Run(d: Definition, c: Config, fuel: nat): Option<Advance>
    decreases fuel
  {
    if c.cursor.None? then Some(Advance(c.actions, Done))
    else if fuel == 0 then None
    else
      match Step(d, c)
      case Stops(result) => Some(result)
      case Onward(next) => Run(d, next, fuel - 1)
  }

  /** The actions of the first `fuel` nodes of a run that goes on beyond them. */
  function SoFar(d: Definition, c: Config, fuel: nat): seq<Action>
    decreases fuel
  {
    if c.cursor.None? || fuel == 0 then c.actions
    else
      match Step(d, c)
      case Stops(result) => result.actions
      case Onward(next) => SoFar(d, next, fuel - 1)
  }

  function Capped(d: Definition, c: Config): Advance {
    if Run(d, c, STEP_CAP).Some? then Run(d, c, STEP_CAP).value else Advance(SoFar(d, c, STEP_CAP), Done)
  }

  /** An empty id is falsy: the loop takes it for the end, and an empty fallback for none at all. */
  function Stripped(d: Definition): Definition {
    d.(nodes := map id | id in d.nodes && id != "" ::
      if EmptyFallback(d.nodes[id]) then d.nodes[id].(fallbackNext := None) else d.nodes[id])
  }

  predicate EmptyFallback(node: Node) {
    node.Question? && node.fallbackNext == Some("")
  }

  predicate Truthy(cursor: Option<string>) {
    cursor.Some? && cursor.value != ""
  }

  /** What advancing a session computes, and what the flow means by it. */
  function Computed(d: Definition, node: string, reply: Option<string>): Advance {
    Capped(Stripped(d), Config(Some(node), reply, []))
  }

  function Meant(d: Definition, node: string, reply: Option<string>): Advance {
    Capped(d, Config(Some(node), reply, []))
  }

  lemma {:induction false} FoundIsIn(branches: seq<Branch>, reply: string)
    ensures FindBranch(branches, reply).Some? ==> FindBranch(branches, reply).value in branches
  {
    if branches != [] { FoundIsIn(branches[1..], reply); }
  }

  /** A reply takes the first branch it matches, and none only when it matches none. */
  lemma {:induction false} FirstMatchWins(branches: seq<Branch>, reply: string, i: nat)
    requires i < |branches| && forall j :: 0 <= j < i ==> Normalized(branches[j].match_) != Normalized(reply)
    ensures Normalized(branches[i].match_) == Normalized(reply) ==> FindBranch(branches, reply) == Some(branches[i])
    ensures FindBranch(branches, reply) == None ==> Normalized(branches[i].match_) != Normalized(reply)
  {
    hide Normalized;
    if i > 0 { FirstMatchWins(branches[1..], reply, i - 1); }
  }

  /** The i-th branch is the first that the reply matches, letter case and surrounding white space aside. */
  predicate FirstMatch(branches: seq<Branch>, reply: string, i: int) {
    && 0 <= i < |branches| && Lower(Trim(branches[i].match_)) == Lower(Trim(reply))
    && forall j :: 0 <= j < i ==> Lower(Trim(branches[j].match_)) != Lower(Trim(reply))
  }

  /**
   * What a flow does at a question: unasked, it asks and waits; answered, it goes on without the answer at the first branch
   * that matches, else at the fallback, else waits on in silence.
   */
  lemma QuestionExactly(d: Definition, id: string, actions: seq<Action>, reply: string, fuel: nat)
    requires id in d.nodes && d.nodes[id].Question?
    ensures Run(d, Config(Some(id), None, actions), fuel + 1) ==
      Some(Advance(actions + [Send(d.nodes[id].text)], Waiting(id)))
    ensures forall i :: FirstMatch(d.nodes[id].branches, reply, i) ==>
      Run(d, Config(Some(id), Some(reply), actions), fuel + 1) ==
      Run(d, Config(Some(d.nodes[id].branches[i].next), None, actions), fuel)
    ensures (forall i :: !FirstMatch(d.nodes[id].branches, reply, i)) ==>
      Run(d, Config(Some(id), Some(reply), actions), fuel + 1) ==
      if d.nodes[id].fallbackNext.Some? then Run(d, Config(d.nodes[id].fallbackNext, None, actions), fuel)
      else Some(Advance(actions, Waiting(id)))
  {
    hide Run, Trim, FirstMatch, FindBranch;
    var branches := d.nodes[id].branches;
    FoundFirst(branches, reply);
    RunOnce(d, Config(Some(id), None, actions), fuel);
    RunOnce(d, Config(Some(id), Some(reply), actions), fuel);
    forall i | FirstMatch(branches, reply, i)
      ensures 0 <= i < |branches| && FindBranch(branches, reply) == Some(branches[i])
    {
      MatchIsFound(branches, reply, i);
    }
  }

  lemma RunOnce(d: Definition, c: Config, fuel: nat)
    requires c.cursor.Some?
    ensures Step(d, c).Stops? ==> Run(d, c, fuel + 1) == Some(Step(d, c).result)
    ensures Step(d, c).Onward? ==> Run(d, c, fuel + 1) == Run(d, Step(d, c).c, fuel)
  {
  }

  lemma MatchIsFound(branches: seq<Branch>, reply: string, i: int)
    requires FirstMatch(branches, reply, i)
    ensures 0 <= i < |branches| && FindBranch(branches, reply) == Some(branches[i])
  {
    FirstMatchWins(branches, reply, i);
  }

  lemma {:induction false} FoundFirst(branches: seq<Branch>, reply: string)
    ensures FindBranch(branches, reply).Some? ==> exists i :: FirstMatch(branches, reply, i)
  {
    if branches != [] && FindBranch(branches, reply).Some? {
      if Lower(Trim(branches[0].match_)) == Lower(Trim(reply)) {
        assert FirstMatch(branches, reply, 0);
      } else {
        FoundFirst(branches[1..], reply);
        var i :| FirstMatch(branches[1..], reply, i);
        assert forall j :: 0 < j <= i + 1 ==> branches[j] == branches[1..][j - 1];
        assert FirstMatch(branches, reply, i + 1);
      }
    }
  }

  /** What it does anywhere else: it acts and goes on, keeping a reply for the next question; an end or no node ends it. */
  lemma NodeRunsExactly(d: Definition, id: string, reply: Option<string>, actions: seq<Action>, fuel: nat)
    ensures id !in d.nodes || d.nodes[id].End? ==>
      Run(d, Config(Some(id), reply, actions), fuel + 1) == Some(Advance(actions, Done))
    ensures Run(d, Config(None, reply, actions), fuel) == Some(Advance(actions, Done))
    ensures id in d.nodes && d.nodes[id].Message? ==>
      Run(d, Config(Some(id), reply, actions), fuel + 1) ==
      Run(d, Config(d.nodes[id].next, reply, actions + [Send(d.nodes[id].text)]), fuel)
    ensures id in d.nodes && d.nodes[id].AddTag? ==>
      Run(d, Config(Some(id), reply, actions), fuel + 1) ==
      Run(d, Config(d.nodes[id].next, reply, actions + [TagContact(d.nodes[id].tag)]), fuel)
    ensures id in d.nodes && d.nodes[id].AssignTeam? ==>
      Run(d, Config(Some(id), reply, actions), fuel + 1) ==
      Run(d, Config(d.nodes[id].next, reply, actions + [HandToTeam(d.nodes[id].teamId)]), fuel)
  {
  }

  method Find(branches: seq<Branch>, reply: string) returns (branch: Option<Branch>)
    ensures branch == FindBranch(branches, reply)
  {
    for i := 0 to |branches|
      invariant FindBranch(branches, reply) == FindBranch(branches[i..], reply)
    {
      assert branches[i..][1..] == branches[i + 1..];
      if Normalized(branches[i].match_) == Normalized(reply) {
        return Some(branches[i]);
      }
    }
    branch := None;
  }

  /** advanceFlow. */
  method AdvanceFlow(d: Definition, currentNode: string, inboundText: Option<string>) returns (r: Advance)
    ensures r == Computed(d, currentNode, inboundText)
  {
    hide Run, SoFar, FindBranch, Normalized;
    ghost var strict := Stripped(d);
    ghost var first := Config(Some(currentNode), inboundText, []);
    var actions: seq<Action> := [];
    var cursor, reply := Some(currentNode), inboundText;
    for step := 0 to STEP_CAP
      invariant Run(strict, first, STEP_CAP) == Run(strict, Config(cursor, reply, actions), STEP_CAP - step)
      invariant SoFar(strict, first, STEP_CAP) == SoFar(strict, Config(cursor, reply, actions), STEP_CAP - step)
    {
      ghost var here := Config(cursor, reply, actions);
      Unfold(strict, here, STEP_CAP - step);
      if !Truthy(cursor) {
        break;
      }
      if cursor.value !in d.nodes {
        return Advance(actions, Done);
      }
      match d.nodes[cursor.value] {
        case Message(text, next) =>
          actions, cursor := actions + [Send(text)], next;
        case AddTag(tag, next) =>
          actions, cursor := actions + [TagContact(tag)], next;
        case AssignTeam(team, next) =>
          actions, cursor := actions + [HandToTeam(team)], next;
        case End =>
          return Advance(actions, Done);
        case Question(text, branches, fallbackNext) =>
          if reply.None? {
            return Advance(actions + [Send(text)], Waiting(cursor.value));
          }
          var branch := Find(branches, reply.value);
          reply := None;
          if branch.Some? {
            cursor := Some(branch.value.next);
          } else if Truthy(fallbackNext) {
            cursor := fallbackNext;
          } else {
            return Advance(actions, Waiting(cursor.value));
          }
      }
    }
    Unfold(strict, Config(cursor, reply, actions), 0);
    r := Advance(actions, Done);
  }

  lemma Unfold(d: Definition, c: Config, fuel: nat)
    ensures c.cursor.None? ==> Run(d, c, fuel) == Some(Advance(c.actions, Done)) && SoFar(d, c, fuel) == c.actions
    ensures fuel == 0 && c.cursor.Some? ==> Run(d, c, fuel) == None && SoFar(d, c, fuel) == c.actions
    ensures fuel > 0 && c.cursor.Some? && Step(d, c).Stops? ==> Run(d, c, fuel) == Some(Step(d, c).result)
    ensures fuel > 0 && c.cursor.Some? && Step(d, c).Onward? ==>
      Run(d, c, fuel) == Run(d, Step(d, c).c, fuel - 1) && SoFar(d, c, fuel) == SoFar(d, Step(d, c).c, fuel - 1)
  {
  }

  // ---------- what that means ----------

  lemma {:induction false} MoreFuel(d: Definition, c: Config, few: nat, more: nat)
    requires few <= more && Run(d, c, few).Some?
    ensures Run(d, c, more) == Run(d, c, few)
    decreases few
  {
    if c.cursor.Some? && Step(d, c).Onward? { MoreFuel(d, Step(d, c).c, few - 1, more - 1); }
  }

  /**
   * A flow that stops at all is advanced to where it stops exactly when that is within the cap, or it ends anyway: only a
   * question beyond the cap is lost, and with it the session.
   */
  lemma CapLosesLateQuestions(d: Definition, c: Config, fuel: nat)
    requires Run(d, c, fuel).Some?
    ensures Run(d, c, STEP_CAP).Some? ==> Capped(d, c) == Run(d, c, fuel).value
    ensures Capped(d, c).outcome == Run(d, c, fuel).value.outcome
      <==> Run(d, c, STEP_CAP).Some? || Run(d, c, fuel).value.outcome == Done
  {
    hide Step;
    if Run(d, c, STEP_CAP).Some? {
      if fuel <= STEP_CAP { MoreFuel(d, c, fuel, STEP_CAP); } else { MoreFuel(d, c, STEP_CAP, fuel); }
    }
  }

  lemma {:induction false} FewActions(d: Definition, c: Config, fuel: nat)
    ensures c.actions <= SoFar(d, c, fuel) && |SoFar(d, c, fuel)| <= |c.actions| + fuel
    ensures Run(d, c, fuel).Some? ==> Run(d, c, fuel).value.actions == SoFar(d, c, fuel)
    decreases fuel
  {
    if c.cursor.Some? && fuel > 0 && Step(d, c).Onward? { FewActions(d, Step(d, c).c, fuel - 1); }
  }

  /** One advance emits at most STEP_CAP actions, and they are always the first ones of the flow's own run. */
  lemma AtMostCapActions(d: Definition, c: Config, fuel: nat)
    requires c.actions == []
    ensures |Capped(d, c).actions| <= STEP_CAP
    ensures Run(d, c, fuel).Some? ==> Capped(d, c).actions <= Run(d, c, fuel).value.actions
  {
    FewActions(d, c, STEP_CAP);
    if Run(d, c, fuel).Some? {
      if Run(d, c, STEP_CAP).Some? {
        CapLosesLateQuestions(d, c, fuel);
      } else {
        FewActions(d, c, fuel);
        if fuel <= STEP_CAP { MoreFuel(d, c, fuel, STEP_CAP); }
        SoFarGrows(d, c, STEP_CAP, fuel);
      }
    }
  }

  lemma {:induction false} SoFarGrows(d: Definition, c: Config, few: nat, more: nat)
    requires few <= more
    ensures SoFar(d, c, few) <= SoFar(d, c, more)
    decreases few
  {
    if few == 0 {
      FewActions(d, c, more);
    } else if c.cursor.Some? && Step(d, c).Onward? {
      SoFarGrows(d, Step(d, c).c, few - 1, more - 1);
    }
  }

  /** How many questions a run answers with the reply. */
  function Spent(d: Definition, c: Config, fuel: nat): nat
    decreases fuel
  {
    if c.cursor.None? || fuel == 0 || Step(d, c).Stops? then 0
    else (if c.cursor.value in d.nodes && d.nodes[c.cursor.value].Question? then 1 else 0) + Spent(d, Step(d, c).c, fuel - 1)
  }

  /** A reply picks at most one branch, however long the run; without one, none is picked. */
  lemma {:induction false} ReplySpentOnce(d: Definition, c: Config, fuel: nat)
    ensures Spent(d, c, fuel) <= if c.reply.Some? then 1 else 0
    decreases fuel
  {
    if c.cursor.Some? && fuel > 0 && Step(d, c).Onward? { ReplySpentOnce(d, Step(d, c).c, fuel - 1); }
  }

  lemma {:induction false} WaitsAtQuestion(d: Definition, c: Config, fuel: nat)
    requires Run(d, c, fuel).Some? && Run(d, c, fuel).value.outcome.Waiting?
    ensures var id := Run(d, c, fuel).value.outcome.node; id in d.nodes && d.nodes[id].Question?
    decreases fuel
  {
    if Step(d, c).Onward? { WaitsAtQuestion(d, Step(d, c).c, fuel - 1); }
  }

  /** A session: where it waits after each inbound message (None for one without text), until it is completed. */
  function Session(d: Definition, inbound: seq<Option<string>>): Outcome {
    if inbound == [] then Computed(d, d.start, None).outcome
    else
      var n := |inbound| - 1;
      match Session(d, inbound[..n])
      case Done => Done
      case Waiting(node) => Computed(d, node, inbound[n]).outcome
  }

  /** Over whole sessions, whatever the customer sends, a session only ever waits at a question of its flow. */
  lemma SessionsWaitAtQuestions(d: Definition, inbound: seq<Option<string>>)
    ensures Session(d, inbound).Waiting? ==>
      Session(d, inbound).node in d.nodes && d.nodes[Session(d, inbound).node].Question?
  {
    hide Run, Step, SoFar;
    var n := |inbound| - 1;
    if inbound == [] {
      WaitsIfWaiting(Stripped(d), Config(Some(d.start), None, []));
    } else if Session(d, inbound[..n]).Waiting? {
      WaitsIfWaiting(Stripped(d), Config(Some(Session(d, inbound[..n]).node), inbound[n], []));
    }
  }

  lemma WaitsIfWaiting(d: Definition, c: Config)
    ensures Capped(d, c).outcome.Waiting? ==>
      Capped(d, c).outcome.node in d.nodes && d.nodes[Capped(d, c).outcome.node].Question?
  {
    if Capped(d, c).outcome.Waiting? { WaitsAtQuestion(d, c, STEP_CAP); }
  }

  // ---------- nothing dangles in a valid flow ----------

  /** In a valid flow a run never meets a missing node: it ends only at an end node or where a node names no next one. */
  lemma StaysInside(d: Definition, c: Config)
    requires Closed(d) && c.cursor.Some? && c.cursor.value in d.nodes
    ensures var v := Step(d, c); v.Onward? && v.c.cursor.Some? ==> v.c.cursor.value in d.nodes
  {
    var id := c.cursor.value;
    assert NodeClosed(d.nodes[id], d.nodes.Keys);
    if d.nodes[id].Question? && c.reply.Some? { FoundIsIn(d.nodes[id].branches, c.reply.value); }
  }

  predicate SameStep(d: Definition) {
    && ("" in d.nodes ==> d.nodes[""] == End)
    && forall id :: id in d.nodes ==> !EmptyFallback(d.nodes[id])
  }

  lemma {:induction false} SameRun(d: Definition, c: Config, fuel: nat)
    requires SameStep(d)
    ensures Run(Stripped(d), c, fuel) == Run(d, c, fuel) && SoFar(Stripped(d), c, fuel) == SoFar(d, c, fuel)
    decreases fuel
  {
    if c.cursor.Some? && fuel > 0 {
      assert Step(Stripped(d), c) == Step(d, c);
      if Step(d, c).Onward? { SameRun(d, Step(d, c).c, fuel - 1); }
    }
  }

  /** On a valid flow without an empty id, advancing computes what the flow means, from every node and for every reply. */
  lemma ValidMeansWhatItSays(value: Json, node: string, reply: Option<string>)
    requires FlowVerdict(value) == Valid && "" !in ReadFlow(value).nodes
    ensures Computed(ReadFlow(value), node, reply) == Meant(ReadFlow(value), node, reply)
  {
    hide FlowVerdict, ReadFlow;
    var d := ReadFlow(value);
    ValidIsClosed(value);
    forall id | id in d.nodes ensures !EmptyFallback(d.nodes[id]) {
      assert NodeClosed(d.nodes[id], d.nodes.Keys);
    }
    SameRun(d, Config(Some(node), reply, []), STEP_CAP);
  }

  /**
   * In every definition, advancing computes what the flow means, from every node and for every reply, exactly when the empty
   * id names nothing but an end node and no question falls back to it.
   */
  lemma EmptyIdExactly(d: Definition)
    ensures (forall node, reply :: Computed(d, node, reply) == Meant(d, node, reply)) <==>
      ("" in d.nodes ==> d.nodes[""] == End) && forall id :: id in d.nodes ==> !EmptyFallback(d.nodes[id])
  {
    hide Run, SoFar, Step, Stripped, EmptyFallback;
    if "" in d.nodes && d.nodes[""] != End {
      FirstNode(d);
      FirstNode(Stripped(d));
      StrippedOfEmpty(d);
      assert Computed(d, "", None) != Meant(d, "", None);
    } else if id :| id in d.nodes && EmptyFallback(d.nodes[id]) {
      var reply := Unmatched(d, id);
      EmptyFallbackWaits(d, id, reply);
      assert Computed(d, id, Some(reply)) != Meant(d, id, Some(reply));
    } else {
      forall node, reply ensures Computed(d, node, reply) == Meant(d, node, reply) {
        SameRun(d, Config(Some(node), reply, []), STEP_CAP);
      }
    }
  }

  lemma StrippedOfEmpty(d: Definition)
    ensures "" !in Stripped(d).nodes
  {
  }

  /** A question that falls back to the empty id keeps waiting where the flow means to go there. */
  lemma EmptyFallbackWaits(d: Definition, id: string, reply: string)
    requires id in d.nodes && EmptyFallback(d.nodes[id]) && FindBranch(d.nodes[id].branches, reply) == None
    requires "" in d.nodes ==> d.nodes[""] == End
    ensures Computed(d, id, Some(reply)) == Advance([], Waiting(id))
    ensures Meant(d, id, Some(reply)) == Advance([], Done)
  {
    hide Run, SoFar, FindBranch;
    var c := Config(Some(id), Some(reply), []);
    Unfold(Stripped(d), c, STEP_CAP);
    Unfold(d, c, STEP_CAP);
    Unfold(d, Config(Some(""), None, []), STEP_CAP - 1);
  }

  function Longest(branches: seq<Branch>): (n: nat)
    ensures forall b :: b in branches ==> |Normalized(b.match_)| <= n
  {
    if branches == [] then 0
    else
      var rest, n := Longest(branches[1..]), |Normalized(branches[0].match_)|;
      if n > rest then n else rest
  }

  /** Some reply matches none of a question's branches: one longer than all of them. */
  lemma Unmatched(d: Definition, id: string) returns (reply: string)
    requires id in d.nodes && EmptyFallback(d.nodes[id])
    ensures FindBranch(d.nodes[id].branches, reply) == None
  {
    reply := Key(Longest(d.nodes[id].branches));
    KeyIsNormal(Longest(d.nodes[id].branches));
    LongMatchesNone(d.nodes[id].branches, reply);
  }

  lemma KeyIsNormal(k: nat)
    ensures Normalized(Key(k)) == Key(k)
  {
    TrimSpec(Key(k));
    LowerFixes(Key(k));
  }

  lemma {:induction false} LongMatchesNone(branches: seq<Branch>, reply: string)
    requires |Normalized(reply)| > Longest(branches)
    ensures FindBranch(branches, reply) == None
  {
    hide Normalized;
    if branches != [] {
      assert branches[0] in branches;
      LongMatchesNone(branches[1..], reply);
    }
  }

  lemma FirstNode(d: Definition)
    ensures var acts := "" in d.nodes && d.nodes[""] != End;
      Meant(d, "", None).actions == [] <==> !acts
  {
    var c := Config(Some(""), None, []);
    Unfold(d, c, STEP_CAP);
    FewActions(d, c, STEP_CAP);
    if Step(d, c).Onward? { FewActions(d, Step(d, c).c, STEP_CAP - 1); }
  }

  /** Validation does let the empty id through. */
  lemma EmptyIdIsValid()
    ensures FlowVerdict(Obj([Field("start", Str("")), Field("nodes", Obj([Field("", Obj([Field("type", Str("end"))]))]))]))
         == Valid
  {
    var node := Obj([Field("type", Str("end"))]);
    var nodes := [Field("", node)];
    var value := Obj([Field("start", Str("")), Field("nodes", Obj(nodes))]);
    hide Get;
    GetFirst(Field("start", Str("")), [Field("nodes", Obj(nodes))]);
    GetSecond(Field("start", Str("")), Field("nodes", Obj(nodes)));
    GetFirst(Field("type", Str("end")), []);
    assert [Field("start", Str(""))] + [Field("nodes", Obj(nodes))] == value.fields;
    assert [Field("type", Str("end"))] + [] == node.fields;
    assert Ids(nodes)[0] == "";
    assert NodeVerdict(Ids(nodes), node) == Valid;
    assert nodes[1..] == [];
  }

  lemma GetFirst(f: Field, rest: seq<Field>)
    ensures Get([f] + rest, f.name) == f.value
  {
  }

  lemma GetSecond(f: Field, g: Field)
    requires f.name != g.name
    ensures Get([f, g], g.name) == g.value
  {
    assert [f, g][1..] == [g];
  }

  /** A valid flow whose one message has the empty id: it means to send it, and sends nothing. */
  lemma EmptyIdNotRun()
    ensures var d := Definition("", map["" := Message("hi", None)]);
      && FlowVerdict(WriteFlow(d, [""])) == Valid && ReadFlow(WriteFlow(d, [""])) == d
      && Computed(d, "", None).actions == [] && Meant(d, "", None).actions != []
  {
    hide FlowVerdict, ReadFlow, WriteFlow, Run, SoFar, Step;
    var d := Definition("", map["" := Message("hi", None)]);
    TrimSpec("hi");
    FlowRoundTrip(d, [""]);
    FirstNode(d);
    FirstNode(Stripped(d));
  }

  const FALLS_BACK := Question("which?", [Branch("x", "q")], Some(""))

  /** A valid flow whose empty id is an end node, and whose question falls back to it: on another reply it only waits on. */
  lemma EmptyFallbackNotTaken()
    ensures var d := Definition("q", map["q" := FALLS_BACK, "" := End]);
      && FlowVerdict(WriteFlow(d, ["q", ""])) == Valid && ReadFlow(WriteFlow(d, ["q", ""])) == d
      && Computed(d, "q", Some("y")).outcome == Waiting("q") && Meant(d, "q", Some("y")).outcome == Done
  {
    hide FlowVerdict, ReadFlow, WriteFlow, Computed, Meant, FindBranch, Closed, WithinLimits;
    var d := Definition("q", map["q" := FALLS_BACK, "" := End]);
    FallsBackIsClosed();
    FlowRoundTrip(d, ["q", ""]);
    YesMatchesNone();
    EmptyFallbackWaits(d, "q", "y");
  }

  lemma FallsBackIsClosed()
    ensures Closed(Definition("q", map["q" := FALLS_BACK, "" := End])) && WithinLimits(FALLS_BACK) && WithinLimits(End)
  {
    hide Trim;
    TrimSpec("which?");
    TrimSpec("x");
  }

  lemma YesMatchesNone()
    ensures FindBranch(FALLS_BACK.branches, "y") == None
  {
    TrimSpec("x");
    TrimSpec("y");
    LowerFixes("x");
    LowerFixes("y");
    assert Normalized("x")[0] == 'x' && Normalized("y")[0] == 'y';
    assert FALLS_BACK.branches[1..] == [];
  }

  // ---------- a question beyond the cap ----------

  function Key(k: nat): string {
    seq(k + 1, _ => 'a')
  }

  function Keys(n: nat): (ids: set<string>)
    ensures forall k: nat :: k <= n ==> Key(k) in ids
    ensures forall id :: id in ids ==> 1 <= |id| <= n + 1 && id == Key(|id| - 1)
    ensures |ids| <= n + 1
  {
    {Key(n)} + if n == 0 then {} else Keys(n - 1)
  }

  /** n messages one after the other, then a question. */
  function Chain(n: nat): Definition {
    Definition(Key(0), map id | id in Keys(n) ::
      if |id| <= n then Message("hi", Some(Key(|id|))) else Question("which?", [Branch("x", Key(0))], None))
  }

  lemma {:induction false} ChainRuns(n: nat, k: nat, actions: seq<Action>, fuel: nat)
    requires k <= n
    ensures var result := Run(Chain(n), Config(Some(Key(k)), None, actions), fuel);
      (fuel <= n - k ==> result == None) && (fuel > n - k ==> result.Some? && result.value.outcome == Waiting(Key(n)))
    decreases n - k
  {
    hide Key, Chain;
    ChainStep(n, k, actions);
    if fuel > 0 && k < n { ChainRuns(n, k + 1, actions + [Send("hi")], fuel - 1); }
  }

  lemma ChainClosed(n: nat)
    requires n < FLOW_MAX_NODES
    ensures Chain(n).start == Key(0) && Closed(Chain(n))
  {
    hide Trim, Keys;
    TrimSpec("x");
    var d := Chain(n);
    assert d.nodes.Keys == Keys(n);
    forall id | id in d.nodes ensures NodeClosed(d.nodes[id], d.nodes.Keys) {
      if |id| <= n { assert Key(|id|) in Keys(n); }
      assert Key(0) in Keys(n);
    }
  }

  lemma ChainStep(n: nat, k: nat, actions: seq<Action>)
    requires k <= n
    ensures var visit := Step(Chain(n), Config(Some(Key(k)), None, actions));
      visit == if k < n then Onward(Config(Some(Key(k + 1)), None, actions + [Send("hi")]))
               else Stops(Advance(actions + [Send("which?")], Waiting(Key(n))))
  {
    assert |Key(k)| == k + 1;
  }

  /** After as many messages as the cap allows, the session is done where the flow means it to wait at its question. */
  lemma QuestionBeyondCapIsLost()
    ensures Closed(Chain(STEP_CAP))
    ensures var c := Config(Some(Chain(STEP_CAP).start), None, []);
      && Capped(Chain(STEP_CAP), c).outcome == Done
      && Run(Chain(STEP_CAP), c, STEP_CAP + 1).Some?
      && Run(Chain(STEP_CAP), c, STEP_CAP + 1).value.outcome == Waiting(Key(STEP_CAP))
  {
    hide Run, SoFar, Key, Keys, Chain, Closed;
    ChainClosed(STEP_CAP);
    ChainRuns(STEP_CAP, 0, [], STEP_CAP);
    ChainRuns(STEP_CAP, 0, [], STEP_CAP + 1);
  }

  // ---------- exactly which definitions are valid ----------

  /** Text within the limit that is not blank. */
  predicate Says(value: Json, max: nat) {
    value.Str? && |value.s| <= max && !AllSpace(value.s)
  }

  predicate Names(ids: seq<string>, target: Json) {
    exists i :: 0 <= i < |ids| && target == Str(ids[i])
  }

  predicate NamesIfAny(ids: seq<string>, target: Json) {
    target == Undefined || Names(ids, target)
  }

  predicate LooksLikeUuid(value: Json) {
    value.Str? && |value.s| == 36 && forall c :: c in value.s ==> c in HEX_OR_DASH
  }

  const HEX_OR_DASH := {
    '0', '1', '2', '3', '4', '5', '6', '7', '8', '9', 'a', 'b', 'c', 'd', 'e', 'f', 'A', 'B', 'C', 'D', 'E', 'F', '-'}

  predicate BranchOk(ids: seq<string>, branch: Json) {
    Says(Property(branch, "match"), 100) && Names(ids, Property(branch, "next"))
  }

  predicate BranchListOk(ids: seq<string>, branches: Json) {
    branches.Arr? && 1 <= |branches.items| <= 10
    && forall i :: 0 <= i < |branches.items| ==> BranchOk(ids, branches.items[i])
  }

  /** A node of one of the five kinds, with what its kind needs. */
  predicate NodeOk(ids: seq<string>, node: Json) {
    var kind := Property(node, "type");
    || kind == Str("end")
    || (kind == Str("message") && Says(Property(node, "text"), 1024) && NamesIfAny(ids, Property(node, "next")))
    || (kind == Str("add_tag") && Says(Property(node, "tag"), 100) && NamesIfAny(ids, Property(node, "next")))
    || (kind == Str("assign_team") && LooksLikeUuid(Property(node, "teamId")) && NamesIfAny(ids, Property(node, "next")))
    || (kind == Str("question") && Says(Property(node, "text"), 1024) && BranchListOk(ids, Property(node, "branches"))
        && NamesIfAny(ids, Property(node, "fallbackNext")))
  }

  predicate DefinitionOk(value: Json) {
    var nodes := Property(value, "nodes");
    && nodes.Obj? && 1 <= |nodes.fields| <= 50 && Names(Ids(nodes.fields), Property(value, "start"))
    && forall i :: 0 <= i < |nodes.fields| ==> NodeOk(Ids(nodes.fields), nodes.fields[i].value)
  }

  lemma UuidExactly(value: Json)
    ensures TeamUuid(value) <==> LooksLikeUuid(value)
  {
    if value.Str? && |value.s| == 36 {
      forall i | 0 <= i < 36
        ensures value.s[i] in HEX_OR_DASH <==>
          '0' <= value.s[i] <= '9' || 'a' <= LowerChar(value.s[i]) <= 'f' || value.s[i] == '-'
      {
        HexOrDash(value.s[i]);
      }
      assert forall i :: 0 <= i < 36 ==> value.s[i] in value.s;
    }
  }

  lemma HexOrDash(c: char)
    ensures c in HEX_OR_DASH <==> '0' <= c <= '9' || 'a' <= LowerChar(c) <= 'f' || c == '-'
  {
  }

  lemma FilledExactly(value: Json, max: nat)
    ensures Filled(value, max) <==> Says(value, max)
  {
    if value.Str? { BlankExactly(value.s); }
  }

  lemma BranchExactly(ids: seq<string>, branch: Json)
    ensures BranchVerdict(ids, branch) == Valid <==> BranchOk(ids, branch)
    ensures BranchVerdict(ids, branch) == Throws <==> branch in [Null, Undefined]
  {
    FilledExactly(Property(branch, "match"), 100);
  }

  lemma {:induction false} BranchesExactly(ids: seq<string>, items: seq<Json>)
    ensures BranchesVerdict(ids, items) == Valid <==> forall i :: 0 <= i < |items| ==> BranchOk(ids, items[i])
    ensures BranchesVerdict(ids, items) == Throws <==> exists i :: NullAfterGood(ids, items, i)
  {
    hide BranchVerdict, BranchOk;
    if items != [] {
      var more := items[1..];
      BranchExactly(ids, items[0]);
      BranchesExactly(ids, more);
      assert items == [items[0]] + more;
      if i :| NullAfterGood(ids, items, i) && i > 0 {
        assert forall k :: 0 <= k < i - 1 ==> more[k] == items[k + 1];
        assert NullAfterGood(ids, more, i - 1);
      }
      if i :| NullAfterGood(ids, more, i) {
        assert BranchOk(ids, items[0]) ==> NullAfterGood(ids, items, i + 1);
      }
      if items[0] in [Null, Undefined] { assert NullAfterGood(ids, items, 0); }
    }
  }

  /** The i-th branch is null, and those before it are good. */
  predicate NullAfterGood(ids: seq<string>, items: seq<Json>, i: int) {
    0 <= i < |items| && items[i] in [Null, Undefined] && forall k :: 0 <= k < i ==> BranchOk(ids, items[k])
  }

  /** Checking a node throws on a null node, and on a question whose first wrong branch is null. */
  ghost predicate NodeThrows(ids: seq<string>, node: Json) {
    || node in [Null, Undefined]
    || (&& Property(node, "type") == Str("question") && Says(Property(node, "text"), 1024)
        && Property(node, "branches").Arr? && 1 <= |Property(node, "branches").items| <= 10
        && exists j :: NullAfterGood(ids, Property(node, "branches").items, j))
  }

  lemma NodeExactly(ids: seq<string>, node: Json)
    ensures NodeVerdict(ids, node) == Valid <==> NodeOk(ids, node)
    ensures NodeVerdict(ids, node) == Throws <==> NodeThrows(ids, node)
  {
    hide Filled, Says, BranchesVerdict, BranchOk, TeamUuid, LooksLikeUuid, NullAfterGood, Get;
    FilledExactly(Property(node, "text"), 1024);
    FilledExactly(Property(node, "tag"), 100);
    UuidExactly(Property(node, "teamId"));
    KindsDiffer();
    if Property(node, "branches").Arr? { BranchesExactly(ids, Property(node, "branches").items); }
  }

  lemma KindsDiffer()
    ensures "message" != "question" && "message" != "add_tag" && "message" != "assign_team" && "message" != "end"
    ensures "question" != "add_tag" && "question" != "assign_team" && "question" != "end"
    ensures "add_tag" != "assign_team" && "add_tag" != "end" && "assign_team" != "end"
  {
    assert |"message"| == 7 && |"question"| == 8 && |"add_tag"| == 7 && |"assign_team"| == 11 && |"end"| == 3;
    assert "message"[0] == 'm' && "add_tag"[0] == 'a';
  }

  /** Node i throws, and those before it are good. */
  ghost predicate ThrowsAfterGood(ids: seq<string>, fields: seq<Field>, i: int) {
    0 <= i < |fields| && NodeThrows(ids, fields[i].value) && forall k :: 0 <= k < i ==> NodeOk(ids, fields[k].value)
  }

  lemma {:induction false} NodesExactly(ids: seq<string>, fields: seq<Field>)
    ensures NodesVerdict(ids, fields) == Valid <==> forall i :: 0 <= i < |fields| ==> NodeOk(ids, fields[i].value)
    ensures NodesVerdict(ids, fields) == Throws <==> exists i :: ThrowsAfterGood(ids, fields, i)
  {
    hide NodeVerdict, NodeOk, NodeThrows, ThrowsAfterGood;
    if fields != [] {
      var more := fields[1..];
      NodeExactly(ids, fields[0].value);
      NodesExactly(ids, more);
      assert fields == [fields[0]] + more;
      ThrowsStep(ids, fields);
    } else {
      NobodyThrows(ids);
    }
  }

  lemma ThrowsStep(ids: seq<string>, fields: seq<Field>)
    requires fields != []
    ensures (exists i :: ThrowsAfterGood(ids, fields, i)) <==>
      || NodeThrows(ids, fields[0].value)
      || (NodeOk(ids, fields[0].value) && exists i :: ThrowsAfterGood(ids, fields[1..], i))
  {
    hide NodeOk, NodeThrows;
    var more := fields[1..];
    if NodeThrows(ids, fields[0].value) { assert ThrowsAfterGood(ids, fields, 0); }
    if i :| ThrowsAfterGood(ids, fields, i) && i > 0 {
      assert forall k :: 0 <= k < i - 1 ==> more[k] == fields[k + 1];
      assert ThrowsAfterGood(ids, more, i - 1);
    }
    if i :| ThrowsAfterGood(ids, more, i) {
      assert NodeOk(ids, fields[0].value) ==> ThrowsAfterGood(ids, fields, i + 1);
    }
  }

  lemma NobodyThrows(ids: seq<string>)
    ensures forall i :: !ThrowsAfterGood(ids, [], i)
  {
  }

  /**
   * Of all JSON, exactly these definitions are valid: one to fifty nodes, each complete for its kind, every target among
   * them. And the check itself throws exactly when the first thing wrong with such a list of nodes is a null.
   */
  lemma ValidExactly(value: Json)
    ensures FlowVerdict(value) == Valid <==> DefinitionOk(value)
    ensures FlowVerdict(value) == Throws <==>
      var nodes := Property(value, "nodes");
      && nodes.Obj? && 1 <= |nodes.fields| <= 50 && Names(Ids(nodes.fields), Property(value, "start"))
      && exists i :: ThrowsAfterGood(Ids(nodes.fields), nodes.fields, i)
  {
    hide NodesVerdict, NodeOk, ThrowsAfterGood, Get;
    var nodes := Property(value, "nodes");
    if nodes.Obj? { NodesExactly(Ids(nodes.fields), nodes.fields); }
  }
}
