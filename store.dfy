/**
  The goals table as the endpoints change it: a `GoalStore` object whose methods do what the
  request handlers do step by step — scan the goals, scan the commits of a push and stop at
  the first match, insert a row and then set its webhook id, assign the fields of an update
  one by one, remove a row — each proved to leave the store as the endpoint's function says.
*/
module GoalStores {
  import opened Wrappers
  import opened Text
  import opened Instants
  import opened Deadlines
  import opened Goals
  import opened Signatures
  import opened Webhooks
  import opened Lifecycle

  class GoalStore {
    var goals: seq<Goal>
    var nextId: nat

    function State(): Store
      reads this
    {
      Store(goals, nextId)
    }

    ghost predicate Valid()
      reads this
    {
      WellFormed(State())
    }

    /** An empty table; the database hands out ids from 1. */
    constructor()
      ensures Valid() && goals == [] && nextId == 1
    {
      goals := [];
      nextId := 1;
    }

    /** `Goal.query.filter_by(repo_owner=…, repo_name=…, status='active', completion_type=…).first()`. */
    method FindFirstActive(owner: string, name: string, kind: CompletionType) returns (r: Option<nat>)
      ensures r == FirstActive(goals, owner, name, kind)
    {
      var i := 0;
      while i < |goals| && !AwaitsCompletion(goals[i], owner, name, kind)
        invariant 0 <= i <= |goals|
        invariant forall j :: 0 <= j < i ==> !AwaitsCompletion(goals[j], owner, name, kind)
      {
        i := i + 1;
      }
      r := if i < |goals| then Some(i) else None;
    }

    /**
      The commit loop of the `push` branch: read the messages in order, complete the goal at
      the first one that contains its condition, and stop at a `null` message, which raises.
    */
    method CompleteOnCommit(i: nat, commits: seq<PushedCommit>, now: DateTime) returns (end: LoopEnd)
      requires i < |goals|
      modifies this
      ensures end == CommitLoop(commits, old(goals)[i].completionCondition) && nextId == old(nextId)
      ensures end == Matched ==> goals == old(goals)[i := Complete(old(goals)[i], now)]
      ensures end != Matched ==> goals == old(goals)
    {
      var condition := goals[i].completionCondition;
      var k := 0;
      while k < |commits|
        invariant 0 <= k <= |commits| && goals == old(goals) && nextId == old(nextId)
        invariant CommitLoop(commits, condition) == CommitLoop(commits[k..], condition)
      {
        assert commits[k..][1..] == commits[k + 1..];
        var message := Message(commits[k]);
        if message.None? {
          return Raised;
        }
        if Contains(message.value, condition) {
          goals := goals[i := Complete(goals[i], now)];
          return Matched;
        }
        k := k + 1;
      }
      end := Exhausted;
    }

    /** `github_webhook`. */
    method HandleWebhook(config: Config, d: Delivery, now: DateTime) returns (reply: Reply)
      requires Valid() && Instants.Valid(now)
      modifies this
      ensures Valid()
      ensures Outcome(reply, goals) == Webhook(old(goals), config, d, now) && nextId == old(nextId)
    {
      WebhookPreserves(State(), config, d, now);
      var verdict := CheckSignature(config, d.signature, d.body);
      if verdict == MissingHeader {
        return Reply(403, ErrorBody("Request is missing signature header"));
      } else if verdict == NonAsciiHeader {
        return InternalError;
      } else if verdict == BadSignature {
        return Reply(403, ErrorBody("Invalid signature. Request rejected."));
      }
      if d.json.Malformed? {
        return Reply(400, ErrorPage);
      }
      if d.event == Some("push") || d.event == Some("issues") {
        if d.json.NotAnObject? {
          return InternalError;
        }
        if d.event == Some("push") {
          reply := HandlePush(d.json.payload, now);
        } else {
          reply := HandleIssues(d.json.payload, now);
        }
      } else {
        reply := Received;
      }
    }

    /** The `push` branch of `github_webhook`. */
    method HandlePush(p: Payload, now: DateTime) returns (reply: Reply)
      modifies this
      ensures Outcome(reply, goals) == Push(old(goals), p, now) && nextId == old(nextId)
    {
      var fullName := RepositoryName(p);
      if fullName.Raises? {
        return InternalError;
      }
      if !Truthy(fullName.value) {
        return Reply(400, StatusBody("Payload missing repository name"));
      }
      var parts := FullNameParts(fullName.value.value);
      if parts.None? {
        return InternalError;
      }
      var found := FindFirstActive(parts.value.0, parts.value.1, Commit);
      if found.None? {
        return Reply(200, StatusBody("No active goal for this repository with commit completion type"));
      }
      var commits := Commits(p);
      if commits.Raises? {
        return InternalError;
      }
      var end := CompleteOnCommit(found.value, commits.value, now);
      reply := if end == Raised then InternalError else Received;
    }

    /** The `issues` branch of `github_webhook`. */
    method HandleIssues(p: Payload, now: DateTime) returns (reply: Reply)
      modifies this
      ensures Outcome(reply, goals) == Issues(old(goals), p, now) && nextId == old(nextId)
    {
      if p.action != Some("closed") {
        return Received;
      }
      var fullName := RepositoryName(p);
      var number := IssueNumber(p);
      if fullName.Raises? || number.Raises? {
        return InternalError;
      }
      if !Truthy(fullName.value) || number.value.None? || number.value.value == 0 {
        return Reply(400, StatusBody("Payload missing repository or issue information"));
      }
      var parts := FullNameParts(fullName.value.value);
      if parts.None? {
        return InternalError;
      }
      var found := FindFirstActive(parts.value.0, parts.value.1, Issue);
      if found.None? {
        return Reply(200, StatusBody("No active goal for this repository with issue completion type"));
      }
      var i := found.value;
      if IssueMatches(number.value.value, goals[i].completionCondition) {
        goals := goals[i := Complete(goals[i], now)];
      }
      reply := Received;
    }

    /**
      `create_goal`: parse the body's own deadline, insert the goal once every check has passed,
      then, when GitHub was asked and answered, set its webhook id on the inserted row.
    */
    method CreateGoal(users: map<string, User>, session: Option<string>, body: RequestBody, config: Config,
                      token: string, now: DateTime, registration: Registration)
      returns (reply: Reply, hook: Option<HookRequest>)
      requires Valid() && Instants.Valid(now)
      modifies this
      ensures Valid()
      ensures CreateOutcome(reply, State(), hook) == Create(old(State()), users, session, body, config, token, now, registration)
    {
      var parsed := DeadlineOf(body);
      CreatePreserves(DeleteEveryGit, State(), users, session, body, config, token, now, registration, parsed);
      var checked := CheckCreate(DeleteEveryGit, State(), users, session, body, token, now, parsed);
      if checked.Failure? {
        return checked.error, None;
      }
      reply, hook := Insert(checked.value, config, token, now, registration);
    }

    /** Append a checked goal, then record its webhook id when GitHub registered one. */
    method Insert(c: Checked, config: Config, token: string, now: DateTime, registration: Registration)
      returns (reply: Reply, hook: Option<HookRequest>)
      requires Instants.Valid(c.deadline) && Instants.Valid(now)
      modifies this
      ensures CreateOutcome(reply, State(), hook) == Inserted(old(State()), c, config, token, now, registration)
    {
      goals := goals + [NewGoal(c, nextId, token, now)];
      nextId := nextId + 1;
      hook := None;
      if Truthy(config.baseUrl) {
        hook := Some(HookRequest(c.accessToken, c.owner, c.name, config.baseUrl.value + "/api/github-webhook"));
        if registration.Registered? {
          var last := |goals| - 1;
          goals := goals[last := goals[last].(webhookId := Some(HookIdText(registration.id)))];
        }
      }
      reply := Reply(201, GoalBody(goals[|goals| - 1], DictBaseUrl(config)));
    }

    /** `Goal.query.get(goal_id)`. */
    method FindGoal(id: nat) returns (r: Option<nat>)
      ensures r == FindById(goals, id)
    {
      var i := 0;
      while i < |goals| && goals[i].id != id
        invariant 0 <= i <= |goals|
        invariant forall j :: 0 <= j < i ==> goals[j].id != id
      {
        i := i + 1;
      }
      r := if i < |goals| then Some(i) else None;
    }

    /**
      `update_goal`: with the body's own deadline parsed, the goal's fields are assigned one by
      one on a working copy, which is written back when every field has passed.
    */
    method UpdateGoal(session: Option<string>, goalId: nat, body: RequestBody, config: Config) returns (reply: Reply)
      requires Valid()
      modifies this
      ensures Valid()
      ensures UpdateOutcome(reply, State()) == Update(old(State()), session, goalId, body, config)
    {
      var parsed := DeadlineOf(body);
      UpdatePreserves(State(), session, goalId, body, config, parsed);
      if session.None? {
        return Unauthenticated;
      }
      var found := FindGoal(goalId);
      if found.None? || goals[found.value].userGithubId != session.value {
        return Reply(404, ErrorBody("Goal not found"));
      }
      if body.Unparseable? {
        return Reply(400, ErrorPage);
      }
      var i := found.value;
      var fields := if body.JsonObject? then body.fields else map[];
      var r := AssignFields(goals[i], fields, parsed);
      if r.Failure? {
        return r.error;
      }
      goals := goals[i := r.value];
      reply := Reply(200, GoalBody(r.value, DictBaseUrl(config)));
    }

    /** The assignments of `update_goal`, field by field on the goal `g0`, or the reply that stops them. */
    static method AssignFields(g0: Goal, fields: map<string, JsonValue>, parsed: Result<DateTime, DeadlineError>)
      returns (r: Result<Goal, Reply>)
      requires ValidGoal(g0) && (parsed.Success? ==> Instants.Valid(parsed.value))
      ensures r == ApplyUpdate(g0, fields, parsed)
    {
      var g := g0;
      var title := Get(fields, "title");
      if title.Some? {
        if Strip(title.value) == "" {
          return Failure(Reply(400, ErrorBody("Title required")));
        }
        g := g.(title := Strip(title.value));
      }
      var details := Get(fields, "details");
      if details.Some? {
        if Strip(details.value) == "" {
          return Failure(Reply(400, ErrorBody("Details required")));
        }
        g := g.(details := Strip(details.value));
      }
      if Get(fields, "deadline").Some? {
        if parsed.Failure? {
          return Failure(Reply(400, ErrorBody(DeadlineMessage(parsed.error))));
        }
        g := g.(deadline := parsed.value);
        g := g.(deadlineDisplay := Some(ChosenDisplay(Get(fields, "deadline_display"), parsed.value)));
      }
      var condition := Get(fields, "completion_condition");
      if condition.Some? {
        g := g.(completionCondition := Strip(condition.value));
      }
      var kind := Get(fields, "completion_type");
      if kind.Some? {
        var k := ParseCompletionType(kind.value);
        if k.None? {
          return Failure(Reply(400, ErrorBody("Invalid completion_type")));
        }
        g := g.(completionType := k.value);
      }
      r := Success(g);
    }

    /** `Goal.query.filter_by(id=goal_id, user_github_id=…).first()`. */
    method FindOwnedGoal(id: nat, user: string) returns (r: Option<nat>)
      ensures r == FindOwned(goals, id, user)
    {
      var i := 0;
      while i < |goals| && !(goals[i].id == id && goals[i].userGithubId == user)
        invariant 0 <= i <= |goals|
        invariant forall j :: 0 <= j < i ==> goals[j].id != id || goals[j].userGithubId != user
      {
        i := i + 1;
      }
      r := if i < |goals| then Some(i) else None;
    }

    /** `delete_goal`: the row is removed whatever deregistration does. */
    method DeleteGoal(users: map<string, User>, session: Option<string>, goalId: nat, answer: Deregistration)
      returns (reply: Reply, unhook: Option<UnhookRequest>, deregistered: Option<bool>)
      requires Valid()
      modifies this
      ensures Valid()
      ensures DeleteOutcome(reply, State(), unhook, deregistered) == Delete(old(State()), users, session, goalId, answer)
    {
      DeletePreserves(State(), users, session, goalId, answer);
      if session.None? {
        return Unauthenticated, None, None;
      }
      var found := FindOwnedGoal(goalId, session.value);
      if found.None? {
        return Reply(404, ErrorBody("Goal not found")), None, None;
      }
      var i := found.value;
      unhook := UnhookFor(goals[i], users, session.value);
      deregistered := None;
      if unhook.Some? && answer.Answered? {
        deregistered := Some(DeregistrationSucceeded(answer.status));
      }
      goals := goals[..i] + goals[i + 1..];
      reply := Reply(200, StatusBody("deleted"));
    }
  }
}
