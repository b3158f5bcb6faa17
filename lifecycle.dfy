/**
  The goal endpoints `create_goal`, `update_goal` and `delete_goal` (application.py:351-450,
  454-514) as functions from the store before a request to the reply and the store after it.
  A request that fails changes nothing: the request's database session is discarded without
  a commit. Calls to GitHub are results passed in (registration) or requests handed out
  (registration and deregistration), since what GitHub answers is not part of this model.
*/
module Lifecycle {
  import opened Wrappers
  import opened Text
  import opened Instants
  import opened Deadlines
  import opened Goals
  import opened Webhooks

  /** A JSON member value as the endpoints read it: `null` or a string. */
  datatype JsonValue = JNull | JString(text: string)

  /** What `request.get_json()` makes of a body. */
  datatype RequestBody =
    | Unparseable                                     // the call raises
    | JsonNull                                        // the body is `null`
    | JsonObject(fields: map<string, JsonValue>)

  /** `data.get(key)`: the string, or Python `None` for an absent key or a `null`. */
  function Get(fields: map<string, JsonValue>, key: string): (r: Option<string>)
    ensures r.Some? <==> key in fields && fields[key].JString?
  {
    if key in fields && fields[key].JString? then Some(fields[key].text) else None
  }

  /** The goals table and the next id the database hands out. */
  datatype Store = Store(goals: seq<Goal>, nextId: nat)

  /**
    The invariant every endpoint keeps: datetimes are representable, ids are issued in
    increasing order and below `nextId` (so store order is id order), a goal is completed
    exactly when it has a completion time, and embed tokens are unique.
  */
  ghost predicate WellFormed(s: Store) {
    && (forall i :: 0 <= i < |s.goals| ==> ValidGoal(s.goals[i]) && s.goals[i].id < s.nextId)
    && (forall i :: 0 <= i < |s.goals| ==>
          (s.goals[i].status == Completed <==> s.goals[i].completedAt.Some?))
    && (forall i, j :: 0 <= i < j < |s.goals| ==> s.goals[i].id < s.goals[j].id)
    && (forall i, j :: 0 <= i < j < |s.goals| && s.goals[i].embedToken.Some? ==>
          s.goals[i].embedToken != s.goals[j].embedToken)
  }

  /** Every goal the store holds has representable datetimes. */
  predicate AllValid(goals: seq<Goal>) {
    forall i :: 0 <= i < |goals| ==> ValidGoal(goals[i])
  }

  /** Some goal already holds `token`. */
  predicate TokenInUse(goals: seq<Goal>, token: string) {
    exists i :: 0 <= i < |goals| && goals[i].embedToken == Some(token)
  }

  /** The sequence without its element at `i`. */
  function RemoveAt<T>(xs: seq<T>, i: nat): (r: seq<T>)
    requires i < |xs|
    ensures |r| == |xs| - 1
    ensures forall j :: 0 <= j < |r| ==> r[j] == xs[if j < i then j else j + 1]
  {
    xs[..i] + xs[i + 1..]
  }

  /** Appending a goal with a fresh id and an unused token keeps the invariant. */
  lemma AppendPreserves(s: Store, g: Goal)
    requires WellFormed(s) && ValidGoal(g) && g.id == s.nextId
    requires g.status == Completed <==> g.completedAt.Some?
    requires g.embedToken.Some? ==> !TokenInUse(s.goals, g.embedToken.value)
    ensures WellFormed(Store(s.goals + [g], s.nextId + 1))
  {
    var t := s.goals + [g];
    assert forall i :: 0 <= i < |s.goals| ==> t[i] == s.goals[i];
    forall i, j | 0 <= i < j < |t| && t[i].embedToken.Some?
      ensures t[i].embedToken != t[j].embedToken
    {
      if j == |s.goals| && g.embedToken.Some? {
        assert t[i] == s.goals[i];
        assert !(s.goals[i].embedToken == Some(g.embedToken.value));
      }
    }
  }

  /** Replacing a goal by one with the same id and token keeps the invariant. */
  lemma ReplacePreserves(s: Store, i: nat, h: Goal)
    requires WellFormed(s) && i < |s.goals| && ValidGoal(h)
    requires h.id == s.goals[i].id && h.embedToken == s.goals[i].embedToken
    requires h.status == Completed <==> h.completedAt.Some?
    ensures WellFormed(Store(s.goals[i := h], s.nextId))
  {
  }

  /** Removing a goal keeps the invariant. */
  lemma RemovePreserves(s: Store, i: nat)
    requires WellFormed(s) && i < |s.goals|
    ensures WellFormed(Store(RemoveAt(s.goals, i), s.nextId))
  {
  }

  /** The text of the `ValueError` that `parse_deadline` raises. */
  function DeadlineMessage(e: DeadlineError): (m: string)
    ensures m == "Missing deadline" <==> e == MissingDeadline
  {
    match e
    case MissingDeadline => "Missing deadline"
    case InvalidDeadlineFormat => "Invalid deadline format. Use DD/MM/YYYY HH:MM or ISO."
  }

  /**
    `parse_deadline(data.get('deadline'))` for a body; the endpoints consult it only once the
    body is an object.
  */
  function DeadlineOf(body: RequestBody): (r: Result<DateTime, DeadlineError>)
    ensures r.Success? ==> Valid(r.value) && r.value.microsecond == 0
  {
    ParseDeadline(if body.JsonObject? then Get(body.fields, "deadline") else None)
  }

  /** The display string a new or rescheduled goal stores. */
  function ChosenDisplay(requested: Option<string>, deadline: DateTime): (d: string)
    requires Valid(deadline)
    ensures Truthy(requested) ==> d == requested.value
    ensures !Truthy(requested) ==> d == FormatDisplay(deadline)
  {
    if Truthy(requested) then requested.value else FormatDisplay(deadline)
  }

  /**
    Without a display string from the client, the one stored is read back by
    `parse_deadline` as the deadline itself, for a deadline on a whole minute.
  */
  lemma ChosenDisplayReadsBack(requested: Option<string>, deadline: DateTime)
    requires Valid(deadline) && deadline.second == 0 && deadline.microsecond == 0
    ensures !Truthy(requested) ==> ParseDeadline(Some(ChosenDisplay(requested, deadline))) == Success(deadline)
    ensures Truthy(requested) ==> ChosenDisplay(requested, deadline) == requested.value
  {
    DisplayRoundTrip(deadline);
  }

  // ---------------------------------------------------------------------------
  // Create
  // ---------------------------------------------------------------------------

  /** What `create_github_webhook` answered, as far as `create_goal` looks at it. */
  datatype Registration =
    | NotRegistered               // a status other than 201, an empty answer, or an exception
    | Registered(id: Option<int>) // the answer's `id`, when it has one

  /** The registration `create_goal` asks GitHub for: the hook posts to the webhook endpoint. */
  datatype HookRequest = HookRequest(accessToken: string, owner: string, name: string, url: string)

  datatype CreateOutcome = CreateOutcome(reply: Reply, store: Store, hook: Option<HookRequest>)

  const RequiredKeys: set<string> := {"title", "details", "deadline", "repo_url", "completion_condition"}

  /** `str(webhook_data.get('id'))`. */
  function HookIdText(id: Option<int>): (s: string)
    ensures id.None? ==> s == "None"
    ensures id.Some? ==> s == IntToString(id.value)
  {
    if id.Some? then IntToString(id.value) else "None"
  }

  /** Different answers from GitHub store different webhook ids. */
  lemma HookIdTextInjective(a: Option<int>, b: Option<int>)
    requires HookIdText(a) == HookIdText(b)
    ensures a == b
  {
    match (a, b)
    case (Some(x), Some(y)) => IntToStringInjective(x, y);
    case (Some(x), None) => NumberIsNotNone(x);
    case (None, Some(y)) => NumberIsNotNone(y);
    case (None, None) =>
  }

  lemma NumberIsNotNone(i: int)
    ensures IntToString(i) != "None"
  {
    if i >= 0 {
      assert IsDigit(IntToString(i)[0]);
    } else {
      assert IntToString(i)[0] == '-';
    }
  }

  /** `data.get('completion_type', 'commit')` checked against the two types. */
  function RequestedType(fields: map<string, JsonValue>): (r: Option<CompletionType>)
    ensures "completion_type" !in fields ==> r == Some(Commit)
    ensures "completion_type" in fields && fields["completion_type"].JNull? ==> r.None?
    ensures Get(fields, "completion_type").Some? ==> r == ParseCompletionType(Get(fields, "completion_type").value)
  {
    if "completion_type" !in fields then Some(Commit)
    else if fields["completion_type"].JNull? then None
    else ParseCompletionType(fields["completion_type"].text)
  }

  /** A creation request that passed every check, with what the new goal is made of. */
  datatype Checked = Checked(
    user: string, accessToken: string, url: string, owner: string, name: string,
    kind: CompletionType, title: string, details: string, condition: string,
    display: Option<string>, deadline: DateTime)

  /**
    The checks of `create_goal` in their order (application.py:353-402): the session, the body,
    the required keys, the user, the repository URL, the completion type, the deadline, and
    the columns the database refuses (a `null` where a value is required, a token in use).
    `rule` names the repository: `DeleteEveryGit` is the code as written.
  */
  function CheckCreate(rule: NameRule, s: Store, users: map<string, User>, session: Option<string>, body: RequestBody,
                       token: string, now: DateTime, parsed: Result<DateTime, DeadlineError>): (r: Result<Checked, Reply>)
    requires parsed.Success? ==> Valid(parsed.value)
    ensures r.Failure? ==> r.error.code in {400, 401, 404, 500}
    ensures r.Success? ==>
      var c := r.value;
      && session == Some(c.user) && c.user in users && c.accessToken == users[c.user].accessToken
      && body.JsonObject? && RequiredKeys <= body.fields.Keys
      && Get(body.fields, "repo_url") == Some(c.url) && RepoPartsBy(rule, c.url) == Some((c.owner, c.name))
      && RequestedType(body.fields) == Some(c.kind)
      && parsed == Success(c.deadline) && Valid(c.deadline) && !Before(c.deadline, now)
      && Get(body.fields, "title") == Some(c.title) && Get(body.fields, "details") == Some(c.details)
      && Get(body.fields, "completion_condition") == Some(c.condition)
      && c.display == Get(body.fields, "deadline_display")
      && !TokenInUse(s.goals, token)
  {
    if session.None? then Failure(Unauthenticated)
    else if body.Unparseable? then Failure(Reply(400, ErrorDetail("Invalid JSON data: ")))
    else if body.JsonNull? || body.fields == map[] then Failure(Reply(400, ErrorBody("No data provided")))
    else
      var fields := body.fields;
      if !(RequiredKeys <= fields.Keys) then Failure(Reply(400, ErrorBody("Missing required fields")))
      else if session.value !in users then Failure(Reply(404, ErrorBody("User not found")))
      else if Get(fields, "repo_url").None? then Failure(Reply(500, ErrorPage))
      else
        var url := Get(fields, "repo_url").value;
        match RepoPartsBy(rule, url)
        case None =>
          Failure(Reply(400, ErrorBody("Invalid repository URL. Use format: https://github.com/owner/repo")))
        case Some((owner, name)) =>
          match RequestedType(fields)
          case None => Failure(Reply(400, ErrorBody("Invalid completion_type. Must be \"commit\" or \"issue\"")))
          case Some(kind) =>
            match parsed
            case Failure(e) => Failure(Reply(500, ErrorBody("Database error: " + DeadlineMessage(e))))
            case Success(deadline) =>
              if Before(deadline, now) then Failure(Reply(400, ErrorBody("Deadline cannot be in the past")))
              else if Get(fields, "title").None? || Get(fields, "details").None?
                || Get(fields, "completion_condition").None? || TokenInUse(s.goals, token) then
                Failure(Reply(500, ErrorDetail("Database error: ")))
              else
                Success(Checked(session.value, users[session.value].accessToken, url, owner, name, kind,
                                Get(fields, "title").value, Get(fields, "details").value,
                                Get(fields, "completion_condition").value,
                                Get(fields, "deadline_display"), deadline))
  }

  /** The row `create_goal` inserts: active, not completed, created now, with no webhook yet. */
  function NewGoal(c: Checked, id: nat, token: string, now: DateTime): (g: Goal)
    requires Valid(c.deadline) && Valid(now)
    ensures ValidGoal(g) && g.status == Active && g.completedAt.None? && g.webhookId.None?
    ensures g.deadlineDisplay == Some(ChosenDisplay(c.display, c.deadline))
    ensures && g.id == id && g.userGithubId == c.user && g.embedToken == Some(token) && g.createdAt == now
            && g.title == c.title && g.details == c.details && g.deadline == c.deadline
            && g.repoUrl == c.url && g.completionCondition == c.condition && g.completionType == c.kind
            && g.repoOwner == Some(c.owner) && g.repoName == Some(c.name)
  {
    Goal(id, c.user, c.title, c.details, c.deadline, Some(ChosenDisplay(c.display, c.deadline)),
         c.url, c.condition, c.kind, Active, now, None, Some(token), Some(c.owner), Some(c.name), None)
  }

  /**
    `create_goal`. `token` is what `secrets.token_urlsafe(16)` drew, `now` what
    `datetime.utcnow()` read and `registration` what GitHub answered, if asked.
  */
  function Create(s: Store, users: map<string, User>, session: Option<string>, body: RequestBody,
                  config: Config, token: string, now: DateTime, registration: Registration): CreateOutcome
    requires Valid(now)
  {
    CreateWith(DeleteEveryGit, s, users, session, body, config, token, now, registration, DeadlineOf(body))
  }

  /**
    `create_goal` with the result of `parse_deadline` on the body's deadline as `parsed`, and
    the repository named by `rule`.
  */
  function CreateWith(rule: NameRule, s: Store, users: map<string, User>, session: Option<string>, body: RequestBody,
                      config: Config, token: string, now: DateTime, registration: Registration,
                      parsed: Result<DateTime, DeadlineError>): (o: CreateOutcome)
    requires Valid(now) && (parsed.Success? ==> Valid(parsed.value))
    ensures session.None? ==> o == CreateOutcome(Unauthenticated, s, None)
    ensures o.reply.code != 201 ==> o.store == s && o.hook.None?
    ensures o.reply.code == 201 ==>
      o.store.nextId == s.nextId + 1 && |o.store.goals| == |s.goals| + 1 && o.store.goals[..|s.goals|] == s.goals
    ensures o.hook.Some? ==> Truthy(config.baseUrl)
  {
    match CheckCreate(rule, s, users, session, body, token, now, parsed)
    case Failure(reply) => CreateOutcome(reply, s, None)
    case Success(c) => Inserted(s, c, config, token, now, registration)
  }

  /**
    The insertion of a checked goal (application.py:381-423): the row is appended, GitHub is
    asked to register a webhook when `BASE_URL` is set, and the webhook id is recorded when
    it answered.
  */
  function Inserted(s: Store, c: Checked, config: Config, token: string, now: DateTime,
                    registration: Registration): (o: CreateOutcome)
    requires Valid(c.deadline) && Valid(now)
    ensures o.reply.code == 201 && o.store.nextId == s.nextId + 1
    ensures |o.store.goals| == |s.goals| + 1 && o.store.goals[..|s.goals|] == s.goals
    ensures o.hook.Some? <==> Truthy(config.baseUrl)
  {
    var goal := NewGoal(c, s.nextId, token, now);
    var hook := if Truthy(config.baseUrl) then
        Some(HookRequest(c.accessToken, c.owner, c.name, config.baseUrl.value + "/api/github-webhook"))
      else None;
    var stored := if hook.Some? && registration.Registered? then
        goal.(webhookId := Some(HookIdText(registration.id)))
      else goal;
    assert (s.goals + [stored])[..|s.goals|] == s.goals;
    CreateOutcome(Reply(201, GoalBody(stored, DictBaseUrl(config))), Store(s.goals + [stored], s.nextId + 1), hook)
  }

  /**
    A created goal is made of the request: the session's user, the title, details, condition,
    repository URL and completion type from the body, the owner and name the URL splits into,
    the parsed deadline (not before `now`) and the display string supplied, or the formatted
    deadline. It is active with no completion time, carries the next id and the drawn token,
    and has a webhook id only when a registration was asked for and answered. The reply is 201
    with that goal.
  */
  lemma CreatedGoal(rule: NameRule, s: Store, users: map<string, User>, session: Option<string>, body: RequestBody,
                    config: Config, token: string, now: DateTime, registration: Registration,
                    parsed: Result<DateTime, DeadlineError>)
    requires Valid(now) && (parsed.Success? ==> Valid(parsed.value))
    requires CreateWith(rule, s, users, session, body, config, token, now, registration, parsed).reply.code == 201
    ensures var o := CreateWith(rule, s, users, session, body, config, token, now, registration, parsed);
      var g := o.store.goals[|s.goals|];
      && session.Some? && body.JsonObject? && g.userGithubId == session.value
      && Get(body.fields, "title") == Some(g.title) && Get(body.fields, "details") == Some(g.details)
      && Get(body.fields, "completion_condition") == Some(g.completionCondition)
      && RequestedType(body.fields) == Some(g.completionType)
      && Get(body.fields, "repo_url") == Some(g.repoUrl)
      && g.repoOwner.Some? && g.repoName.Some?
      && RepoPartsBy(rule, g.repoUrl) == Some((g.repoOwner.value, g.repoName.value))
      && g.status == Active && g.completedAt.None? && g.createdAt == now && ValidGoal(g)
      && g.id == s.nextId && g.embedToken == Some(token) && !TokenInUse(s.goals, token)
      && parsed == Success(g.deadline) && !Before(g.deadline, now)
      && g.deadlineDisplay == Some(ChosenDisplay(Get(body.fields, "deadline_display"), g.deadline))
      && (g.webhookId.Some? <==> o.hook.Some? && registration.Registered?)
      && o.reply == Reply(201, GoalBody(g, DictBaseUrl(config)))
  {
    var c := CheckCreate(rule, s, users, session, body, token, now, parsed).value;
    var o := CreateWith(rule, s, users, session, body, config, token, now, registration, parsed);
    assert o.store.goals[|s.goals|] == (s.goals + [o.store.goals[|s.goals|]])[|s.goals|];
  }

  /**
    Before the store is touched the checks run in this order: the session, the body, the
    required keys, the user, the repository URL, the completion type, then the deadline.
  */
  lemma CreateValidationOrder(rule: NameRule, s: Store, users: map<string, User>, user: string,
                              fields: map<string, JsonValue>, config: Config, token: string, now: DateTime,
                              registration: Registration, parsed: Result<DateTime, DeadlineError>)
    requires Valid(now) && (parsed.Success? ==> Valid(parsed.value)) && fields != map[]
    ensures var o := CreateWith(rule, s, users, Some(user), JsonObject(fields), config, token, now, registration, parsed);
      && (!(RequiredKeys <= fields.Keys) ==> o == CreateOutcome(Reply(400, ErrorBody("Missing required fields")), s, None))
      && (RequiredKeys <= fields.Keys && user !in users ==> o == CreateOutcome(Reply(404, ErrorBody("User not found")), s, None))
  {
  }

  /** Past the keys and the user, a repository URL without two segments is refused first. */
  lemma CreateRefusesBadUrl(rule: NameRule, s: Store, users: map<string, User>, user: string,
                            fields: map<string, JsonValue>, config: Config, token: string, now: DateTime,
                            registration: Registration, parsed: Result<DateTime, DeadlineError>)
    requires Valid(now) && (parsed.Success? ==> Valid(parsed.value))
    requires RequiredKeys <= fields.Keys && user in users && Get(fields, "repo_url").Some?
    requires LastTwoSegments(Get(fields, "repo_url").value).None?
    ensures CreateWith(rule, s, users, Some(user), JsonObject(fields), config, token, now, registration, parsed)
      == CreateOutcome(Reply(400, ErrorBody("Invalid repository URL. Use format: https://github.com/owner/repo")), s, None)
  {
    assert fields != map[] by {
      assert "title" in fields.Keys;
    }
    assert RepoPartsBy(rule, Get(fields, "repo_url").value).None?;
    assert CheckCreate(rule, s, users, Some(user), JsonObject(fields), token, now, parsed)
      == Failure(Reply(400, ErrorBody("Invalid repository URL. Use format: https://github.com/owner/repo")));
    RefusedCreate(rule, s, users, Some(user), JsonObject(fields), config, token, now, registration, parsed);
  }

  /** With a usable URL, an unknown completion type is refused before the deadline is looked at. */
  lemma CreateRefusesUnknownType(rule: NameRule, s: Store, users: map<string, User>, user: string,
                                 fields: map<string, JsonValue>, config: Config, token: string, now: DateTime,
                                 registration: Registration, parsed: Result<DateTime, DeadlineError>)
    requires Valid(now) && (parsed.Success? ==> Valid(parsed.value))
    requires RequiredKeys <= fields.Keys && user in users && Get(fields, "repo_url").Some?
    requires LastTwoSegments(Get(fields, "repo_url").value).Some? && RequestedType(fields).None?
    ensures CreateWith(rule, s, users, Some(user), JsonObject(fields), config, token, now, registration, parsed)
      == CreateOutcome(Reply(400, ErrorBody("Invalid completion_type. Must be \"commit\" or \"issue\"")), s, None)
  {
    assert fields != map[] by {
      assert "title" in fields.Keys;
    }
    assert RepoPartsBy(rule, Get(fields, "repo_url").value).Some?;
    assert CheckCreate(rule, s, users, Some(user), JsonObject(fields), token, now, parsed)
      == Failure(Reply(400, ErrorBody("Invalid completion_type. Must be \"commit\" or \"issue\"")));
    RefusedCreate(rule, s, users, Some(user), JsonObject(fields), config, token, now, registration, parsed);
  }

  /** A request the checks refuse is answered with their reply and changes nothing. */
  lemma RefusedCreate(rule: NameRule, s: Store, users: map<string, User>, session: Option<string>, body: RequestBody,
                      config: Config, token: string, now: DateTime, registration: Registration,
                      parsed: Result<DateTime, DeadlineError>)
    requires Valid(now) && (parsed.Success? ==> Valid(parsed.value))
    requires CheckCreate(rule, s, users, session, body, token, now, parsed).Failure?
    ensures CreateWith(rule, s, users, session, body, config, token, now, registration, parsed)
      == CreateOutcome(CheckCreate(rule, s, users, session, body, token, now, parsed).error, s, None)
  {
  }

  /**
    A deadline that does not parse reaches the generic handler and is answered 500, not 400;
    one before `now` is answered 400. Neither changes the store.
  */
  lemma CreateDeadlineErrors(rule: NameRule, s: Store, users: map<string, User>, user: string,
                             fields: map<string, JsonValue>, config: Config, token: string, now: DateTime,
                             registration: Registration, parsed: Result<DateTime, DeadlineError>)
    requires Valid(now) && (parsed.Success? ==> Valid(parsed.value))
    requires RequiredKeys <= fields.Keys && user in users
    requires Get(fields, "repo_url").Some? && LastTwoSegments(Get(fields, "repo_url").value).Some?
    requires RequestedType(fields).Some?
    ensures var o := CreateWith(rule, s, users, Some(user), JsonObject(fields), config, token, now, registration, parsed);
      match parsed
      case Failure(e) => o == CreateOutcome(Reply(500, ErrorBody("Database error: " + DeadlineMessage(e))), s, None)
      case Success(t) => Before(t, now) ==>
        o == CreateOutcome(Reply(400, ErrorBody("Deadline cannot be in the past")), s, None)
  {
    assert fields != map[] by {
      assert "title" in fields.Keys;
    }
  }

  /**
    A goal created for `<prefix>/<owner>/<name>` (with or without `.git`, with any trailing
    slashes) is one a push or issue event for `owner/name` of its type waits for: always
    under the corrected rule, and as written only when the name holds no `.git` of its own.
  */
  lemma CreatedGoalAwaitsItsRepository(rule: NameRule, s: Store, users: map<string, User>, user: string,
                                       fields: map<string, JsonValue>, config: Config, token: string,
                                       now: DateTime, registration: Registration,
                                       parsed: Result<DateTime, DeadlineError>,
                                       prefix: string, owner: string, name: string, git: bool, slashes: nat)
    requires Valid(now) && (parsed.Success? ==> Valid(parsed.value))
    requires '/' !in owner && '/' !in name && name != "" && !EndsWith(name, ".git")
    requires rule == DeleteEveryGit ==> !Contains(name, ".git")
    requires Get(fields, "repo_url") == Some(RepoUrl(prefix, owner, if git then name + ".git" else name, slashes))
    requires CreateWith(rule, s, users, Some(user), JsonObject(fields), config, token, now, registration, parsed)
               .reply.code == 201
    ensures var g := CreateWith(rule, s, users, Some(user), JsonObject(fields), config, token, now, registration, parsed)
                       .store.goals[|s.goals|];
      AwaitsCompletion(g, owner, name, g.completionType)
      && FullNameParts(owner + "/" + name) == Some((owner, name))
  {
    CreatedGoal(rule, s, users, Some(user), JsonObject(fields), config, token, now, registration, parsed);
    RepoPartsMatchFullName(prefix, owner, name, git, slashes);
    if rule == DeleteEveryGit {
      RepoPartsAsWrittenMatchFullName(prefix, owner, name, git, slashes);
    }
  }

  /**
    As written, a goal created for the GitHub Pages repository `<owner>/x.github.io` is
    recorded under the name `xhub.io`, so no push or issue event for that repository, which
    carries `<owner>/x.github.io`, ever finds it. The same request under the corrected rule
    creates a goal such an event finds.
  */
  lemma CreatedPagesGoalMissed(s: Store, users: map<string, User>, user: string,
                               fields: map<string, JsonValue>, config: Config, token: string,
                               now: DateTime, registration: Registration,
                               parsed: Result<DateTime, DeadlineError>, prefix: string, owner: string)
    requires Valid(now) && (parsed.Success? ==> Valid(parsed.value)) && '/' !in owner
    requires Get(fields, "repo_url") == Some(RepoUrl(prefix, owner, "x.github.io", 0))
    requires CreateWith(DeleteEveryGit, s, users, Some(user), JsonObject(fields), config, token, now, registration, parsed)
               .reply.code == 201
    ensures FullNameParts(owner + "/" + "x.github.io") == Some((owner, "x.github.io"))
    ensures var g := CreateWith(DeleteEveryGit, s, users, Some(user), JsonObject(fields), config, token, now,
                                registration, parsed).store.goals[|s.goals|];
      g.repoName == Some("xhub.io") && forall kind :: !AwaitsCompletion(g, owner, "x.github.io", kind)
    ensures var o := CreateWith(StripSuffixOnly, s, users, Some(user), JsonObject(fields), config, token, now,
                                registration, parsed);
      o.reply.code == 201 && AwaitsCompletion(o.store.goals[|s.goals|], owner, "x.github.io", o.store.goals[|s.goals|].completionType)
  {
    var url := RepoUrl(prefix, owner, "x.github.io", 0);
    GitInsideNameCounterexample(prefix, owner);
    CreatedGoal(DeleteEveryGit, s, users, Some(user), JsonObject(fields), config, token, now, registration, parsed);
    assert "xhub.io" != "x.github.io";
    var c := CheckCreate(DeleteEveryGit, s, users, Some(user), JsonObject(fields), token, now, parsed);
    var d := CheckCreate(StripSuffixOnly, s, users, Some(user), JsonObject(fields), token, now, parsed);
    assert d == Success(c.value.(name := "x.github.io"));
    CreatedGoal(StripSuffixOnly, s, users, Some(user), JsonObject(fields), config, token, now, registration, parsed);
  }

  lemma CreatePreserves(rule: NameRule, s: Store, users: map<string, User>, session: Option<string>, body: RequestBody,
                        config: Config, token: string, now: DateTime, registration: Registration,
                        parsed: Result<DateTime, DeadlineError>)
    requires Valid(now) && (parsed.Success? ==> Valid(parsed.value)) && WellFormed(s)
    ensures WellFormed(CreateWith(rule, s, users, session, body, config, token, now, registration, parsed).store)
  {
    var o := CreateWith(rule, s, users, session, body, config, token, now, registration, parsed);
    if o.reply.code == 201 {
      CreatedGoal(rule, s, users, session, body, config, token, now, registration, parsed);
      var g := o.store.goals[|s.goals|];
      AppendPreserves(s, g);
      assert o.store == Store(s.goals + [g], s.nextId + 1);
    }
  }

  // ---------------------------------------------------------------------------
  // Update
  // ---------------------------------------------------------------------------

  datatype UpdateOutcome = UpdateOutcome(reply: Reply, store: Store)

  /** The position of the goal with this id: `Goal.query.get(goal_id)`. */
  function FindById(goals: seq<Goal>, id: nat): (r: Option<nat>)
    ensures r.Some? ==> r.value < |goals| && goals[r.value].id == id
    ensures r.Some? ==> forall j :: 0 <= j < r.value ==> goals[j].id != id
    ensures r.None? ==> forall j :: 0 <= j < |goals| ==> goals[j].id != id
  {
    if goals == [] then None
    else if goals[0].id == id then Some(0)
    else
      match FindById(goals[1..], id)
      case None => None
      case Some(i) => Some(i + 1)
  }

  /** A text field after an update: the supplied value stripped, or the old one. */
  function Revised(current: string, supplied: Option<string>): string {
    if supplied.Some? then Strip(supplied.value) else current
  }

  /**
    The field-by-field update of `update_goal` (application.py:475-507) applied to one goal,
    or the reply that stops it; `parsed` is `parse_deadline` of the body's deadline. Only
    title, details, deadline, display string, condition and type are ever written.
  */
  function ApplyUpdate(g: Goal, fields: map<string, JsonValue>, parsed: Result<DateTime, DeadlineError>): (r: Result<Goal, Reply>)
    requires ValidGoal(g) && (parsed.Success? ==> Valid(parsed.value))
    ensures r.Success? ==> ValidGoal(r.value)
    ensures r.Success? ==> r.value == g.(title := r.value.title, details := r.value.details,
      deadline := r.value.deadline, deadlineDisplay := r.value.deadlineDisplay,
      completionCondition := r.value.completionCondition, completionType := r.value.completionType)
    ensures r.Failure? ==> r.error.code == 400
  {
    var title := Get(fields, "title");
    var details := Get(fields, "details");
    var raw := Get(fields, "deadline");
    var condition := Get(fields, "completion_condition");
    var kind := Get(fields, "completion_type");
    if title.Some? && Strip(title.value) == "" then Failure(Reply(400, ErrorBody("Title required")))
    else if details.Some? && Strip(details.value) == "" then Failure(Reply(400, ErrorBody("Details required")))
    else if raw.Some? && parsed.Failure? then Failure(Reply(400, ErrorBody(DeadlineMessage(parsed.error))))
    else if kind.Some? && ParseCompletionType(kind.value).None? then
      Failure(Reply(400, ErrorBody("Invalid completion_type")))
    else
      Success(g.(
        title := Revised(g.title, title),
        details := Revised(g.details, details),
        deadline := if raw.Some? then parsed.value else g.deadline,
        deadlineDisplay :=
          if raw.Some? then Some(ChosenDisplay(Get(fields, "deadline_display"), parsed.value))
          else g.deadlineDisplay,
        completionCondition := Revised(g.completionCondition, condition),
        completionType := if kind.Some? then ParseCompletionType(kind.value).value else g.completionType))
  }

  /**
    Each supplied field takes its new value: title, details and condition stripped (title and
    details never empty), a deadline as `parse_deadline` reads it with no check against the
    clock, and the display string is rewritten only when a deadline is supplied. Absent and
    `null` fields keep the old value.
  */
  lemma UpdateFields(g: Goal, fields: map<string, JsonValue>, parsed: Result<DateTime, DeadlineError>)
    requires ValidGoal(g) && (parsed.Success? ==> Valid(parsed.value))
    requires ApplyUpdate(g, fields, parsed).Success?
    ensures var h := ApplyUpdate(g, fields, parsed).value;
      && (Get(fields, "title").Some? ==> h.title == Strip(Get(fields, "title").value) && h.title != "")
      && (Get(fields, "title").None? ==> h.title == g.title)
      && (Get(fields, "details").Some? ==> h.details == Strip(Get(fields, "details").value) && h.details != "")
      && (Get(fields, "details").None? ==> h.details == g.details)
      && (Get(fields, "deadline").Some? ==>
            parsed == Success(h.deadline)
            && h.deadlineDisplay == Some(ChosenDisplay(Get(fields, "deadline_display"), h.deadline)))
      && (Get(fields, "deadline").None? ==> h.deadline == g.deadline && h.deadlineDisplay == g.deadlineDisplay)
      && (Get(fields, "completion_condition").Some? ==>
            h.completionCondition == Strip(Get(fields, "completion_condition").value))
      && (Get(fields, "completion_condition").None? ==> h.completionCondition == g.completionCondition)
      && (Get(fields, "completion_type").Some? ==>
            Some(h.completionType) == ParseCompletionType(Get(fields, "completion_type").value))
      && (Get(fields, "completion_type").None? ==> h.completionType == g.completionType)
  {
  }

  /** An update never touches the id, the owner, the status, the times, the token or the webhook. */
  lemma UpdateKeepsIdentity(g: Goal, fields: map<string, JsonValue>, parsed: Result<DateTime, DeadlineError>)
    requires ValidGoal(g) && (parsed.Success? ==> Valid(parsed.value))
    requires ApplyUpdate(g, fields, parsed).Success?
    ensures var h := ApplyUpdate(g, fields, parsed).value;
      && h.id == g.id && h.userGithubId == g.userGithubId && h.status == g.status
      && h.createdAt == g.createdAt && h.completedAt == g.completedAt && h.embedToken == g.embedToken
      && h.repoUrl == g.repoUrl && h.repoOwner == g.repoOwner && h.repoName == g.repoName
      && h.webhookId == g.webhookId && ValidGoal(h)
  {
  }

  /** Sending the same update twice leaves the goal as sending it once does. */
  lemma UpdateIdempotent(g: Goal, fields: map<string, JsonValue>, parsed: Result<DateTime, DeadlineError>)
    requires ValidGoal(g) && (parsed.Success? ==> Valid(parsed.value))
    requires ApplyUpdate(g, fields, parsed).Success?
    ensures ApplyUpdate(ApplyUpdate(g, fields, parsed).value, fields, parsed) == ApplyUpdate(g, fields, parsed)
  {
    var h := ApplyUpdate(g, fields, parsed).value;
    RevisedIdempotent(g.title, Get(fields, "title"));
    RevisedIdempotent(g.details, Get(fields, "details"));
    RevisedIdempotent(g.completionCondition, Get(fields, "completion_condition"));
    var h2 := ApplyUpdate(h, fields, parsed);
    assert h2.Success?;
    assert h2.value == h;
  }

  lemma RevisedIdempotent(current: string, supplied: Option<string>)
    ensures Revised(Revised(current, supplied), supplied) == Revised(current, supplied)
  {
    if supplied.Some? {
      StripIdempotent(supplied.value);
    }
  }

  /** `update_goal`. */
  function Update(s: Store, session: Option<string>, goalId: nat, body: RequestBody, config: Config): UpdateOutcome
    requires AllValid(s.goals)
  {
    UpdateWith(s, session, goalId, body, config, DeadlineOf(body))
  }

  /** `update_goal` with the result of `parse_deadline` on the body's deadline as `parsed`. */
  function UpdateWith(s: Store, session: Option<string>, goalId: nat, body: RequestBody, config: Config,
                      parsed: Result<DateTime, DeadlineError>): (o: UpdateOutcome)
    requires AllValid(s.goals) && (parsed.Success? ==> Valid(parsed.value))
    ensures session.None? ==> o == UpdateOutcome(Unauthenticated, s)
    ensures o.reply.code != 200 ==> o.store == s
    ensures o.reply.code == 200 ==>
      exists i, h :: 0 <= i < |s.goals| && s.goals[i].id == goalId && Some(s.goals[i].userGithubId) == session
        && o.store == Store(s.goals[i := h], s.nextId)
        && ApplyUpdate(s.goals[i], if body.JsonObject? then body.fields else map[], parsed) == Success(h)
  {
    if session.None? then UpdateOutcome(Unauthenticated, s)
    else
      match FindById(s.goals, goalId)
      case None => UpdateOutcome(Reply(404, ErrorBody("Goal not found")), s)
      case Some(i) =>
        if s.goals[i].userGithubId != session.value then UpdateOutcome(Reply(404, ErrorBody("Goal not found")), s)
        else if body.Unparseable? then UpdateOutcome(Reply(400, ErrorPage), s)
        else
          var fields := if body.JsonObject? then body.fields else map[];
          match ApplyUpdate(s.goals[i], fields, parsed)
          case Failure(reply) => UpdateOutcome(reply, s)
          case Success(h) =>
            UpdateOutcome(Reply(200, GoalBody(h, DictBaseUrl(config))), Store(s.goals[i := h], s.nextId))
  }

  /** A goal that does not exist and a goal of another user get the same reply. */
  lemma UpdateHidesOthersGoals(s: Store, user: string, goalId: nat, body: RequestBody, config: Config,
                               parsed: Result<DateTime, DeadlineError>)
    requires AllValid(s.goals) && (parsed.Success? ==> Valid(parsed.value))
    requires forall j :: 0 <= j < |s.goals| && s.goals[j].id == goalId ==> s.goals[j].userGithubId != user
    ensures UpdateWith(s, Some(user), goalId, body, config, parsed)
      == UpdateOutcome(Reply(404, ErrorBody("Goal not found")), s)
  {
  }

  lemma UpdatePreserves(s: Store, session: Option<string>, goalId: nat, body: RequestBody, config: Config,
                        parsed: Result<DateTime, DeadlineError>)
    requires WellFormed(s) && (parsed.Success? ==> Valid(parsed.value))
    ensures WellFormed(UpdateWith(s, session, goalId, body, config, parsed).store)
  {
    var o := UpdateWith(s, session, goalId, body, config, parsed);
    if o.reply.code == 200 {
      var i := FindById(s.goals, goalId).value;
      var fields := if body.JsonObject? then body.fields else map[];
      var h := ApplyUpdate(s.goals[i], fields, parsed).value;
      UpdateKeepsIdentity(s.goals[i], fields, parsed);
      assert o.store == Store(s.goals[i := h], s.nextId);
      ReplacePreserves(s, i, h);
    }
  }

  // ---------------------------------------------------------------------------
  // Delete
  // ---------------------------------------------------------------------------

  /** The deregistration `delete_goal` asks GitHub for. */
  datatype UnhookRequest = UnhookRequest(accessToken: string, owner: string, name: string, webhookId: string)

  /** What came of the deregistration request, when one was made: GitHub's status, or an exception. */
  datatype Deregistration = Answered(status: int) | RequestFailed

  /**
    `deregistered` is what `delete_github_webhook` returned, when it was called and returned:
    `delete_goal` only logs it.
  */
  datatype DeleteOutcome = DeleteOutcome(reply: Reply, store: Store, unhook: Option<UnhookRequest>,
                                         deregistered: Option<bool>)

  /** `delete_github_webhook`'s verdict on GitHub's status: a missing hook counts as deleted. */
  function DeregistrationSucceeded(status: int): bool {
    status == 204 || status == 404
  }

  /** The position of the goal with this id owned by this user. */
  function FindOwned(goals: seq<Goal>, id: nat, user: string): (r: Option<nat>)
    ensures r.Some? ==> r.value < |goals| && goals[r.value].id == id && goals[r.value].userGithubId == user
    ensures r.Some? ==> forall j :: 0 <= j < r.value ==> goals[j].id != id || goals[j].userGithubId != user
    ensures r.None? ==> forall j :: 0 <= j < |goals| ==> goals[j].id != id || goals[j].userGithubId != user
  {
    if goals == [] then None
    else if goals[0].id == id && goals[0].userGithubId == user then Some(0)
    else
      match FindOwned(goals[1..], id, user)
      case None => None
      case Some(i) => Some(i + 1)
  }

  /** The deregistration asked for when `g` is deleted by `user`, if any. */
  function UnhookFor(g: Goal, users: map<string, User>, user: string): (r: Option<UnhookRequest>)
    ensures r.Some? <==>
      (Truthy(g.webhookId) && Truthy(g.repoOwner) && Truthy(g.repoName)
       && user in users && users[user].accessToken != "")
    ensures r.Some? ==> r.value == UnhookRequest(users[user].accessToken, g.repoOwner.value, g.repoName.value, g.webhookId.value)
  {
    if Truthy(g.webhookId) && Truthy(g.repoOwner) && Truthy(g.repoName)
       && user in users && users[user].accessToken != "" then
      Some(UnhookRequest(users[user].accessToken, g.repoOwner.value, g.repoName.value, g.webhookId.value))
    else None
  }

  /**
    `delete_goal`: the goal is removed whatever deregistration does, so the request for it is
    handed out and its answer is never consulted.
  */
  function Delete(s: Store, users: map<string, User>, session: Option<string>, goalId: nat,
                  answer: Deregistration): (o: DeleteOutcome)
    ensures session.None? ==> o == DeleteOutcome(Unauthenticated, s, None, None)
    ensures o.reply.code != 200 ==> o.store == s && o.unhook.None?
    ensures o.reply.code == 200 ==>
      exists i :: 0 <= i < |s.goals| && s.goals[i].id == goalId && Some(s.goals[i].userGithubId) == session
        && o.store == Store(RemoveAt(s.goals, i), s.nextId)
        && o.unhook == UnhookFor(s.goals[i], users, session.value)
    ensures o.deregistered.Some? <==> o.unhook.Some? && answer.Answered?
  {
    if session.None? then DeleteOutcome(Unauthenticated, s, None, None)
    else
      match FindOwned(s.goals, goalId, session.value)
      case None => DeleteOutcome(Reply(404, ErrorBody("Goal not found")), s, None, None)
      case Some(i) =>
        var unhook := UnhookFor(s.goals[i], users, session.value);
        DeleteOutcome(Reply(200, StatusBody("deleted")), Store(RemoveAt(s.goals, i), s.nextId), unhook,
                      if unhook.Some? && answer.Answered? then Some(DeregistrationSucceeded(answer.status)) else None)
  }

  /**
    GitHub's answer to the deregistration decides nothing `delete_goal` does: the reply, the
    store and the request are the same whatever it answers, or if the request raised. The
    deregistration counts as done exactly when it was asked for and GitHub answered 204 (deleted)
    or 404 (already gone).
  */
  lemma DeleteWhateverGitHubAnswers(s: Store, users: map<string, User>, session: Option<string>, goalId: nat,
                                    a: Deregistration, b: Deregistration)
    ensures var o := Delete(s, users, session, goalId, a);
      var p := Delete(s, users, session, goalId, b);
      o.reply == p.reply && o.store == p.store && o.unhook == p.unhook
    ensures var o := Delete(s, users, session, goalId, a);
      (o.deregistered == Some(true) <==> o.unhook.Some? && a.Answered? && a.status in {204, 404})
      && (o.deregistered == Some(false) <==> o.unhook.Some? && a.Answered? && a.status !in {204, 404})
  {
  }

  /** Only the owner of a goal can delete it; anyone else gets the reply a missing goal gets. */
  lemma DeleteOwnerOnly(s: Store, users: map<string, User>, user: string, goalId: nat, answer: Deregistration)
    requires forall j :: 0 <= j < |s.goals| && s.goals[j].id == goalId ==> s.goals[j].userGithubId != user
    ensures Delete(s, users, Some(user), goalId, answer)
      == DeleteOutcome(Reply(404, ErrorBody("Goal not found")), s, None, None)
  {
  }

  /** In a well-formed store, deleting removes exactly the goal with that id and keeps the rest in order. */
  lemma DeleteRemovesOnlyThatGoal(s: Store, users: map<string, User>, session: Option<string>, goalId: nat,
                                  answer: Deregistration)
    requires WellFormed(s)
    ensures var o := Delete(s, users, session, goalId, answer);
      o.reply.code == 200 ==>
        && |o.store.goals| == |s.goals| - 1
        && (forall j :: 0 <= j < |o.store.goals| ==> o.store.goals[j].id != goalId)
        && (forall j :: 0 <= j < |s.goals| && s.goals[j].id != goalId ==> s.goals[j] in o.store.goals)
  {
    var o := Delete(s, users, session, goalId, answer);
    if o.reply.code == 200 {
      var i :| 0 <= i < |s.goals| && s.goals[i].id == goalId && o.store == Store(RemoveAt(s.goals, i), s.nextId);
      RemoveOnly(s, i);
    }
  }

  /** Removing the goal at `i` from a well-formed store leaves every other goal and no goal with its id. */
  lemma RemoveOnly(s: Store, i: nat)
    requires WellFormed(s) && i < |s.goals|
    ensures var t := RemoveAt(s.goals, i);
      && (forall j :: 0 <= j < |t| ==> t[j].id != s.goals[i].id)
      && (forall j :: 0 <= j < |s.goals| && j != i ==> s.goals[j] in t)
  {
    var t := RemoveAt(s.goals, i);
    forall j | 0 <= j < |s.goals| && j != i
      ensures s.goals[j] in t
    {
      if j < i {
        assert t[j] == s.goals[j];
      } else {
        assert t[j - 1] == s.goals[j];
      }
    }
  }

  lemma DeletePreserves(s: Store, users: map<string, User>, session: Option<string>, goalId: nat,
                        answer: Deregistration)
    requires WellFormed(s)
    ensures WellFormed(Delete(s, users, session, goalId, answer).store)
  {
    var o := Delete(s, users, session, goalId, answer);
    if o.reply.code == 200 {
      var i :| 0 <= i < |s.goals| && o.store == Store(RemoveAt(s.goals, i), s.nextId);
      RemovePreserves(s, i);
    }
  }

  /** A webhook delivery keeps the invariant, given a representable clock reading. */
  lemma WebhookPreserves(s: Store, config: Config, d: Delivery, now: DateTime)
    requires Valid(now) && WellFormed(s)
    ensures WellFormed(Store(Webhook(s.goals, config, d, now).goals, s.nextId))
  {
    var after := Webhook(s.goals, config, d, now).goals;
    if after != s.goals {
      var i :| CompletesAt(s.goals, after, i, now);
      ReplacePreserves(s, i, Complete(s.goals[i], now));
    }
  }
}
