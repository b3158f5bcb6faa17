/**
  The webhook endpoint `github_webhook` (application.py:176-243) as a function from the goals
  before a delivery to the reply and the goals after it. Goals are kept in store order: the
  query `.first()` carries no ORDER BY, and the order rows were inserted in is the one modelled.
*/
module Webhooks {
  import opened Wrappers
  import opened Text
  import opened Instants
  import opened Goals
  import opened Signatures

  /**
    A member of a JSON object as `dict.get` sees it: missing, `null`, or present. `Null` also
    stands for any present value the handler cannot use the way it uses an object or a string,
    which raises just as `null` does.
  */
  datatype Member<T> = Absent | Null | Present(value: T)

  /** A commit of a push payload: only its `message` is read. */
  datatype PushedCommit = PushedCommit(message: Member<string>)

  /** The `repository` object of a payload: only `full_name` is read. */
  datatype Repository = Repository(fullName: Option<string>)

  /** The `issue` object of an issue payload: only `number` is read. */
  datatype IssueInfo = IssueInfo(number: Option<int>)

  /** The members of a GitHub payload the endpoint reads. */
  datatype Payload = Payload(
    repository: Member<Repository>,
    commits: Member<seq<PushedCommit>>,
    action: Option<string>,
    issue: Member<IssueInfo>)

  /**
    What `request.get_json()` makes of the body: it raises on a body that is not JSON, and a
    JSON value other than an object (`null`, a list, a string, a number) has no `.get`.
  */
  datatype JsonBody = Malformed | NotAnObject | Object(payload: Payload)

  /** A delivery: the signature and event headers, the raw body and what it parses to. */
  datatype Delivery = Delivery(
    signature: Option<string>,
    event: Option<string>,
    body: seq<byte>,
    json: JsonBody)

  datatype Outcome = Outcome(reply: Reply, goals: seq<Goal>)

  /** The filter of the goal query: this repository, this completion type, still active. */
  predicate AwaitsCompletion(g: Goal, owner: string, name: string, kind: CompletionType) {
    g.repoOwner == Some(owner) && g.repoName == Some(name) && g.status == Active
    && g.completionType == kind
  }

  /** The position of the goal `.first()` returns: the earliest goal the filter admits. */
  function FirstActive(goals: seq<Goal>, owner: string, name: string, kind: CompletionType): (r: Option<nat>)
    ensures r.Some? ==> r.value < |goals| && AwaitsCompletion(goals[r.value], owner, name, kind)
    ensures r.Some? ==> forall j :: 0 <= j < r.value ==> !AwaitsCompletion(goals[j], owner, name, kind)
    ensures r.None? ==> forall j :: 0 <= j < |goals| ==> !AwaitsCompletion(goals[j], owner, name, kind)
  {
    if goals == [] then None
    else if AwaitsCompletion(goals[0], owner, name, kind) then Some(0)
    else
      match FirstActive(goals[1..], owner, name, kind)
      case None => None
      case Some(i) => Some(i + 1)
  }

  /** `commit.get('message', '')`: a missing message is empty; `None` stands for `null`. */
  function Message(c: PushedCommit): (m: Option<string>)
    ensures m.None? <==> c.message.Null?
  {
    match c.message
    case Absent => Some("")
    case Null => None
    case Present(text) => Some(text)
  }

  /** `goal.completion_condition in commit_message`, for a message that is a string. */
  predicate MessageMatches(c: PushedCommit, condition: string) {
    Message(c).Some? && Contains(Message(c).value, condition)
  }

  /** A commit the loop reads and passes over: its message is a string without the condition. */
  predicate PassedOver(c: PushedCommit, condition: string) {
    Message(c).Some? && !Contains(Message(c).value, condition)
  }

  /** Some commit of the push has a message that contains the condition. */
  predicate SomeCommitMatches(commits: seq<PushedCommit>, condition: string) {
    exists j :: 0 <= j < |commits| && MessageMatches(commits[j], condition)
  }

  /** How the loop over the commits of a push ends. */
  datatype LoopEnd =
    | Matched    // a message contains the condition: the goal completes and the loop breaks
    | Raised     // `condition in None` raised a TypeError before any match
    | Exhausted  // every message was read and none contains the condition

  /** The loop of the `push` branch (application.py:210-216) over the commits in order. */
  function CommitLoop(commits: seq<PushedCommit>, condition: string): (e: LoopEnd)
    ensures e == Exhausted <==> forall j :: 0 <= j < |commits| ==> PassedOver(commits[j], condition)
    ensures e == Matched ==> SomeCommitMatches(commits, condition)
    decreases |commits|
  {
    if commits == [] then Exhausted
    else
      match Message(commits[0])
      case None => Raised
      case Some(text) =>
        if Contains(text, condition) then Matched
        else
          var rest := CommitLoop(commits[1..], condition);
          assert forall j :: 1 <= j < |commits| ==> commits[j] == commits[1..][j - 1];
          rest
  }

  /** `str(n) == condition or f"#{n}" == condition`. */
  predicate IssueMatches(number: int, condition: string) {
    IntToString(number) == condition || "#" + IntToString(number) == condition
  }

  /** The goal as the endpoint leaves it on a match. */
  function Complete(g: Goal, now: DateTime): Goal {
    g.(status := Completed, completedAt := Some(now))
  }

  /** `after` is `before` with the active goal at `i` completed at `now`. */
  predicate CompletesAt(before: seq<Goal>, after: seq<Goal>, i: int, now: DateTime) {
    0 <= i < |before| && before[i].status == Active && after == before[i := Complete(before[i], now)]
  }

  /** Every way a delivery may change the goals: not at all, or one active goal completes. */
  ghost predicate AtMostOneCompletes(before: seq<Goal>, after: seq<Goal>, now: DateTime) {
    after == before || exists i :: CompletesAt(before, after, i, now)
  }

  /** An exception the handler does not catch: Flask answers 500 with its error page. */
  const InternalError := Reply(500, ErrorPage)

  /** What reading an object member yields, or that reading it raised. */
  datatype Lookup<T> = Raises | Yields(value: T)

  /** `payload.get('repository', {}).get('full_name')`: a missing object reads as `{}`. */
  function RepositoryName(p: Payload): (r: Lookup<Option<string>>)
    ensures r == Raises <==> p.repository.Null?
    ensures p.repository.Absent? ==> r == Yields(None)
  {
    match p.repository
    case Absent => Yields(None)
    case Null => Raises
    case Present(repository) => Yields(repository.fullName)
  }

  /** `payload.get('issue', {}).get('number')`. */
  function IssueNumber(p: Payload): (r: Lookup<Option<int>>)
    ensures r == Raises <==> p.issue.Null?
    ensures p.issue.Absent? ==> r == Yields(None)
  {
    match p.issue
    case Absent => Yields(None)
    case Null => Raises
    case Present(issue) => Yields(issue.number)
  }

  /** `payload.get('commits', [])`: a missing list is the empty one. */
  function Commits(p: Payload): (r: Lookup<seq<PushedCommit>>)
    ensures r == Raises <==> p.commits.Null?
    ensures p.commits.Absent? ==> r == Yields([])
  {
    match p.commits
    case Absent => Yields([])
    case Null => Raises
    case Present(commits) => Yields(commits)
  }

  /** The `push` branch (application.py:194-216). */
  function Push(goals: seq<Goal>, payload: Payload, now: DateTime): (o: Outcome)
    ensures AtMostOneCompletes(goals, o.goals, now)
  {
    match RepositoryName(payload)
    case Raises => Outcome(InternalError, goals)
    case Yields(fullName) =>
      if !Truthy(fullName) then
        Outcome(Reply(400, StatusBody("Payload missing repository name")), goals)
      else
        match FullNameParts(fullName.value)
        case None => Outcome(InternalError, goals)
        case Some((owner, name)) =>
          match FirstActive(goals, owner, name, Commit)
          case None =>
            Outcome(Reply(200, StatusBody("No active goal for this repository with commit completion type")), goals)
          case Some(i) =>
            match Commits(payload)
            case Raises => Outcome(InternalError, goals)
            case Yields(commits) =>
              match CommitLoop(commits, goals[i].completionCondition)
              case Matched =>
                assert CompletesAt(goals, goals[i := Complete(goals[i], now)], i, now);
                Outcome(Received, goals[i := Complete(goals[i], now)])
              case Raised => Outcome(InternalError, goals)
              case Exhausted => Outcome(Received, goals)
  }

  /** The `issues` branch (application.py:218-241). */
  function Issues(goals: seq<Goal>, payload: Payload, now: DateTime): (o: Outcome)
    ensures AtMostOneCompletes(goals, o.goals, now)
  {
    if payload.action != Some("closed") then Outcome(Received, goals)
    else if RepositoryName(payload).Raises? || IssueNumber(payload).Raises? then Outcome(InternalError, goals)
    else
      var fullName := RepositoryName(payload).value;
      var number := IssueNumber(payload).value;
      if !Truthy(fullName) || number.None? || number.value == 0 then
        Outcome(Reply(400, StatusBody("Payload missing repository or issue information")), goals)
      else
        match FullNameParts(fullName.value)
        case None => Outcome(InternalError, goals)
        case Some((owner, name)) =>
          match FirstActive(goals, owner, name, Issue)
          case None =>
            Outcome(Reply(200, StatusBody("No active goal for this repository with issue completion type")), goals)
          case Some(i) =>
            if IssueMatches(number.value, goals[i].completionCondition) then
              assert CompletesAt(goals, goals[i := Complete(goals[i], now)], i, now);
              Outcome(Received, goals[i := Complete(goals[i], now)])
            else Outcome(Received, goals)
  }

  /**
    `github_webhook`: the signature gate, then `request.get_json()`, then dispatch on
    `X-GitHub-Event`. A body that is not JSON is refused by Flask with 400 whatever the event;
    a JSON value that is not an object fails at the first `.get` of either branch.
  */
  function Webhook(goals: seq<Goal>, config: Config, d: Delivery, now: DateTime): (o: Outcome)
    ensures AtMostOneCompletes(goals, o.goals, now)
    ensures CheckSignature(config, d.signature, d.body) != Accepted ==> o.goals == goals
    ensures !Truthy(d.signature) ==> o.reply == Reply(403, ErrorBody("Request is missing signature header"))
    ensures d.event != Some("push") && d.event != Some("issues") ==> o.goals == goals
    ensures !d.json.Object? ==> o.goals == goals
  {
    match CheckSignature(config, d.signature, d.body)
    case MissingHeader => Outcome(Reply(403, ErrorBody("Request is missing signature header")), goals)
    case NonAsciiHeader => Outcome(InternalError, goals)
    case BadSignature => Outcome(Reply(403, ErrorBody("Invalid signature. Request rejected.")), goals)
    case Accepted =>
      if d.json.Malformed? then Outcome(Reply(400, ErrorPage), goals)
      else if d.event != Some("push") && d.event != Some("issues") then Outcome(Received, goals)
      else if d.json.NotAnObject? then Outcome(InternalError, goals)
      else if d.event == Some("push") then Push(goals, d.json.payload, now)
      else Issues(goals, d.json.payload, now)
  }

  // ---------------------------------------------------------------------------
  // Properties of a delivery
  // ---------------------------------------------------------------------------

  /**
    Only a delivery whose header is exactly `sha256=` and the hex MAC of its body may change
    a goal; any other printable header is answered 403.
  */
  lemma ForgedDeliveryRejected(goals: seq<Goal>, config: Config, d: Delivery, now: DateTime)
    requires Truthy(d.signature) && IsAscii(d.signature.value)
    requires !StartsWith(d.signature.value, "sha256=")
      || HexDecode(d.signature.value[7..]) != Some(config.hmac(config.secretKey, d.body))
    ensures Webhook(goals, config, d, now) == Outcome(Reply(403, ErrorBody("Invalid signature. Request rejected.")), goals)
  {
    AcceptedIffMac(config, d.signature.value, d.body);
  }

  /**
    A delivery never changes a goal that is already completed, nor any field of any goal
    other than `status` and `completed_at`, and it keeps every goal in its place.
  */
  lemma OnlyActiveGoalsComplete(goals: seq<Goal>, config: Config, d: Delivery, now: DateTime)
    ensures var after := Webhook(goals, config, d, now).goals;
      && |after| == |goals|
      && (forall j :: 0 <= j < |goals| && goals[j].status == Completed ==> after[j] == goals[j])
      && (forall j :: 0 <= j < |goals| && after[j] != goals[j] ==> after[j] == Complete(goals[j], now))
      && (forall j, k :: 0 <= j < k < |goals| && after[j] != goals[j] ==> after[k] == goals[k])
  {
    var after := Webhook(goals, config, d, now).goals;
    if after != goals {
      var i :| CompletesAt(goals, after, i, now);
    }
  }

  /**
    The loop over commits whose messages are all strings never raises: it completes the goal
    exactly when some message contains the condition.
  */
  lemma {:induction false} LoopWithoutNulls(commits: seq<PushedCommit>, condition: string)
    requires forall j :: 0 <= j < |commits| ==> !commits[j].message.Null?
    ensures CommitLoop(commits, condition) == if SomeCommitMatches(commits, condition) then Matched else Exhausted
    decreases |commits|
  {
    if commits != [] && !Contains(Message(commits[0]).value, condition) {
      LoopWithoutNulls(commits[1..], condition);
      assert SomeCommitMatches(commits, condition) <==> SomeCommitMatches(commits[1..], condition) by {
        if SomeCommitMatches(commits, condition) {
          var j :| 0 <= j < |commits| && MessageMatches(commits[j], condition);
          assert j != 0 && commits[1..][j - 1] == commits[j];
        }
        if SomeCommitMatches(commits[1..], condition) {
          var j :| 0 <= j < |commits[1..]| && MessageMatches(commits[1..][j], condition);
          assert commits[j + 1] == commits[1..][j];
        }
      }
    } else if commits != [] {
      assert MessageMatches(commits[0], condition);
    }
  }

  /**
    A `null` message met before any match stops the loop with the TypeError of `in`, whatever
    the later commits hold.
  */
  lemma {:induction false} NullMessageRaises(commits: seq<PushedCommit>, condition: string, j: nat)
    requires j < |commits| && commits[j].message.Null?
    requires forall k :: 0 <= k < j ==> PassedOver(commits[k], condition)
    ensures CommitLoop(commits, condition) == Raised
    decreases j
  {
    if j > 0 {
      assert PassedOver(commits[0], condition);
      assert forall k :: 0 <= k < j - 1 ==> commits[1..][k] == commits[k + 1];
      NullMessageRaises(commits[1..], condition, j - 1);
    }
  }

  /**
    A signed push for `owner/name` whose messages are all strings completes the first active
    commit-type goal of that repository exactly when some commit message contains its
    condition, and changes no other goal; without such a goal it answers 200 and changes
    nothing.
  */
  lemma PushCompletesIff(goals: seq<Goal>, config: Config, d: Delivery, now: DateTime, owner: string, name: string)
    requires CheckSignature(config, d.signature, d.body) == Accepted && d.event == Some("push") && d.json.Object?
    requires RepositoryName(d.json.payload) == Yields(Some(owner + "/" + name))
    requires FullNameParts(owner + "/" + name) == Some((owner, name))
    requires Commits(d.json.payload).Yields?
    requires forall j :: 0 <= j < |Commits(d.json.payload).value| ==> !Commits(d.json.payload).value[j].message.Null?
    ensures var o := Webhook(goals, config, d, now);
      match FirstActive(goals, owner, name, Commit)
      case None =>
        o == Outcome(Reply(200, StatusBody("No active goal for this repository with commit completion type")), goals)
      case Some(i) =>
        && o.reply == Received
        && (o.goals[i].status == Completed
            <==> SomeCommitMatches(Commits(d.json.payload).value, goals[i].completionCondition))
        && (forall j :: 0 <= j < |goals| && j != i ==> o.goals[j] == goals[j])
  {
    var found := FirstActive(goals, owner, name, Commit);
    assert owner + "/" + name != "";
    if found.Some? {
      LoopWithoutNulls(Commits(d.json.payload).value, goals[found.value].completionCondition);
    }
  }

  /**
    A signed push whose commit list is `null`, or whose loop meets a `null` message before a
    match, fails with 500 and leaves every goal as it was, even the one it would have completed.
  */
  lemma NullCommitsFailPush(goals: seq<Goal>, config: Config, d: Delivery, now: DateTime, owner: string, name: string)
    requires CheckSignature(config, d.signature, d.body) == Accepted && d.event == Some("push") && d.json.Object?
    requires RepositoryName(d.json.payload) == Yields(Some(owner + "/" + name))
    requires FullNameParts(owner + "/" + name) == Some((owner, name))
    requires FirstActive(goals, owner, name, Commit).Some?
    requires var condition := goals[FirstActive(goals, owner, name, Commit).value].completionCondition;
      || d.json.payload.commits.Null?
      || (d.json.payload.commits.Present?
          && (exists j :: 0 <= j < |d.json.payload.commits.value|
                && d.json.payload.commits.value[j].message.Null?
                && forall k :: 0 <= k < j ==> PassedOver(d.json.payload.commits.value[k], condition)))
    ensures Webhook(goals, config, d, now) == Outcome(InternalError, goals)
  {
    assert owner + "/" + name != "";
    var condition := goals[FirstActive(goals, owner, name, Commit).value].completionCondition;
    if !d.json.payload.commits.Null? {
      var commits := d.json.payload.commits.value;
      var j :| 0 <= j < |commits| && commits[j].message.Null? && forall k :: 0 <= k < j ==> PassedOver(commits[k], condition);
      NullMessageRaises(commits, condition, j);
    }
  }

  /**
    A signed `closed` issue event for `owner/name` with a non-zero number completes the first
    active issue-type goal of that repository exactly when its condition is the number, with
    or without `#`.
  */
  lemma IssueCompletesIff(goals: seq<Goal>, config: Config, d: Delivery, now: DateTime, owner: string, name: string,
                          number: int)
    requires CheckSignature(config, d.signature, d.body) == Accepted && d.event == Some("issues") && d.json.Object?
    requires d.json.payload.action == Some("closed")
    requires IssueNumber(d.json.payload) == Yields(Some(number)) && number != 0
    requires RepositoryName(d.json.payload) == Yields(Some(owner + "/" + name))
    requires FullNameParts(owner + "/" + name) == Some((owner, name))
    ensures var o := Webhook(goals, config, d, now);
      match FirstActive(goals, owner, name, Issue)
      case None =>
        o == Outcome(Reply(200, StatusBody("No active goal for this repository with issue completion type")), goals)
      case Some(i) =>
        && o.reply == Received
        && (o.goals[i].status == Completed <==> IssueMatches(number, goals[i].completionCondition))
        && (forall j :: 0 <= j < |goals| && j != i ==> o.goals[j] == goals[j])
  {
    assert owner + "/" + name != "";
    assert Webhook(goals, config, d, now) == Issues(goals, d.json.payload, now);
  }

  /** A signed push whose payload names no repository is refused with 400 and changes nothing. */
  lemma PushWithoutRepositoryRefused(goals: seq<Goal>, config: Config, d: Delivery, now: DateTime)
    requires CheckSignature(config, d.signature, d.body) == Accepted && d.event == Some("push") && d.json.Object?
    requires d.json.payload.repository.Absent?
      || (d.json.payload.repository.Present? && !Truthy(d.json.payload.repository.value.fullName))
    ensures Webhook(goals, config, d, now) == Outcome(Reply(400, StatusBody("Payload missing repository name")), goals)
  {
  }

  /**
    A signed delivery whose body is not JSON is refused with 400 before the event is looked
    at; a JSON body that is not an object fails a `push` or `issues` event with 500; a `null`
    repository fails a push, and a `null` repository or issue fails a closed-issue event.
    None of these changes a goal.
  */
  lemma UnusableBodiesFail(goals: seq<Goal>, config: Config, d: Delivery, now: DateTime)
    requires CheckSignature(config, d.signature, d.body) == Accepted
    ensures d.json.Malformed? ==> Webhook(goals, config, d, now) == Outcome(Reply(400, ErrorPage), goals)
    ensures d.json.NotAnObject? && d.event in {Some("push"), Some("issues")}
      ==> Webhook(goals, config, d, now) == Outcome(InternalError, goals)
    ensures d.json.Object? && d.event == Some("push") && d.json.payload.repository.Null?
      ==> Webhook(goals, config, d, now) == Outcome(InternalError, goals)
    ensures d.json.Object? && d.event == Some("issues") && d.json.payload.action == Some("closed")
      && (d.json.payload.repository.Null? || d.json.payload.issue.Null?)
      ==> Webhook(goals, config, d, now) == Outcome(InternalError, goals)
  {
  }

  /** Issue events other than `closed` are acknowledged and change nothing, whatever they carry. */
  lemma OtherIssueActionsIgnored(goals: seq<Goal>, config: Config, d: Delivery, now: DateTime)
    requires CheckSignature(config, d.signature, d.body) == Accepted && d.event == Some("issues") && d.json.Object?
    requires d.json.payload.action != Some("closed")
    ensures Webhook(goals, config, d, now) == Outcome(Received, goals)
  {
  }

  /** Issue number 0 is falsy: the event is refused even when a goal's condition is `0`. */
  lemma IssueZeroRefused(goals: seq<Goal>, config: Config, d: Delivery, now: DateTime)
    requires CheckSignature(config, d.signature, d.body) == Accepted && d.event == Some("issues") && d.json.Object?
    requires d.json.payload.action == Some("closed") && IssueNumber(d.json.payload) == Yields(Some(0))
    requires !d.json.payload.repository.Null?
    ensures Webhook(goals, config, d, now)
      == Outcome(Reply(400, StatusBody("Payload missing repository or issue information")), goals)
  {
  }

  /**
    An empty condition is contained in every message, so a goal whose condition is empty
    (which an update may store, since it only strips the condition) completes on any push
    whose first commit has a message that is not `null`.
  */
  lemma EmptyConditionMatchesAnyPush(commits: seq<PushedCommit>)
    requires commits != [] && !commits[0].message.Null?
    ensures CommitLoop(commits, "") == Matched
  {
    EmptyIsContained(Message(commits[0]).value);
  }

  /** The issue condition `#42` is met by issue 42, and so is `42`. */
  lemma IssueExample()
    ensures IssueMatches(42, "#42") && IssueMatches(42, "42") && !IssueMatches(4, "#42")
  {
    assert NatToString(42) == "42" by {
      assert NatToString(4) == "4";
    }
    assert "#" + "42" == "#42";
  }
}
