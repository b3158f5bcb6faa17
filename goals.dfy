/**
  The records the application keeps (application.py:37-60), the configuration it reads from
  the environment, the JSON projection `Goal.to_dict` (application.py:62-82), the split of a
  repository URL into owner and name done by `create_goal` (application.py:369-375) and the
  split of a webhook's `repository.full_name` (application.py:199, 227).
*/
module Goals {
  import opened Wrappers
  import opened Text
  import opened Instants
  import opened Deadlines

  type byte = b: int | 0 <= b < 256

  datatype Status = Active | Completed

  /** The `status` column's text. */
  function StatusName(s: Status): (name: string)
    ensures name == "active" || name == "completed"
    ensures name == "completed" <==> s == Completed
  {
    match s
    case Active => "active"
    case Completed => "completed"
  }

  datatype CompletionType = Commit | Issue

  /** The `completion_type` column's text. */
  function CompletionTypeName(c: CompletionType): (name: string)
    ensures ParseCompletionType(name) == Some(c)
  {
    match c
    case Commit => "commit"
    case Issue => "issue"
  }

  /** `completion_type in ['commit', 'issue']`, and which one. */
  function ParseCompletionType(s: string): (r: Option<CompletionType>)
    ensures r.Some? <==> s == "commit" || s == "issue"
  {
    if s == "commit" then Some(Commit) else if s == "issue" then Some(Issue) else None
  }

  datatype Goal = Goal(
    id: nat,
    userGithubId: string,
    title: string,
    details: string,
    deadline: DateTime,
    deadlineDisplay: Option<string>,
    repoUrl: string,
    completionCondition: string,
    completionType: CompletionType,
    status: Status,
    createdAt: DateTime,
    completedAt: Option<DateTime>,
    embedToken: Option<string>,
    repoOwner: Option<string>,
    repoName: Option<string>,
    webhookId: Option<string>)

  /** Every datetime a goal holds is one Python's `datetime` can represent. */
  predicate ValidGoal(g: Goal) {
    && Valid(g.deadline)
    && Valid(g.createdAt)
    && (g.completedAt.Some? ==> Valid(g.completedAt.value))
  }

  datatype User = User(githubId: string, username: string, accessToken: string)

  /**
    What the application reads from its environment: the key its webhooks are signed with
    (already encoded as UTF-8), `BASE_URL` when it is set, and HMAC-SHA256, which is not
    part of this model and is therefore a parameter.
  */
  datatype Config = Config(
    secretKey: seq<byte>,
    baseUrl: Option<string>,
    hmac: (seq<byte>, seq<byte>) -> seq<byte>)

  /** Python truthiness of an optional string: present and non-empty. */
  predicate Truthy(s: Option<string>) {
    s.Some? && s.value != ""
  }

  /** `os.environ.get('BASE_URL', 'http://localhost:5000')` as `to_dict` reads it. */
  function DictBaseUrl(config: Config): (url: string)
    ensures config.baseUrl.None? ==> url == "http://localhost:5000"
    ensures config.baseUrl.Some? ==> url == config.baseUrl.value
  {
    match config.baseUrl
    case Some(url) => url
    case None => "http://localhost:5000"
  }

  /** The dictionary `to_dict` returns, one field per key. */
  datatype GoalDict = GoalDict(
    id: nat,
    userGithubId: string,
    title: string,
    details: string,
    deadline: string,
    deadlineDisplay: string,
    repoUrl: string,
    completionCondition: string,
    completionType: string,
    status: string,
    createdAt: string,
    completedAt: Option<string>,
    embedToken: Option<string>,
    embedUrl: Option<string>)

  /** The display string `to_dict` serves: the stored one when it is non-empty. */
  function DisplayOf(g: Goal): (s: string)
    requires Valid(g.deadline)
    ensures Truthy(g.deadlineDisplay) ==> s == g.deadlineDisplay.value
    ensures !Truthy(g.deadlineDisplay) ==> s == FormatDisplay(g.deadline)
  {
    if Truthy(g.deadlineDisplay) then g.deadlineDisplay.value else FormatDisplay(g.deadline)
  }

  /** `to_dict`'s `embed_url`: present exactly when there is a non-empty embed token. */
  function EmbedUrl(token: Option<string>, baseUrl: string): (url: Option<string>)
    ensures url.None? <==> !Truthy(token)
    ensures url.Some? ==> url.value == baseUrl + "/embed/" + token.value
  {
    if Truthy(token) then Some(baseUrl + "/embed/" + token.value) else None
  }

  /** `Goal.to_dict()`. */
  function ToDict(g: Goal, baseUrl: string): (d: GoalDict)
    requires ValidGoal(g)
    ensures d.id == g.id && d.userGithubId == g.userGithubId && d.title == g.title && d.details == g.details
    ensures d.repoUrl == g.repoUrl && d.completionCondition == g.completionCondition
    ensures ParseCompletionType(d.completionType) == Some(g.completionType)
    ensures d.status == StatusName(g.status)
    ensures d.createdAt == FormatIso(g.createdAt) + "Z"
    ensures d.completedAt == if g.completedAt.Some? then Some(FormatIso(g.completedAt.value) + "Z") else None
    ensures d.embedToken == g.embedToken && d.embedUrl == EmbedUrl(g.embedToken, baseUrl)
    ensures Truthy(g.deadlineDisplay) ==> d.deadlineDisplay == g.deadlineDisplay.value
  {
    GoalDict(
      g.id, g.userGithubId, g.title, g.details,
      FormatIso(g.deadline) + "Z",
      DisplayOf(g),
      g.repoUrl, g.completionCondition, CompletionTypeName(g.completionType),
      StatusName(g.status),
      FormatIso(g.createdAt) + "Z",
      if g.completedAt.Some? then Some(FormatIso(g.completedAt.value) + "Z") else None,
      g.embedToken,
      EmbedUrl(g.embedToken, baseUrl))
  }

  /**
    The `deadline` a client receives from `to_dict` is read back by `parse_deadline` as the
    goal's deadline, so a client may send it unchanged to the update endpoint.
  */
  lemma ToDictDeadlineRoundTrip(g: Goal, baseUrl: string)
    requires ValidGoal(g) && g.deadline.microsecond == 0
    ensures ParseDeadline(Some(ToDict(g, baseUrl).deadline)) == Success(g.deadline)
  {
    IsoZRoundTrip(g.deadline);
  }

  /**
    `to_dict` serves the stored display string when it is non-empty. When none is stored, the
    one it serves instead is read back by `parse_deadline` as the goal's (whole-minute) deadline.
  */
  lemma ToDictDisplayFallback(g: Goal, baseUrl: string)
    requires ValidGoal(g)
    ensures Truthy(g.deadlineDisplay) ==> ToDict(g, baseUrl).deadlineDisplay == g.deadlineDisplay.value
    ensures !Truthy(g.deadlineDisplay) && g.deadline.second == 0 && g.deadline.microsecond == 0 ==>
      ParseDeadline(Some(ToDict(g, baseUrl).deadlineDisplay)) == Success(g.deadline)
  {
    if !Truthy(g.deadlineDisplay) && g.deadline.second == 0 && g.deadline.microsecond == 0 {
      DisplayRoundTrip(g.deadline);
    }
  }

  /** A goal whose token is `test-token`, served under the default base URL, links to its widget. */
  lemma DefaultEmbedUrl(hmac: (seq<byte>, seq<byte>) -> seq<byte>)
    ensures EmbedUrl(Some("test-token"), DictBaseUrl(Config([], None, hmac)))
      == Some("http://localhost:5000/embed/test-token")
  {
    assert "http://localhost:5000" + "/embed/" + "test-token" == "http://localhost:5000/embed/test-token";
  }

  // ---------------------------------------------------------------------------
  // Replies
  // ---------------------------------------------------------------------------

  /** The JSON or text body of a reply. */
  datatype Body =
    | ErrorBody(error: string)          // {'error': ...}
    | ErrorDetail(prefix: string)       // {'error': prefix + str(exception)}
    | StatusBody(status: string)        // {'status': ...}
    | GoalBody(goal: Goal, baseUrl: string)  // goal.to_dict(), with BASE_URL read as baseUrl
    | TextBody(text: string)            // a plain-text body
    | ErrorPage                         // the HTML error page Flask renders for an exception

  datatype Reply = Reply(code: int, body: Body)

  const Received := Reply(200, StatusBody("received"))
  const Unauthenticated := Reply(401, ErrorBody("Not authenticated"))

  // ---------------------------------------------------------------------------
  // Repository names
  // ---------------------------------------------------------------------------

  /** The last two `/`-separated segments of `url` once trailing slashes are removed. */
  function LastTwoSegments(url: string): (r: Option<(string, string)>)
    ensures r.Some? <==> |Split(RStrip(url, '/'), '/')| >= 2
  {
    var parts := Split(RStrip(url, '/'), '/');
    if |parts| < 2 then None else Some((parts[|parts| - 2], parts[|parts| - 1]))
  }

  /**
    `repo_owner, repo_name = repo_url.rstrip('/').split('/')[-2:]` followed by
    `repo_name.replace('.git', '')` when the name contains `.git`; `None` when the unpacking
    raises. This deletes every `.git` in the name, not only a trailing one.
  */
  function RepoPartsAsWritten(url: string): (r: Option<(string, string)>)
    ensures r.Some? <==> LastTwoSegments(url).Some?
  {
    var (owner, name) :- LastTwoSegments(url);
    if Contains(name, ".git") then Some((owner, RemoveAll(name, ".git"))) else Some((owner, name))
  }

  /** A repository name without the `.git` suffix that clone URLs carry. */
  function StripGitSuffix(name: string): (r: string)
    ensures EndsWith(name, ".git") ==> name == r + ".git"
    ensures !EndsWith(name, ".git") ==> r == name
  {
    if EndsWith(name, ".git") then name[..|name| - 4] else name
  }

  /** Owner and name of the repository a URL points to: `.git` is removed only as a suffix. */
  function RepoParts(url: string): (r: Option<(string, string)>)
    ensures r.Some? <==> LastTwoSegments(url).Some?
  {
    var (owner, name) :- LastTwoSegments(url);
    Some((owner, StripGitSuffix(name)))
  }

  /**
    The rule that turns the last segment of a repository URL into a name: the one
    `create_goal` applies, deleting every `.git`, or the corrected one, removing only a
    trailing `.git`.
  */
  datatype NameRule = DeleteEveryGit | StripSuffixOnly

  /** Owner and name of the repository a URL points to, under a naming rule. */
  function RepoPartsBy(rule: NameRule, url: string): (r: Option<(string, string)>)
    ensures r.Some? <==> LastTwoSegments(url).Some?
  {
    match rule
    case DeleteEveryGit => RepoPartsAsWritten(url)
    case StripSuffixOnly => RepoParts(url)
  }

  /** `owner, name = full_name.split('/')`; `None` when the unpacking raises. */
  function FullNameParts(fullName: string): (r: Option<(string, string)>)
    ensures r.Some? ==> fullName == r.value.0 + "/" + r.value.1
    ensures r.Some? ==> '/' !in r.value.0 && '/' !in r.value.1
  {
    var parts := Split(fullName, '/');
    if |parts| == 2 then
      JoinSplit(fullName, '/');
      SplitParts(fullName, '/');
      assert Join(parts, '/') == parts[0] + "/" + parts[1];
      Some((parts[0], parts[1]))
    else None
  }

  lemma {:induction false} SplitParts(s: string, c: char)
    ensures forall i :: 0 <= i < |Split(s, c)| ==> c !in Split(s, c)[i]
    decreases |s|
  {
    if s != [] {
      SplitParts(s[1..], c);
    }
  }

  /** A URL ending in `/<owner>/<segment>` and any number of slashes. */
  function RepoUrl(prefix: string, owner: string, segment: string, slashes: nat): string {
    prefix + "/" + owner + "/" + segment + Repeat('/', slashes)
  }

  /** The two segments of such a URL are `owner` and `segment`, whatever comes before them. */
  lemma UrlSegments(prefix: string, owner: string, segment: string, slashes: nat)
    requires '/' !in owner && '/' !in segment && segment != ""
    ensures LastTwoSegments(RepoUrl(prefix, owner, segment, slashes)) == Some((owner, segment))
  {
    var body := prefix + "/" + owner + "/" + segment;
    assert body[|body| - 1] == segment[|segment| - 1];
    RStripRun(body, '/', slashes);
    SplitConcat(prefix + "/" + owner, segment, '/');
    SplitConcat(prefix, owner, '/');
    SplitNoSeparator(owner, '/');
    SplitNoSeparator(segment, '/');
  }

  /**
    A goal created for `<prefix>/<owner>/<name>`, with or without `.git` and trailing
    slashes, is recorded under the owner and name that a webhook for `<owner>/<name>`
    carries, so the webhook finds it.
  */
  lemma RepoPartsMatchFullName(prefix: string, owner: string, name: string, git: bool, slashes: nat)
    requires '/' !in owner && '/' !in name && name != "" && !EndsWith(name, ".git")
    ensures var segment := if git then name + ".git" else name;
      RepoParts(RepoUrl(prefix, owner, segment, slashes)) == FullNameParts(owner + "/" + name)
      == Some((owner, name))
  {
    var segment := if git then name + ".git" else name;
    assert '/' !in segment by {
      if git {
        assert segment == name + ".git";
      }
    }
    UrlSegments(prefix, owner, segment, slashes);
    if git {
      assert segment[|segment| - 4..] == ".git";
      assert segment[..|segment| - 4] == name;
    }
    SplitConcat(owner, name, '/');
    assert owner + "/" + name == owner + ['/'] + name;
    SplitNoSeparator(owner, '/');
    SplitNoSeparator(name, '/');
  }

  /**
    As written, a goal created for `<prefix>/<owner>/<name>` (with or without `.git`, with any
    trailing slashes) is recorded under the owner and name a webhook for `<owner>/<name>`
    carries, as long as the name holds no `.git` of its own.
  */
  lemma RepoPartsAsWrittenMatchFullName(prefix: string, owner: string, name: string, git: bool, slashes: nat)
    requires '/' !in owner && '/' !in name && name != "" && !Contains(name, ".git")
    ensures var segment := if git then name + ".git" else name;
      RepoPartsAsWritten(RepoUrl(prefix, owner, segment, slashes)) == FullNameParts(owner + "/" + name)
      == Some((owner, name))
  {
    EndsWithContains(name, ".git");
    RepoPartsMatchFullName(prefix, owner, name, git, slashes);
    var segment := if git then name + ".git" else name;
    assert '/' !in segment by {
      if git {
        assert segment == name + ".git";
      }
    }
    UrlSegments(prefix, owner, segment, slashes);
    if git {
      ContainsSuffix(name, ".git");
      assert ".git"[1..] == "git";
      RemoveTrailing(name, ".git");
    }
  }

  /** Deleting a pattern keeps a leading character that cannot start it. */
  lemma RemoveKeepsHead(c: char, s: string, pat: string)
    requires pat != [] && c != pat[0]
    ensures RemoveAll([c] + s, pat) == [c] + RemoveAll(s, pat)
  {
    if |[c] + s| >= |pat| {
      assert ([c] + s)[..|pat|][0] != pat[0];
    }
    assert ([c] + s)[1..] == s;
  }

  /** `.git` occurs inside `x.github.io`. */
  lemma GitOccursInside()
    ensures Contains("x.github.io", ".git")
  {
    var rest := ".git" + "hub.io";
    assert "x.github.io" == ['x'] + rest;
    assert StartsWith(rest, ".git");
    assert (['x'] + rest)[1..] == rest;
  }

  /** `hub.io` holds no `.git`: deleting it changes nothing. */
  lemma NothingToDelete()
    ensures RemoveAll("hub.io", ".git") == "hub.io"
  {
    assert RemoveAll(".io", ".git") == ".io";
    RemoveKeepsHead('b', ".io", ".git");
    RemoveKeepsHead('u', "b.io", ".git");
    RemoveKeepsHead('h', "ub.io", ".git");
    assert ['b'] + ".io" == "b.io" && ['u'] + "b.io" == "ub.io" && ['h'] + "ub.io" == "hub.io";
  }

  /** A leading occurrence of the pattern is deleted and the scan goes on after it. */
  lemma RemoveLeading(pat: string, tail: string)
    requires pat != []
    ensures RemoveAll(pat + tail, pat) == RemoveAll(tail, pat)
  {
    var s := pat + tail;
    assert s[..|pat|] == pat && s[|pat|..] == tail;
  }

  /**
    An occurrence of the pattern after a head that holds no copy of its first character is
    deleted, and the head is kept.
  */
  lemma {:induction false} DeleteAfterHead(head: string, pat: string, tail: string)
    requires pat != [] && pat[0] !in head && RemoveAll(tail, pat) == tail
    ensures RemoveAll(head + pat + tail, pat) == head + tail
    decreases |head|
  {
    if head == [] {
      assert head + pat + tail == pat + tail;
      RemoveLeading(pat, tail);
    } else {
      var rest := head[1..] + pat + tail;
      assert pat[0] !in head[1..];
      DeleteAfterHead(head[1..], pat, tail);
      assert head + pat + tail == [head[0]] + rest;
      RemoveKeepsHead(head[0], rest, pat);
      assert [head[0]] + (head[1..] + tail) == head + tail;
    }
  }

  /** `x.github.io` is `x`, then `.git`, then `hub.io`. */
  lemma PagesNameShape()
    ensures "x.github.io" == "x" + ".git" + "hub.io"
    ensures "x" + "hub.io" == "xhub.io"
  {
  }

  /** Deleting every `.git` from `x.github.io` leaves `xhub.io`. */
  lemma GitDeletedInside()
    ensures RemoveAll("x.github.io", ".git") == "xhub.io"
  {
    PagesNameShape();
    NothingToDelete();
    DeleteAfterHead("x", ".git", "hub.io");
  }

  /**
    A GitHub Pages repository `<owner>/x.github.io`: the source records the goal under the
    name `xhub.io`, while a webhook for that repository names it `x.github.io`, so the goal
    is never found. Stripping only a trailing `.git` keeps the name the webhook uses.
  */
  lemma GitInsideNameCounterexample(prefix: string, owner: string)
    requires '/' !in owner
    ensures RepoPartsAsWritten(RepoUrl(prefix, owner, "x.github.io", 0)) == Some((owner, "xhub.io"))
    ensures FullNameParts(owner + "/" + "x.github.io") == Some((owner, "x.github.io"))
    ensures RepoParts(RepoUrl(prefix, owner, "x.github.io", 0)) == Some((owner, "x.github.io"))
  {
    var name := "x.github.io";
    assert !EndsWith(name, ".git") by {
      assert name[|name| - 4..][0] == 'b';
    }
    RepoPartsMatchFullName(prefix, owner, name, false, 0);
    UrlSegments(prefix, owner, name, 0);
    GitOccursInside();
    GitDeletedInside();
  }
}
