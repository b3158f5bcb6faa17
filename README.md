# Git-Done goal-completion engine, in Dafny

Git-Done lets a GitHub user set a goal with a deadline on one of their repositories. The goal
completes when a pushed commit message contains a chosen phrase, or when a chosen issue is
closed. A public widget counts down to the deadline. This project models that engine and
proves what it does.

- **Deadlines** (`deadlines.dfy`, over `instants.dfy` and `text.dfy`): `parse_deadline` tries
  three forms in a fixed order. First ISO 8601 with every `Z` deleted, then
  `%Y-%m-%dT%H:%M`, then `%d/%m/%Y %H:%M`. The formats the application renders read back
  through it.
- **Goals** (`goals.dfy`): the `Goal` record and `to_dict`. It also splits a repository URL
  into an owner and a name.
- **Signature gate** (`signatures.dfy`): `sha256=` followed by the lower-case hex of an
  HMAC-SHA256 of the raw body (section 2 of RFC 2104), with the hex encoding modelled exactly.
- **Webhook** (`webhooks.dfy`): `github_webhook` as a function from the goals before a
  delivery to the reply and the goals after it.
- **Lifecycle** (`lifecycle.dfy`): `create_goal`, `update_goal` and `delete_goal` as
  functions from the store before a request to the reply and the store after it, with the
  store invariant each one keeps.
- **Embed** (`embed.dfy`): `embed_widget` and `embed_data`.
- **Imperative store** (`store.dfy`): a `GoalStore` class whose methods do what the handlers do
  step by step:
  - scan for the first active goal;
  - scan the commits and stop at the first match;
  - insert a row, then set its webhook id;
  - assign an update's fields one by one;
  - remove a row.

  Each method is proved to leave the store as the matching function says.
- **Dashboard** (`countdown.dfy`): the countdown of `static/js/app.js`:
  - milliseconds clamped to whole seconds;
  - the split into days, hours, minutes and seconds;
  - the `HH:MM:SS` text, with a parser proving it readable;
  - the urgency tiers, the initial status line and the repository label;
  - a `CountdownBoard` class for the map of running intervals.

Clocks, random tokens, the HMAC primitive and GitHub's answers are parameters. `now` is what
`datetime.utcnow()` read, `token` is what `secrets.token_urlsafe` drew, `Config.hmac` is the
MAC, and `Registration` is what GitHub answered. A request that fails changes nothing, because
Flask discards the request's database session without a commit. A handler that raises is a
500 `ErrorPage` reply.

Three behaviours of the code differ from what its surface suggests, and the model follows
the code:

- **Unparseable deadline on create.** The validation block of `create_goal` answers 400, but
  `parse_deadline` runs inside the `try` whose handler answers 500 `Database error: …`.
  `Lifecycle.CreateDeadlineErrors` states the 500.
- **`.git` in a repository name.** `repo_name.replace('.git', '')` deletes every `.git` in
  the name. Clone URLs end in `.git`, so removing that suffix is evidently what is meant, and
  GitHub Pages repositories are named `<user>.github.io`, which the deletion turns into
  `<user>hub.io`. The naming rule is a parameter (`Goals.NameRule`). `Lifecycle.Create` and
  `GoalStore.CreateGoal` use the rule as written, every lifecycle lemma holds under both
  rules, and the discrepancy is logged under Findings.
- **Unusable webhook payloads.** A `repository.full_name` that does not split into exactly
  two parts makes the unpacking raise, and so does a `null` repository, issue, commit list or
  commit message, or a JSON body that is not an object. Each is modelled as the 500 reply that
  follows, not as a precondition, so every delivery is in the model's domain. A body that is
  not JSON at all is refused by `get_json` with 400 before the event is looked at.

Two behaviours that are not bugs are proved as lemmas:

- **Time's up early.** The dashboard shows "TIME'S UP" up to a second before the server
  counts the goal as overdue (`Dashboard.DashboardCallsTimeEarly`).
- **Dead status text.** The card's "Time's up!" status text belongs to a `failed` status that
  no code path ever stores (`Dashboard.NoCardStartsFailed`).

## Model

| member | source | states |
|---|---|---|
| Instants.BeforeIffEarlier | application.py:386 | Python's field-by-field `<` on datetimes agrees with the order of their instants on a microsecond time line |
| Instants.EpochMicrosInjective | application.py:543 | two valid datetimes at the same instant are equal, so `deadline - now` is zero only at the deadline itself |
| Text.NatToString | application.py:238 | `str(n)` of a natural: non-empty decimal digits reading back as `n`, with no leading zero except for 0 itself |
| Text.IntToStringInjective | application.py:238 | different integers have different `str()` texts |
| Text.ZeroPad | application.py:394 | the zero padding of `strftime` fields: digits reading back as `n`, exactly `width` long when `n` fits |
| Text.StripEmptyIff | application.py:476-478 | `strip()` leaves the empty string exactly when every character is whitespace |
| Text.StripShape | application.py:476 | `strip()` keeps one contiguous slice of its input, with no whitespace at either end |
| Text.StripIdempotent | application.py:476 | stripping twice gives what stripping once does |
| Text.RStripRun | application.py:371 | `rstrip('/')` removes exactly a run of trailing slashes |
| Text.SplitConcat | application.py:371 | `split` of two texts joined by the separator is the concatenation of their splits |
| Text.JoinSplit | application.py:199 | joining the parts of `split(c)` with `c` gives back the input |
| Text.ContainsAt | application.py:212 | the `in` test on strings holds exactly when the needle occurs at some position |
| Text.RemoveAbsent | application.py:373 | `replace(p, '')` changes nothing when `p` does not occur |
| Deadlines.MakeDateTime | application.py:93-104 | a datetime is built exactly when its fields name a real calendar date and time; otherwise the constructor raises |
| Deadlines.ParseIso | application.py:93 | what the ISO form accepts is a valid datetime with no fraction of a second |
| Deadlines.ParseCompact | application.py:98 | what `%Y-%m-%dT%H:%M` accepts is valid, with no seconds |
| Deadlines.ParseDisplay | application.py:103 | what `%d/%m/%Y %H:%M` accepts is valid, with no seconds |
| Deadlines.ParseDeadline | application.py:84-106 | fails with `Missing deadline` exactly when the input is absent or empty; a success is a valid datetime with no fraction |
| Deadlines.NoZInRenderings | application.py:93 | no rendering the application produces holds a `Z`, so deleting `Z`s leaves it as it was |
| Deadlines.IsoParsesIsoFormat | application.py:93 | `fromisoformat` reads `isoformat()` of a whole-second datetime back to it |
| Deadlines.IsoZRoundTrip | application.py:84-106 | the JSON deadline `isoformat() + 'Z'` parses back to the stored deadline |
| Deadlines.IsoParsesCompactFormat | application.py:93 | the ISO form already accepts `YYYY-MM-DDTHH:MM`, and reads it as the minute written |
| Deadlines.CompactRoundTrip | application.py:97-100 | a whole-minute datetime written `%Y-%m-%dT%H:%M` parses back to it |
| Deadlines.DisplayRejectedByOthers | application.py:92-100 | a `DD/MM/...` string is refused by both earlier forms, so it reaches the display form |
| Deadlines.DisplayReads | application.py:103 | `strptime` with the display format reads a formatted whole-minute datetime back to it |
| Deadlines.DisplayRoundTrip | application.py:102-105 | formatting a whole-minute datetime with `%d/%m/%Y %H:%M` and parsing it gives it back |
| Deadlines.CompactAndDisplayAgree | application.py:97-105 | the compact and the display writing of the same minute parse to the same datetime |
| Deadlines.IsoAndCompactAgree | application.py:92-100 | where the ISO form and the compact form both accept a string they read the same datetime, so trying ISO first changes no result |
| Deadlines.ExampleDisplay | application.py:394 | 23:59 on 12 December 2025 is displayed `12/12/2025 23:59` |
| Deadlines.SameMinuteBothForms | application.py:84-106 | `"12/12/2025 23:59"` and `"2025-12-12T23:59"` parse to the same datetime |
| Deadlines.LeadingBlankRefused | application.py:92-100 | neither the ISO nor the compact form accepts a text that starts with a blank |
| Deadlines.BlankPaddedDayRoundTrip | application.py:102-105 | a one-digit day written with a leading blank instead of a zero (`%d` also accepts ` 5`) still parses back to the whole-minute datetime |
| Deadlines.BlankPaddedCompactDay | application.py:97-100 | the ISO form refuses `YYYY-MM- DTHH:MM`, and the compact form reads it back to the whole-minute datetime |
| Deadlines.SpacePaddedDay | application.py:84-106 | `" 5/12/2025 23:59"` parses to 23:59 on 5 December 2025 |
| Goals.StatusName | application.py:54 | the stored status text is `active` or `completed`, `completed` exactly for a completed goal |
| Goals.ParseCompletionType | application.py:377-379 | a completion type is accepted exactly when it is `commit` or `issue` |
| Goals.CompletionTypeName | application.py:53 | the stored type text reads back as the type |
| Goals.ToDict | application.py:62-82 | the dictionary carries the goal's id, owner, title, details, repository URL and condition unchanged, a type text that reads back as its type, its status text, its creation and completion times as `isoformat()` with `Z` (a completion time exactly when it has one), its embed token, its embed URL, and the stored display string as `deadline_display` when one is stored |
| Goals.ToDictDeadlineRoundTrip | application.py:71 | the dictionary's `deadline` parses back to the goal's deadline |
| Goals.ToDictDisplayFallback | application.py:65-66 | the dictionary's `deadline_display` is the stored display string when it is non-empty; otherwise it is the formatted deadline and parses back to it |
| Goals.DefaultEmbedUrl | tests/test_models.py:54 | with `BASE_URL` unset the base is `http://localhost:5000`: token `test-token` gives `http://localhost:5000/embed/test-token` |
| Goals.LastTwoSegments | application.py:371 | unpacking the last two segments succeeds exactly when the URL, trailing slashes removed, has at least two segments |
| Goals.RepoPartsAsWritten | application.py:369-375 | the split as written: defined exactly when the unpacking succeeds, deleting every `.git` from the name |
| Goals.StripGitSuffix | application.py:372-373 | a name ending in `.git` loses exactly that suffix; any other name is kept |
| Goals.RepoParts | application.py:369-375 | the corrected split: defined exactly when the unpacking succeeds, removing only a trailing `.git` |
| Goals.RepoPartsBy | application.py:369-375 | under either naming rule the split is defined exactly when the unpacking of the last two segments succeeds |
| Goals.FullNameParts | application.py:199 | `full_name.split('/')` unpacks into an owner and a name without slashes that rejoin to the full name |
| Goals.UrlSegments | application.py:371 | for `<prefix>/<owner>/<segment>` with any trailing slashes, the last two segments are the owner and the segment |
| Goals.RepoPartsMatchFullName | application.py:369-375 | a goal created for `<prefix>/<owner>/<name>[.git][/…]` is recorded under the owner and name that `<owner>/<name>` unpacks to |
| Goals.RepoPartsAsWrittenMatchFullName | application.py:369-375 | as written, `<prefix>/<owner>/<name>[.git][/…]` is recorded under the owner and name `<owner>/<name>` unpacks to, provided the name holds no `.git` of its own |
| Goals.GitDeletedInside | application.py:373 | deleting every `.git` from `x.github.io` leaves `xhub.io` |
| Goals.GitInsideNameCounterexample | application.py:371-373 | as written, `<owner>/x.github.io` is recorded as `xhub.io`, while its webhook names `x.github.io`; the corrected split keeps `x.github.io` |
| Signatures.HexChar | application.py:186 | each hex digit reads back as its value |
| Signatures.HexRoundTrip | application.py:186 | decoding `hexdigest()` gives the digest bytes back |
| Signatures.HexCanonical | application.py:186-188 | a string that decodes to some bytes is exactly their `hexdigest()`, so only one header text carries a given MAC |
| Signatures.HexInjective | application.py:186 | different digests have different hex texts |
| Signatures.HexIsAscii | application.py:186 | a hex digest is ASCII |
| Signatures.ExpectedSignature | application.py:181-186 | the expected header is ASCII, starts with `sha256=`, and its rest decodes to the MAC of the body under the secret key |
| Signatures.CheckSignature | application.py:178-189 | missing exactly when the header is absent or empty; accepted exactly when the header equals the expected signature |
| Signatures.AcceptedIffMac | application.py:186-189 | a header is accepted exactly when it is `sha256=` followed by a hex text decoding to the body's MAC |
| Webhooks.FirstActive | application.py:200-205 | the position `.first()` returns: the earliest goal of that repository and type that is still active, or none when no goal is |
| Webhooks.CommitLoop | application.py:210-216 | the loop runs past the last commit exactly when it reads every message and none contains the condition; it stops on a match only when some message contains the condition |
| Webhooks.RepositoryName | application.py:195 | `payload.get('repository', {}).get('full_name')` raises exactly when the repository is `null`, and a missing repository gives no name |
| Webhooks.IssueNumber | application.py:222 | `payload.get('issue', {}).get('number')` raises exactly when the issue is `null`, and a missing issue gives no number |
| Webhooks.Commits | application.py:210 | `payload.get('commits', [])` raises in the loop exactly when the list is `null`, and a missing list is empty |
| Webhooks.Push | application.py:194-216 | a push either changes nothing or completes one active goal at `now`; a `null` repository or commit list, an unsplittable full name or a `null` message the loop reaches is a 500 that changes nothing |
| Webhooks.Issues | application.py:218-241 | an issues event either changes nothing or completes one active goal at `now`; a `null` repository or issue, or an unsplittable full name, is a 500 that changes nothing |
| Webhooks.Webhook | application.py:177-243 | at most one active goal completes; a missing header is refused 403; an unaccepted signature, another event kind, or a body that is not a JSON object changes nothing |
| Webhooks.ForgedDeliveryRejected | application.py:186-189 | any printable header that is not `sha256=` and the body's MAC in hex is answered 403 and changes nothing |
| Webhooks.OnlyActiveGoalsComplete | application.py:194-243 | a delivery keeps every goal in its place, never touches a completed goal, and changes at most one goal, and only its status and completion time |
| Webhooks.LoopWithoutNulls | application.py:210-216 | with no `null` message the loop matches exactly when some message contains the condition, and otherwise runs to the end |
| Webhooks.NullMessageRaises | application.py:210-212 | a `null` message reached before any match makes the loop raise |
| Webhooks.PushCompletesIff | application.py:199-216 | a signed push whose commits carry no `null` message completes the first active commit-type goal of its repository exactly when some commit message contains the condition, and touches no other goal; with no such goal it answers 200 and changes nothing |
| Webhooks.NullCommitsFailPush | application.py:210-216 | a signed push for a repository with an active commit goal whose commit list is `null`, or whose loop reaches a `null` message before a match, is answered 500 and changes no goal |
| Webhooks.PushWithoutRepositoryRefused | application.py:195-197 | a signed push whose repository is missing or has no full name is answered 400 and changes nothing |
| Webhooks.UnusableBodiesFail | application.py:191-224 | a signed body that is not JSON is answered 400; a JSON body that is not an object fails a push or issues event with 500; a `null` repository fails a push, and a `null` repository or issue fails a closed-issue event with 500; none changes a goal |
| Webhooks.IssueCompletesIff | application.py:227-241 | a signed `closed` event completes the first active issue-type goal exactly when its condition is the number with or without `#`, and touches no other goal |
| Webhooks.OtherIssueActionsIgnored | application.py:219-220 | issue actions other than `closed` are acknowledged and change nothing |
| Webhooks.IssueZeroRefused | application.py:224-225 | issue number 0 is falsy, so a closed event whose repository is not `null` is refused with 400 |
| Webhooks.EmptyConditionMatchesAnyPush | application.py:212 | an empty condition matches any push that carries a commit |
| Webhooks.IssueExample | application.py:238 | condition `#42` and condition `42` are met by issue 42, and `#42` is not met by issue 4 |
| Lifecycle.Get | application.py:391-396 | `data.get(key)` is a string exactly when the key is present and not null |
| Lifecycle.RemoveAt | application.py:447 | deleting a row keeps every other row, in order |
| Lifecycle.AppendPreserves | application.py:402-403 | inserting a valid, fresh goal with the next id and an unused token keeps the store invariant |
| Lifecycle.ReplacePreserves | application.py:507-509 | rewriting a goal without touching its id and token keeps the store invariant |
| Lifecycle.RemovePreserves | application.py:447-448 | deleting a row keeps the store invariant |
| Lifecycle.DeadlineMessage | application.py:88-89 | the error text is `Missing deadline` exactly for the missing-deadline error |
| Lifecycle.DeadlineOf | application.py:382-383 | what `parse_deadline` makes of the body's deadline is, on success, valid with no fraction |
| Lifecycle.ChosenDisplayReadsBack | application.py:394 | the display string stored on create is the supplied one when it is non-empty; otherwise it is the formatted deadline, which parses back to the deadline |
| Lifecycle.HookIdTextInjective | application.py:418 | `str(webhook_data.get('id'))` is one-to-one: different ids, or an id and none, never give the same stored text |
| Lifecycle.RequestedType | application.py:377-379 | an absent type means `commit`, a null one is refused, and any other must be `commit` or `issue` |
| Lifecycle.CheckCreate | application.py:353-406 | a request that passes every check had a session for a known user, all required keys, a repository URL that splits under the naming rule, a valid type, and a deadline that parses and is not before `now`; its token is unused; every failure is 400, 401, 404 or 500 |
| Lifecycle.NewGoal | application.py:389-401 | the new row is active and valid, with no completion time and no webhook id, the given id, owner, token and creation time, and as display string the supplied one or the formatted deadline |
| Lifecycle.CreateWith | application.py:352-423 | no session gives 401; a reply other than 201 leaves the store as it was and asks GitHub for nothing; a 201 appends one goal and advances the id counter; a registration is asked for only when `BASE_URL` is set |
| Lifecycle.Inserted | application.py:402-423 | the insertion answers 201 and appends exactly one goal; a registration is asked for exactly when `BASE_URL` is set |
| Lifecycle.CreatedGoal | application.py:389-423 | the created goal belongs to the session's user; its title, details, condition and repository URL are the request's, its type the requested one, and its owner and name the URL's split; it is active with no completion time, has the next id, the drawn unused token, the parsed deadline (not before `now`) and the chosen display string, and has a webhook id exactly when a registration was asked for and answered; the reply is 201 with that goal |
| Lifecycle.CreateValidationOrder | application.py:353-367 | with a session and a non-empty body, missing keys are answered 400 and an unknown user 404, and neither changes the store or asks GitHub for anything |
| Lifecycle.CreateRefusesBadUrl | application.py:369-375 | past the keys and the user, a repository URL without two segments is answered 400 with the `https://github.com/owner/repo` format hint, changes nothing and asks GitHub for nothing |
| Lifecycle.CreateRefusesUnknownType | application.py:377-379 | past the URL, a `null` completion type or one other than `commit` or `issue` is answered 400, changes nothing and asks GitHub for nothing |
| Lifecycle.CreateDeadlineErrors | application.py:381-406 | a deadline that does not parse is answered 500 and one before `now` 400, and neither changes the store |
| Lifecycle.CreatedGoalAwaitsItsRepository | application.py:369-375 | a goal created for `<prefix>/<owner>/<name>[.git][/…]` is one that a push or issue event for `<owner>/<name>` finds: always under the corrected rule, and as written when the name holds no `.git` |
| Lifecycle.CreatedPagesGoalMissed | application.py:369-375 | as written, a goal created for `<prefix>/<owner>/x.github.io` is recorded as `xhub.io` and no event for `<owner>/x.github.io` finds it; under the corrected rule the same request creates a goal such an event finds |
| Lifecycle.CreatePreserves | application.py:389-403 | creation keeps the store invariant: increasing ids, unique tokens, completed exactly when a completion time is set |
| Lifecycle.FindById | application.py:462 | the position `Goal.query.get` finds: the goal with that id, or none when no goal has it |
| Lifecycle.ApplyUpdate | application.py:475-505 | a successful update changes only title, details, deadline, display string, condition and type, and keeps the goal valid; a failure is a 400 |
| Lifecycle.UpdateFields | application.py:475-505 | each supplied field takes its new value: title and details stripped and non-empty; the condition stripped; the type parsed; the deadline as parsed with no past-deadline check; the display string rewritten only with a deadline. Absent and null fields keep their value |
| Lifecycle.UpdateKeepsIdentity | application.py:475-505 | an update never changes the id, owner, status, times, token, repository or webhook id, so no update reopens a completed goal |
| Lifecycle.RevisedIdempotent | application.py:476-479 | revising a text field twice with the same value gives what revising once does |
| Lifecycle.UpdateIdempotent | application.py:475-505 | applying the same update twice leaves the goal as applying it once does |
| Lifecycle.UpdateWith | application.py:455-514 | no session gives 401; a reply other than 200 leaves the store as it was; a 200 replaces exactly the session user's goal with that id by the updated goal |
| Lifecycle.UpdateHidesOthersGoals | application.py:462-464 | a missing goal and another user's goal get the same 404 and change nothing |
| Lifecycle.UpdatePreserves | application.py:507-509 | an update keeps the store invariant |
| Lifecycle.FindOwned | application.py:432 | the position of the goal with that id and owner, or none when there is no such goal |
| Lifecycle.UnhookFor | application.py:437-441 | deregistration is asked for exactly when the goal has a webhook id, owner and name and the user has an access token, and with those values |
| Lifecycle.Delete | application.py:426-450 | no session gives 401; a reply other than 200 leaves the store as it was and asks GitHub for nothing; a 200 removes exactly the session user's goal with that id, asking for the goal's deregistration; a verdict on the deregistration exists exactly when it was asked for and GitHub answered |
| Lifecycle.DeleteWhateverGitHubAnswers | application.py:437-450 | GitHub's answer, or a request that raised, changes neither the reply, the store nor the request; `delete_github_webhook`'s verdict (lines 138-141) is success exactly for status 204 or 404 |
| Lifecycle.DeleteOwnerOnly | application.py:432-434 | someone else's goal and a missing goal both give 404 and change nothing |
| Lifecycle.DeleteRemovesOnlyThatGoal | application.py:447-448 | a successful delete leaves one goal fewer, none with that id, and every other goal |
| Lifecycle.RemoveOnly | application.py:447 | removing a row of a well-formed store leaves no goal with its id and every other goal |
| Lifecycle.DeletePreserves | application.py:447-448 | a delete keeps the store invariant |
| Lifecycle.WebhookPreserves | application.py:212-241 | a webhook delivery keeps the store invariant |
| Embed.FindByToken | application.py:533 | the goal `filter_by(embed_token=…).first()` returns: the earliest holding the token, or none when no goal holds it |
| Embed.TokenNamesOneGoal | application.py:57 | in a well-formed store, a token names exactly one goal |
| Embed.Theme | application.py:523-525 | the theme is `light` or `dark`, and `light` exactly when `light` was asked for |
| Embed.EmbedWidget | application.py:517-529 | 404 `Widget not found` exactly when no goal holds the token; otherwise 200 with that goal's page in the chosen theme, framable by anyone |
| Embed.EmbedLinkOpensItsWidget | application.py:81 | a goal of a well-formed store has an embed URL exactly when it has a token; the URL is `<base>/embed/<token>`, and the widget served for that token is this goal's page |
| Embed.TruncatedSeconds | application.py:544 | `int()` of a number of seconds given in microseconds truncates toward zero |
| Embed.CountdownAt | application.py:539-545 | a completed goal has 0 left and is not overdue; an active goal is overdue exactly when its deadline is not after `now`, and otherwise has the whole seconds to its deadline left |
| Embed.OverdueHasNothingLeft | application.py:539-545 | an overdue goal has nothing left, and a goal with time left is active and before its deadline |
| Embed.RemainingNeverGrows | application.py:542-545 | asked later, the widget never reports more time left, and an overdue goal stays overdue |
| Embed.EmbedData | application.py:532-572 | 404 `Goal not found` exactly when no goal holds the token; otherwise 200 with the data of a goal holding it |
| Embed.ServedDataDescribesTheGoal | application.py:547-559 | in a well-formed store, the data served for a token describes the one goal holding it, its `completed_at` being that goal's completion time as `isoformat()` with `Z`; it is cached exactly when that goal is completed, and its `deadline` parses back to the stored one |
| Dashboard.SecondsLeft | static/js/app.js:248-249 | the clamped seconds are never negative, are the whole seconds in the milliseconds, and are 0 exactly below one second |
| Dashboard.Decompose | static/js/app.js:260-263 | hours below 24, minutes and seconds below 60, and `days*86400 + hours*3600 + minutes*60 + seconds` is the count |
| Dashboard.DecomposeRecompose | static/js/app.js:260-263 | every in-range split is the split of its recomposition |
| Dashboard.Pad2 | static/js/app.js:267 | `padStart(2, '0')` of a number below 100 is two digits reading back as it |
| Dashboard.ClockRoundTrip | static/js/app.js:269 | `HH:MM:SS` reads back as its hours, minutes and seconds |
| Dashboard.DaysTextRoundTrip | static/js/app.js:266-267 | `<days>d HH:MM:SS` reads back as its parts |
| Dashboard.ClockOnlyRoundTrip | static/js/app.js:268-269 | under a day the text is the clock alone and reads back with no days |
| Dashboard.ClockTextRoundTrip | static/js/app.js:265-270 | every countdown text reads back as the decomposition of its seconds |
| Dashboard.ClockTextInjective | static/js/app.js:265-270 | different seconds show different texts |
| Dashboard.TierOf | static/js/app.js:275-284 | under an hour, under a day, one to six days (the day count), or the date, by the thresholds 3600, 86400 and 604800 |
| Dashboard.DaysText | static/js/app.js:281 | after the calendar and a blank, the line's digits read back as the day count, and it says `days` exactly when the count is above one |
| Dashboard.TierText | static/js/app.js:275-284 | every tier but the date has a fixed status line |
| Dashboard.FrameAt | static/js/app.js:248-284 | time's up exactly below one second; otherwise the text reads back as the split of the seconds, urgent exactly under an hour, with the tier's status line |
| Dashboard.NotACount | static/js/app.js:251-252 | a text that does not start with a digit never reads as a countdown |
| Dashboard.TickShowsCountOrTimesUp | static/js/app.js:245-270 | what a tick shows reads back as the split of the whole seconds left exactly while a second or more remains, and the status line is the time's-up line exactly when less than a second does |
| Dashboard.DashboardCallsTimeEarly | static/js/app.js:249-251 | with under a second to go, the dashboard shows time's up while the server does not count the goal overdue |
| Dashboard.DashboardAgreesWithWidget | static/js/app.js:248-249 | the dashboard's seconds equal the widget's `time_remaining` for an active goal |
| Dashboard.StatusTextTellsStatus | static/js/app.js:172-180 | the three status lines differ, so the card's first line tells `completed`, `failed` and any other status apart |
| Dashboard.NoCardStartsFailed | static/js/app.js:177-179 | no status the server stores gives the card the `Time's up!` line |
| Dashboard.StoredStatusCard | static/js/app.js:172-230 | a card for a status the server stores never keeps its placeholder: it shows `DONE` under the completed line exactly when completed, and otherwise starts a countdown under the counting-down line; neither first text reads as a countdown |
| Dashboard.RepoNameMatchesServer | static/js/app.js:183 | for `<prefix>/<owner>/<name>` with no `.git` in the name, the card shows `<owner>/<name>`, the pair the server records as written |
| Dashboard.RepoNameTrailingSlash | static/js/app.js:183 | with one trailing slash the card shows `<name>/`, while the server still records `<owner>` and `<name>` |
| Dashboard.CountdownBoard.OneIntervalPerGoal | static/js/app.js:287-294 | at most one interval runs for each goal |
| Dashboard.CountdownBoard.Start | static/js/app.js:287-294 | the goal's previous interval is stopped, one tick is shown, a new interval is registered for the goal, and at most one interval per goal stays running |
| Dashboard.CountdownBoard.Tick | static/js/app.js:245-257 | a tick shows the frame of its milliseconds and stops its own interval exactly when time is up |
| GoalStores.GoalStore.FindFirstActive | application.py:200-205 | the scan returns the position `FirstActive` names |
| GoalStores.GoalStore.CompleteOnCommit | application.py:210-216 | the commit loop ends as `CommitLoop` says, completes the goal at `now` exactly on a match, and otherwise changes nothing |
| GoalStores.GoalStore.HandleWebhook | application.py:177-243 | the handler's reply and new goals are those of `Webhook`, and the store invariant is kept |
| GoalStores.GoalStore.HandlePush | application.py:194-216 | reply and goals as `Push` |
| GoalStores.GoalStore.HandleIssues | application.py:218-241 | reply and goals as `Issues` |
| GoalStores.GoalStore.CreateGoal | application.py:352-423 | with the body's own deadline parsed, reply, store and registration request as `Create` (the naming rule as written), and the store invariant is kept |
| GoalStores.GoalStore.Insert | application.py:402-419 | the insert and the in-place webhook id leave the store as `Inserted` says |
| GoalStores.GoalStore.FindGoal | application.py:462 | the scan returns the position `FindById` names |
| GoalStores.GoalStore.UpdateGoal | application.py:455-514 | with the body's own deadline parsed, reply and store as `Update`, and the store invariant is kept |
| GoalStores.GoalStore.AssignFields | application.py:475-505 | the field-by-field assignments give what `ApplyUpdate` gives |
| GoalStores.GoalStore.FindOwnedGoal | application.py:432 | the scan returns the position `FindOwned` names |
| GoalStores.GoalStore.DeleteGoal | application.py:426-450 | reply, store, deregistration request and verdict as `Delete`, and the store invariant is kept |

## Left out

- OAuth login and callback, and the network calls of `create_github_webhook` and
  `delete_github_webhook`. What GitHub answers is a parameter (`Registration`, a status code),
  and the requests sent are returned (`HookRequest`, `UnhookRequest`).
- The SHA-256, HMAC and MD5 primitives. The MAC is a function parameter of `Config`, and the
  `ETag` header is not modelled. `hmac.compare_digest` is modelled as equality: its
  constant-time behaviour cannot be stated. A header that is not ASCII makes it raise, which
  is modelled as 500.
- The CORS headers and `Pragma`/`Expires`, which are constants. `CachePolicy` names the two
  `Cache-Control` values.
- Webhooks.Webhook: every delivery is taken as JSON. A request whose content type is not JSON
  is refused by `get_json`: with 400 from Werkzeug 2.1 and with 415 from 2.3. Before 2.1 it is
  read as `None`. A `push` or `issues` event then fails at its first `.get` with 500, and any
  other event never reads the payload and gets 200 `received`. None of these is modelled.
  Payload members of other JSON types are not modelled either: a `full_name` that is not a
  string, a `number` that is not an integer, a `commits` value that is not a list, a commit
  that is not an object.
- Lifecycle.CreateWith: the commit of the new row never fails in the model apart from a
  token that is already in use. The columns limit `title` to 255 characters,
  `deadline_display` to 25 and `completion_condition` to 200 (application.py:47-52). On a
  database that enforces those limits, a longer value makes the commit raise, and create
  answers 500 `Database error` (application.py:402-406). The model answers 201 for any length,
  because whether the limit is enforced depends on the database engine.
- Lifecycle.UpdateWith: for the same reason, the model has no 500 path for a commit that fails
  (application.py:506-512). An update with a value beyond its column's limit is answered 200
  in the model. Its `Unparseable` body is answered 400, as malformed JSON is in every Werkzeug
  version. But `update_goal` calls `get_json()` without catching its error (application.py:466),
  so a body whose content type is not JSON gets 415 from Werkzeug 2.3 on. Before 2.1 such a
  body is read as `None`, which `or {}` turns into an empty update answered 200 with the goal
  unchanged. Neither version-dependent reply is modelled.
- JSON values other than strings and null in request bodies. `title` given as a number, for
  example, makes `.strip()` raise. Exception texts after `Invalid JSON data:` and
  `Database error:` are also left out.
- Deadlines.ParseIso: models `fromisoformat` on `YYYY-MM-DD[<sep>HH:MM[:SS]]` only. Every
  Python that has `fromisoformat` (3.7 on) also accepts an hour alone, fractions of a second
  and UTC offsets, and 3.11 on accepts the basic format and week dates as well. The model
  refuses all of these. They fall through to the other two forms, which refuse them too, so
  the model answers an error where Python parses. For the same reason, its promise that a
  parsed deadline has no fraction of a second holds of the model only.
- Deadlines.ParseCompact: `\d` in `strptime`'s patterns also matches non-ASCII decimal digits,
  such as Arabic-Indic ones. The model accepts ASCII digits only.
- Deadlines.ParseDisplay: the same restriction to ASCII digits as `ParseCompact`. The blank
  that `%d` accepts before a one-digit day is modelled.
- Deadlines.FormatDisplay: always writes the year with four digits. For years below 1000,
  what `%Y` writes depends on the platform's C library and the Python version.
- Deadlines.ParseDeadline: its `str()` of non-string input is not modelled, because the body
  model holds only strings.
- Embed.CountdownAt: works in exact microseconds. It does not model the floating-point
  rounding of `total_seconds()` for spans of more than about 285 years.
- Dashboard.FrameAt: the milliseconds to the deadline are a parameter, because JavaScript
  `Date` parsing is not modelled. The date shown in the last tier comes from
  `toLocaleDateString`, is locale-dependent, and is not modelled.
- The database's id assignment is a counter (`nextId`). Row order is insertion order, since
  the queries' `.first()` has no ORDER BY. Concurrent requests are out of scope: each request
  is one atomic step.
- `GitDoneApp`'s in-place updates of `this.goals` (static/js/app.js:66, 134). The DOM, theme,
  notification and service-worker code are also left out.
- The `description` field some tests use, which the `Goal` table does not have. The model
  follows the table's `title` and `details`.
- `get_goals`, `health_check`, `migrate_schema`, the ICS export and migrate_db.py: listing,
  plumbing and templating outside the engine.

## Findings

| source | as written | input that shows it | evidently intended | confidence | as-written member | corrected member |
|---|---|---|---|---|---|---|
| application.py:372-373 | `repo_name.replace('.git', '')` deletes every `.git` in the repository name | repo URL `https://github.com/<owner>/x.github.io`: the goal is stored under name `xhub.io`, but a webhook for that repository carries `<owner>/x.github.io`, so the goal never completes | strip only the trailing `.git` that clone URLs end in, so that `<user>.github.io` keeps its name | high, not executed | Lifecycle.CreatedPagesGoalMissed | Lifecycle.CreatedGoalAwaitsItsRepository |
