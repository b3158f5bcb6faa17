/**
  The public embed endpoints (application.py:516-579): `embed_widget` serves the widget page of
  the goal that holds a token, and `embed_data` the goal's countdown figures as JSON. Both look
  the goal up by its embed token and need no session.
*/
module Embed {
  import opened Wrappers
  import opened Instants
  import opened Deadlines
  import opened Goals
  import opened Lifecycle

  /** The position of the goal `filter_by(embed_token=token).first()` returns. */
  function FindByToken(goals: seq<Goal>, token: string): (r: Option<nat>)
    ensures r.Some? ==> r.value < |goals| && goals[r.value].embedToken == Some(token)
    ensures r.Some? ==> forall j :: 0 <= j < r.value ==> goals[j].embedToken != Some(token)
    ensures r.None? ==> forall j :: 0 <= j < |goals| ==> goals[j].embedToken != Some(token)
  {
    if goals == [] then None
    else if goals[0].embedToken == Some(token) then Some(0)
    else
      match FindByToken(goals[1..], token)
      case None => None
      case Some(i) => Some(i + 1)
  }

  /** In a well-formed store the goal found for a token is the only one holding it. */
  lemma TokenNamesOneGoal(s: Store, token: string, j: nat)
    requires WellFormed(s) && j < |s.goals| && s.goals[j].embedToken == Some(token)
    ensures FindByToken(s.goals, token) == Some(j)
  {
  }

  // ---------------------------------------------------------------------------
  // The widget page
  // ---------------------------------------------------------------------------

  /** `request.args.get('theme', 'dark')`, with anything but the two themes read as `dark`. */
  function Theme(requested: Option<string>): (theme: string)
    ensures theme == "light" || theme == "dark"
    ensures theme == "light" <==> requested == Some("light")
  {
    if requested == Some("light") then "light" else "dark"
  }

  datatype WidgetBody =
    | PlainText(text: string)
    | Page(goal: Goal, theme: string)   // `embed.html` rendered for the goal in the theme

  /** The reply, with its `X-Frame-Options` header when it sets one. */
  datatype WidgetReply = WidgetReply(code: int, body: WidgetBody, frameOptions: Option<string>)

  /** `embed_widget`: a page anyone may frame, or 404 for an unknown token. */
  function EmbedWidget(goals: seq<Goal>, token: string, theme: Option<string>): (r: WidgetReply)
    ensures r.code == 404 <==> forall j :: 0 <= j < |goals| ==> goals[j].embedToken != Some(token)
    ensures r.code == 404 ==> r == WidgetReply(404, PlainText("Widget not found"), None)
    ensures r.code != 404 ==>
      (&& r.code == 200 && r.frameOptions == Some("ALLOWALL")
       && r.body.Page? && r.body.goal in goals && r.body.goal.embedToken == Some(token)
       && r.body.theme == Theme(theme))
  {
    match FindByToken(goals, token)
    case None => WidgetReply(404, PlainText("Widget not found"), None)
    case Some(i) => WidgetReply(200, Page(goals[i], Theme(theme)), Some("ALLOWALL"))
  }

  /**
    The embed URL `to_dict` hands out for a goal of a well-formed store is the base URL,
    `/embed/` and the goal's token, and the widget served for that token is this goal's page;
    a goal without a token gets no URL.
  */
  lemma EmbedLinkOpensItsWidget(s: Store, j: nat, baseUrl: string, theme: Option<string>)
    requires WellFormed(s) && j < |s.goals|
    ensures var url := ToDict(s.goals[j], baseUrl).embedUrl;
      && (url.Some? <==> Truthy(s.goals[j].embedToken))
      && (url.Some? ==>
            var token := s.goals[j].embedToken.value;
            && url.value == baseUrl + "/embed/" + token
            && EmbedWidget(s.goals, token, theme) == WidgetReply(200, Page(s.goals[j], Theme(theme)), Some("ALLOWALL")))
  {
    if Truthy(s.goals[j].embedToken) {
      TokenNamesOneGoal(s, s.goals[j].embedToken.value, j);
    }
  }

  // ---------------------------------------------------------------------------
  // The countdown data
  // ---------------------------------------------------------------------------

  /** `int()` of a number of seconds given in microseconds: truncation toward zero. */
  function TruncatedSeconds(micros: int): (n: int)
    ensures micros >= 0 ==> 0 <= n * 1000000 <= micros < (n + 1) * 1000000
    ensures micros < 0 ==> n <= 0
  {
    if micros >= 0 then micros / 1000000 else -((-micros) / 1000000)
  }

  /** Microseconds from `now` until the goal's deadline: `goal.deadline - now_utc`. */
  function TimeLeft(g: Goal, now: DateTime): int
    requires Valid(g.deadline) && Valid(now)
  {
    EpochMicros(g.deadline) - EpochMicros(now)
  }

  /** The two countdown figures `embed_data` reports. */
  datatype Countdown = Countdown(timeRemaining: nat, isOverdue: bool)

  /**
    A completed goal has nothing left and is never overdue; an active one has the whole
    seconds until its deadline left, and is overdue once the deadline is not after `now`.
  */
  function CountdownAt(g: Goal, now: DateTime): (c: Countdown)
    requires Valid(g.deadline) && Valid(now)
    ensures g.status == Completed ==> c == Countdown(0, false)
    ensures g.status == Active ==> (c.isOverdue <==> !Before(now, g.deadline))
    ensures g.status == Active && Before(now, g.deadline) ==>
      c.timeRemaining * 1000000 <= TimeLeft(g, now) < (c.timeRemaining + 1) * 1000000
    ensures g.status == Active && !Before(now, g.deadline) ==> c.timeRemaining == 0
  {
    BeforeIffEarlier(now, g.deadline);
    if g.status == Completed then Countdown(0, false)
    else
      var left := TimeLeft(g, now);
      var whole := TruncatedSeconds(left);
      Countdown(if whole > 0 then whole else 0, left <= 0)
  }

  /** A goal with seconds left is not overdue, and an overdue goal has none left. */
  lemma OverdueHasNothingLeft(g: Goal, now: DateTime)
    requires Valid(g.deadline) && Valid(now)
    ensures CountdownAt(g, now).isOverdue ==> CountdownAt(g, now).timeRemaining == 0
    ensures CountdownAt(g, now).timeRemaining > 0 ==> g.status == Active && Before(now, g.deadline)
  {
  }

  /** Asked later, the widget never reports more time left. */
  lemma RemainingNeverGrows(g: Goal, earlier: DateTime, later: DateTime)
    requires Valid(g.deadline) && Valid(earlier) && Valid(later) && !Before(later, earlier)
    ensures CountdownAt(g, later).timeRemaining <= CountdownAt(g, earlier).timeRemaining
    ensures CountdownAt(g, earlier).isOverdue ==> CountdownAt(g, later).isOverdue
  {
    BeforeIffEarlier(later, earlier);
    BeforeIffEarlier(earlier, g.deadline);
    BeforeIffEarlier(later, g.deadline);
    var a, b := CountdownAt(g, earlier), CountdownAt(g, later);
    if g.status == Active && Before(later, g.deadline) {
      assert b.timeRemaining * 1000000 <= TimeLeft(g, later) <= TimeLeft(g, earlier) < (a.timeRemaining + 1) * 1000000;
    }
  }

  /** The `Cache-Control` policy of the reply. */
  datatype CachePolicy =
    | PublicHour   // 'public, max-age=3600, s-maxage=3600'
    | NoStore      // 'no-cache, no-store, must-revalidate, max-age=0' with `Pragma` and `Expires`

  /** The JSON object `embed_data` serves, one field per key. */
  datatype WidgetData = WidgetData(
    title: string,
    details: string,
    deadline: string,
    status: string,
    timeRemaining: nat,
    isOverdue: bool,
    completionCondition: string,
    completedAt: Option<string>,
    lastUpdated: string,
    goalId: nat,
    serverTimeUtc: string)

  datatype DataBody =
    | DataError(error: string)
    | DataFields(data: WidgetData, cache: CachePolicy)

  datatype DataReply = DataReply(code: int, body: DataBody)

  /** An ISO 8601 rendering marked as UTC: `isoformat() + 'Z'`. */
  function Utc(t: DateTime): string
    requires Valid(t)
  {
    FormatIso(t) + "Z"
  }

  /** `embed_data`, with `now` what `datetime.utcnow()` read. */
  function EmbedData(goals: seq<Goal>, token: string, now: DateTime): (r: DataReply)
    requires AllValid(goals) && Valid(now)
    ensures r.code == 404 <==> forall j :: 0 <= j < |goals| ==> goals[j].embedToken != Some(token)
    ensures r.code == 404 ==> r.body == DataError("Goal not found")
    ensures r.code != 404 ==>
      (&& r.code == 200 && r.body.DataFields?
       && exists i :: 0 <= i < |goals| && goals[i].embedToken == Some(token) && Served(goals[i], now, r.body))
  {
    match FindByToken(goals, token)
    case None => DataReply(404, DataError("Goal not found"))
    case Some(i) =>
      var g := goals[i];
      var c := CountdownAt(g, now);
      var data := WidgetData(g.title, g.details, Utc(g.deadline), StatusName(g.status), c.timeRemaining,
                             c.isOverdue, g.completionCondition,
                             if g.completedAt.Some? then Some(Utc(g.completedAt.value)) else None,
                             Utc(now), g.id, Utc(now));
      var body := DataFields(data, if g.status == Completed then PublicHour else NoStore);
      assert Served(g, now, body);
      DataReply(200, body)
  }

  /**
    What the data of goal `g` means: its own fields, its countdown at `now`, `now` as the
    server's time, and a reply cached for an hour exactly when the goal is completed.
  */
  predicate Served(g: Goal, now: DateTime, body: DataBody)
    requires ValidGoal(g) && Valid(now)
  {
    && body.DataFields?
    && var d := body.data;
    && d.goalId == g.id && d.title == g.title && d.details == g.details
    && d.completionCondition == g.completionCondition && d.status == StatusName(g.status)
    && d.deadline == Utc(g.deadline)
    && Countdown(d.timeRemaining, d.isOverdue) == CountdownAt(g, now)
    && d.completedAt == (if g.completedAt.Some? then Some(Utc(g.completedAt.value)) else None)
    && d.lastUpdated == Utc(now) && d.serverTimeUtc == d.lastUpdated
    && (body.cache == PublicHour <==> g.status == Completed)
  }

  /**
    In a well-formed store the data served for a token is that of the one goal holding it, and
    a deadline read from the create form reads back from the served `deadline`.
  */
  lemma ServedDataDescribesTheGoal(s: Store, token: string, j: nat, now: DateTime)
    requires WellFormed(s) && Valid(now) && j < |s.goals| && s.goals[j].embedToken == Some(token)
    ensures AllValid(s.goals)
    ensures var r := EmbedData(s.goals, token, now);
      && r.code == 200 && Served(s.goals[j], now, r.body)
      && (s.goals[j].deadline.microsecond == 0 ==>
            ParseDeadline(Some(r.body.data.deadline)) == Success(s.goals[j].deadline))
  {
    TokenNamesOneGoal(s, token, j);
    var g := s.goals[j];
    if g.deadline.microsecond == 0 {
      IsoZRoundTrip(g.deadline);
    }
  }
}
