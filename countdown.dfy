/**
  The dashboard's countdown (static/js/app.js:166-295): the status line a goal card starts
  with, the repository label, and the ticking countdown — the milliseconds until the deadline
  clamped to whole seconds, split into days, hours, minutes and seconds, rendered as a clock,
  and given an urgency tier — together with the map of running intervals, one per goal.
  The milliseconds a tick sees (`deadline - new Date()`) are a parameter of the tick.
*/
module Dashboard {
  import opened Wrappers
  import opened Text
  import opened Instants
  import opened Goals
  import opened Embed

  // ---------------------------------------------------------------------------
  // Integer division
  // ---------------------------------------------------------------------------

  lemma MulAtLeast(d: int, k: int)
    requires d >= 1 && k > 0
    ensures d * k >= k
  {
  }

  lemma MulDifference(a: int, b: int, k: int)
    ensures a * k - b * k == (a - b) * k
  {
  }

  /** A quotient and remainder that fit `t == q * k + r` are the ones division gives. */
  lemma DivModUnique(t: int, k: int, q: int, r: int)
    requires k > 0 && 0 <= r < k && t == q * k + r
    ensures t / k == q && t % k == r
  {
    var q0, r0 := t / k, t % k;
    assert t == q0 * k + r0;
    MulDifference(q, q0, k);
    var d := q - q0;
    assert d * k == r0 - r;
    if d >= 1 {
      MulAtLeast(d, k);
    } else if d <= -1 {
      MulAtLeast(-d, k);
      MulDifference(q0, q, k);
    }
  }

  /** Taking the remainder by a multiple of `b` first does not change the remainder by `b`. */
  lemma ModOfMod(t: nat, a: nat, b: nat)
    requires a > 0 && b > 0
    ensures (t % (a * b)) % b == t % b
  {
    var q, r := t / (a * b), t % (a * b);
    assert t == q * (a * b) + r;
    assert r == (r / b) * b + r % b;
    assert t == (q * a + r / b) * b + r % b;
    DivModUnique(t, b, q * a + r / b, r % b);
  }

  // ---------------------------------------------------------------------------
  // Seconds and their parts
  // ---------------------------------------------------------------------------

  /** `Math.max(0, Math.floor(timeLeft / 1000))`: whole seconds left, never negative. */
  function SecondsLeft(ms: int): (n: nat)
    ensures ms >= 1000 ==> n * 1000 <= ms < (n + 1) * 1000
    ensures n == 0 <==> ms < 1000
  {
    if ms / 1000 > 0 then ms / 1000 else 0
  }

  datatype Parts = Parts(days: nat, hours: nat, minutes: nat, seconds: nat)

  function Recompose(p: Parts): nat {
    p.days * 86400 + p.hours * 3600 + p.minutes * 60 + p.seconds
  }

  predicate InRange(p: Parts) {
    p.hours < 24 && p.minutes < 60 && p.seconds < 60
  }

  /**
    The days, hours, minutes and seconds of a number of seconds, each taken from the total as
    the dashboard does; they add back up to the total and each is below its unit's limit.
  */
  function Decompose(t: nat): (p: Parts)
    ensures InRange(p) && Recompose(p) == t
  {
    var p := Parts(t / 86400, (t % 86400) / 3600, (t % 3600) / 60, t % 60);
    ModOfMod(t, 24, 3600);
    ModOfMod(t, 60, 60);
    var r := t % 86400;
    assert r == (r / 3600) * 3600 + r % 3600;
    var r2 := t % 3600;
    assert r2 == (r2 / 60) * 60 + r2 % 60;
    p
  }

  /** Parts in range are the decomposition of what they add up to. */
  lemma DecomposeRecompose(p: Parts)
    requires InRange(p)
    ensures Decompose(Recompose(p)) == p
  {
    var t := Recompose(p);
    var clock := p.hours * 3600 + p.minutes * 60 + p.seconds;
    DivModUnique(t, 86400, p.days, clock);
    var inHour := p.minutes * 60 + p.seconds;
    DivModUnique(clock, 3600, p.hours, inHour);
    DivModUnique(t, 3600, p.days * 24 + p.hours, inHour);
    DivModUnique(inHour, 60, p.minutes, p.seconds);
    DivModUnique(t, 60, p.days * 1440 + p.hours * 60 + p.minutes, p.seconds);
  }

  // ---------------------------------------------------------------------------
  // The clock text
  // ---------------------------------------------------------------------------

  /** `n.toString().padStart(2, '0')`. */
  function Pad2(n: nat): (s: string)
    requires n < 100
    ensures |s| == 2 && AllDigits(s) && ValueOf(s) == n
  {
    ZeroPad(n, 2)
  }

  /** `HH:MM:SS`. */
  function Clock(p: Parts): string
    requires InRange(p)
  {
    Pad2(p.hours) + (":" + (Pad2(p.minutes) + (":" + Pad2(p.seconds))))
  }

  /** The countdown text: `<days>d HH:MM:SS` while a day or more is left, `HH:MM:SS` after. */
  function ClockText(t: nat): string {
    var p := Decompose(t);
    if p.days > 0 then NatToString(p.days) + ("d " + Clock(p)) else Clock(p)
  }

  /** Reads `HH:MM:SS` and nothing after it. */
  function ParseClockOnly(s: string): (r: Option<(nat, nat, nat)>) {
    var h :- Fixed(s, 2);
    var rest :- Literal(h.rest, ':');
    var m :- Fixed(rest, 2);
    var rest2 :- Literal(m.rest, ':');
    var sec :- Fixed(rest2, 2);
    if sec.rest == [] then Some((h.value, m.value, sec.value)) else None
  }

  /** The day count and what follows its `d`, when the text starts with digits and a `d`. */
  function DayPrefix(s: string): (r: Option<(nat, string)>) {
    var w := LeadingDigits(s);
    if 1 <= w < |s| && s[w] == 'd' then Some((ValueOf(s[..w]), s[w + 1..])) else None
  }

  /** Reads a countdown text back into its parts; the inverse of `ClockText`. */
  function ParseClockText(s: string): (r: Option<Parts>) {
    match DayPrefix(s)
    case Some((days, after)) =>
      var rest :- Literal(after, ' ');
      var (h, m, sec) :- ParseClockOnly(rest);
      Some(Parts(days, h, m, sec))
    case None =>
      var (h, m, sec) :- ParseClockOnly(s);
      Some(Parts(0, h, m, sec))
  }

  lemma ClockRoundTrip(p: Parts)
    requires InRange(p)
    ensures ParseClockOnly(Clock(p)) == Some((p.hours, p.minutes, p.seconds))
  {
    var hh, mm, ss := Pad2(p.hours), Pad2(p.minutes), Pad2(p.seconds);
    FixedConcat(hh, ":" + (mm + (":" + ss)));
    FixedConcat(mm, ":" + ss);
    FixedConcat(ss, "");
    assert ss + "" == ss;
  }

  /** A day count, `d `, then a clock text reads as that many days and the clock's parts. */
  lemma DayPrefixConcat(d: string, after: string)
    requires 1 <= |d| && AllDigits(d)
    ensures DayPrefix(d + ("d" + after)) == Some((ValueOf(d), after))
  {
    var s := d + ("d" + after);
    LeadingDigitsConcat(d, "d" + after);
    assert s[..|d|] == d;
    assert s[|d| + 1..] == after;
  }

  /** A text with days reads back: the day count, then `d `, then the clock. */
  lemma DaysTextRoundTrip(p: Parts)
    requires InRange(p) && p.days > 0
    ensures ParseClockText(NatToString(p.days) + ("d " + Clock(p))) == Some(p)
  {
    var clock := Clock(p);
    ClockRoundTrip(p);
    DayPrefixConcat(NatToString(p.days), " " + clock);
    assert "d " + clock == "d" + (" " + clock);
    assert Literal(" " + clock, ' ') == Some(clock);
  }

  /** A text under a day is the clock alone, which starts with two digits and a colon. */
  lemma ClockOnlyRoundTrip(p: Parts)
    requires InRange(p) && p.days == 0
    ensures ParseClockText(Clock(p)) == Some(p)
  {
    ClockRoundTrip(p);
    var clock := Clock(p);
    LeadingDigitsConcat(Pad2(p.hours), ":" + (Pad2(p.minutes) + (":" + Pad2(p.seconds))));
    assert LeadingDigits(clock) == 2;
    assert clock[2] == ':' && DayPrefix(clock) == None;
  }

  /** The text of every count of seconds reads back as its decomposition. */
  lemma ClockTextRoundTrip(t: nat)
    ensures ParseClockText(ClockText(t)) == Some(Decompose(t))
  {
    var p := Decompose(t);
    if p.days > 0 {
      DaysTextRoundTrip(p);
    } else {
      ClockOnlyRoundTrip(p);
    }
  }

  /** Different counts of seconds show different texts. */
  lemma ClockTextInjective(a: nat, b: nat)
    requires ClockText(a) == ClockText(b)
    ensures a == b
  {
    ClockTextRoundTrip(a);
    ClockTextRoundTrip(b);
  }

  // ---------------------------------------------------------------------------
  // Urgency tiers and status lines
  // ---------------------------------------------------------------------------

  datatype Tier =
    | UnderAnHour        // the urgent class and '🔥 Less than 1 hour left!'
    | UnderADay          // '⚡ Less than 1 day left!'
    | DaysLeft(n: nat)   // '📅 <n> day(s) remaining'
    | DeadlineDate       // '🎯 Deadline: ' and the browser's rendering of the date

  /** The tier of a count of seconds, by the thresholds of an hour, a day and a week. */
  function TierOf(t: nat): (r: Tier)
    ensures r == UnderAnHour <==> t < 3600
    ensures r == UnderADay <==> 3600 <= t < 86400
    ensures r.DaysLeft? <==> 86400 <= t < 604800
    ensures r.DaysLeft? ==> r.n == Decompose(t).days && 1 <= r.n <= 6
  {
    if t < 3600 then UnderAnHour
    else if t < 86400 then UnderADay
    else if t < 604800 then DaysLeft(Decompose(t).days)
    else DeadlineDate
  }

  /**
    `📅 <n> day(s) remaining`: the digits after the calendar and the blank read back as the
    day count, and the plural is used only for more than one day.
  */
  function DaysText(n: nat): (s: string)
    ensures 2 <= |s| && s[..2] == "\U{1F4C5} "
    ensures var k := LeadingDigits(s[2..]); 1 <= k && ValueOf(s[2..][..k]) == n
    ensures EndsWith(s, "s remaining") <==> n > 1
  {
    var suffix := if n > 1 then "s" else "";
    var digits := NatToString(n);
    CalendarLine(digits, " day" + suffix + " remaining");
    PluralTail(digits, n > 1);
    "\U{1F4C5} " + digits + (" day" + suffix + " remaining")
  }

  /** The line ends in `s remaining` exactly when the plural was written. */
  lemma PluralTail(digits: string, plural: bool)
    ensures var s := "\U{1F4C5} " + digits + (" day" + (if plural then "s" else "") + " remaining");
      EndsWith(s, "s remaining") <==> plural
  {
    var s := "\U{1F4C5} " + digits + (" day" + (if plural then "s" else "") + " remaining");
    assert s[|s| - 11..] == (if plural then "s remaining" else "y remaining");
  }

  /** After the calendar and the blank, a line's digit run is exactly the digits written there. */
  lemma CalendarLine(digits: string, tail: string)
    requires 1 <= |digits| && AllDigits(digits) && tail != [] && !IsDigit(tail[0])
    ensures var s := "\U{1F4C5} " + digits + tail;
      2 <= |s| && s[..2] == "\U{1F4C5} " && LeadingDigits(s[2..]) == |digits| && s[2..][..|digits|] == digits
  {
    var s := "\U{1F4C5} " + digits + tail;
    assert s[2..] == digits + tail;
    LeadingDigitsConcat(digits, tail);
  }

  /** The status line of a tier; the date one depends on the browser's locale. */
  function TierText(tier: Tier): (s: Option<string>)
    ensures s.None? <==> tier == DeadlineDate
  {
    match tier
    case UnderAnHour => Some("\U{1F525} Less than 1 hour left!")
    case UnderADay => Some("⚡ Less than 1 day left!")
    case DaysLeft(n) => Some(DaysText(n))
    case DeadlineDate => None
  }

  const TimesUpClock := "⏰ TIME'S UP"
  const TimesUpStatus := "⏰ Time's up! Push that commit!"

  /** What one tick shows. */
  datatype Frame =
    | TimesUp
    | Running(clock: string, status: Option<string>, urgent: bool)

  /** The tick of `updateCountdown` with `ms` milliseconds to the deadline. */
  function FrameAt(ms: int): (f: Frame)
    ensures f.TimesUp? <==> ms < 1000
    ensures f.Running? ==>
      && ParseClockText(f.clock) == Some(Decompose(SecondsLeft(ms)))
      && (f.urgent <==> SecondsLeft(ms) < 3600)
      && f.status == TierText(TierOf(SecondsLeft(ms)))
  {
    var t := SecondsLeft(ms);
    if t == 0 then TimesUp
    else
      ClockTextRoundTrip(t);
      Running(ClockText(t), TierText(TierOf(t)), t < 3600)
  }

  /** A text that does not start with a digit never reads as a count of time. */
  lemma NotACount(s: string)
    requires s != [] && !IsDigit(s[0])
    ensures ParseClockText(s).None?
  {
    assert LeadingDigits(s) == 0;
  }

  /** The countdown text and the status line a tick leaves on the card. */
  function Shown(f: Frame): (string, Option<string>) {
    match f
    case TimesUp => (TimesUpClock, Some(TimesUpStatus))
    case Running(clock, status, _) => (clock, status)
  }

  /**
    What a tick shows tells the two cases apart: the countdown text reads back as the whole
    seconds left exactly while a second or more remains, and the status line is the time's-up
    line exactly when less than a second does.
  */
  lemma TickShowsCountOrTimesUp(ms: int)
    ensures var (clock, status) := Shown(FrameAt(ms));
      && (ParseClockText(clock) == Some(Decompose(SecondsLeft(ms))) <==> ms >= 1000)
      && (ms < 1000 ==> ParseClockText(clock).None?)
      && (status == Some(TimesUpStatus) <==> ms < 1000)
  {
    if ms < 1000 {
      NotACount(TimesUpClock);
    } else {
      var t := SecondsLeft(ms);
      var line := TierText(TierOf(t));
      if line.Some? {
        assert line.value[0] != TimesUpStatus[0] by {
          match TierOf(t)
          case DaysLeft(n) => assert DaysText(n)[0] == '\U{1F4C5}';
          case _ =>
        }
      }
    }
  }

  /**
    For a deadline less than a second away the dashboard already shows time's up, while the
    widget data still counts the goal as not overdue.
  */
  lemma DashboardCallsTimeEarly(g: Goal, now: DateTime, ms: int)
    requires Valid(g.deadline) && Valid(now) && g.status == Active
    requires ms == TimeLeft(g, now) / 1000 && 0 < TimeLeft(g, now) < 1000000
    ensures FrameAt(ms).TimesUp? && !CountdownAt(g, now).isOverdue
  {
  }

  /** Where both count, the dashboard and the widget data agree on the whole seconds left. */
  lemma DashboardAgreesWithWidget(g: Goal, now: DateTime)
    requires Valid(g.deadline) && Valid(now) && g.status == Active
    ensures SecondsLeft(TimeLeft(g, now) / 1000) == CountdownAt(g, now).timeRemaining
  {
    var micros := TimeLeft(g, now);
    if micros >= 0 {
      var ms := micros / 1000;
      DivModUnique(micros, 1000000, ms / 1000, (ms % 1000) * 1000 + micros % 1000);
    }
  }

  /** The status line a goal card starts with, from the goal's status. */
  function StatusText(status: string): (s: string)
    ensures status == "completed" ==> s == "\U{1F389} Completed! Well done."
    ensures status == "failed" ==> s == "⏰ Time's up!"
    ensures status != "completed" && status != "failed" ==> s == "⏱️ Counting down..."
  {
    if status == "completed" then "\U{1F389} Completed! Well done."
    else if status == "failed" then "⏰ Time's up!"
    else "⏱️ Counting down..."
  }

  /** The three status lines differ, so the line a card starts with tells its status apart. */
  lemma StatusTextTellsStatus(a: string, b: string)
    requires StatusText(a) == StatusText(b)
    ensures (a == "completed" <==> b == "completed") && (a == "failed" <==> b == "failed")
  {
    var done, late, counting := "\U{1F389} Completed! Well done.", "⏰ Time's up!", "⏱️ Counting down...";
    assert done[0] != late[0] && done[0] != counting[0] && late[0] != counting[0];
  }

  /** The server never sends `failed`, so a card starts as completed or counting down. */
  lemma NoCardStartsFailed(s: Status)
    ensures StatusText(StatusName(s)) != "⏰ Time's up!"
  {
    if s == Active {
      assert StatusName(s) == "active";
    }
  }

  /** What a new card does with its countdown: start it, show done, or leave the placeholder. */
  datatype CardStart = StartCountdown | ShowDone | Placeholder

  function CardStartFor(status: string): (c: CardStart)
    ensures c == StartCountdown <==> status == "active"
    ensures c == ShowDone <==> status == "completed"
  {
    if status == "active" then StartCountdown
    else if status == "completed" then ShowDone
    else Placeholder
  }

  const DoneText := "✅ DONE"
  const BlankClock := "--:--:--"

  /** The countdown text a new card shows before its first tick. */
  function InitialClock(status: string): string {
    if CardStartFor(status) == ShowDone then DoneText else BlankClock
  }

  /**
    A card for a goal the server sent never keeps the placeholder: it shows done, with the
    completed line and the DONE text, or it counts down under the counting-down line. Before a
    tick neither text it shows reads as a count of time.
  */
  lemma StoredStatusCard(s: Status)
    ensures var name := StatusName(s);
      && CardStartFor(name) != Placeholder
      && (CardStartFor(name) == ShowDone <==> StatusText(name) == "\U{1F389} Completed! Well done.")
      && (CardStartFor(name) == StartCountdown <==> StatusText(name) == "⏱️ Counting down...")
      && (CardStartFor(name) == ShowDone <==> InitialClock(name) == DoneText)
      && ParseClockText(InitialClock(name)).None?
  {
    var done, counting := "\U{1F389} Completed! Well done.", "⏱️ Counting down...";
    assert done[0] != counting[0] && DoneText[0] != BlankClock[0];
    NotACount(InitialClock(StatusName(s)));
  }

  // ---------------------------------------------------------------------------
  // The repository label
  // ---------------------------------------------------------------------------

  /** `repo_url.split('/').slice(-2).join('/')`. */
  function RepoName(url: string): string {
    var parts := Split(url, '/');
    Join(if |parts| >= 2 then parts[|parts| - 2..] else parts, '/')
  }

  /** The `/`-separated segments of `<prefix>/<owner>/<name>` end with the owner and the name. */
  lemma PlainUrlParts(prefix: string, owner: string, name: string)
    requires '/' !in owner && '/' !in name && name != ""
    ensures var parts := Split(prefix + "/" + owner + "/" + name, '/');
      |parts| >= 2 && parts[|parts| - 2] == owner && parts[|parts| - 1] == name
  {
    var body := prefix + "/" + owner + "/" + name;
    UrlSegments(prefix, owner, name, 0);
    assert RepoUrl(prefix, owner, name, 0) == body;
    assert body[|body| - 1] == name[|name| - 1];
    RStripRun(body, '/', 0);
    assert body + Repeat('/', 0) == body;
  }

  /**
    For a URL without a trailing slash whose name holds no `.git` the label is the
    `owner/name` the server records for the goal.
  */
  lemma RepoNameMatchesServer(prefix: string, owner: string, name: string)
    requires '/' !in owner && '/' !in name && name != "" && !Contains(name, ".git")
    ensures RepoPartsAsWritten(RepoUrl(prefix, owner, name, 0)) == Some((owner, name))
    ensures RepoName(RepoUrl(prefix, owner, name, 0)) == owner + "/" + name
  {
    assert RepoPartsAsWritten(RepoUrl(prefix, owner, name, 0)) == Some((owner, name)) by {
      RepoPartsAsWrittenMatchFullName(prefix, owner, name, false, 0);
    }
    var url := prefix + "/" + owner + "/" + name;
    assert RepoUrl(prefix, owner, name, 0) == url;
    PlainUrlParts(prefix, owner, name);
    var parts := Split(url, '/');
    assert parts[|parts| - 2..] == [owner, name];
    assert RepoName(url) == Join([owner, name], '/');
    assert [owner, name][1..] == [name];
    assert Join([owner, name], '/') == owner + ['/'] + Join([name], '/');
  }

  /**
    With a trailing slash the label is the name followed by `/`, where the server strips
    the slash before splitting.
  */
  lemma RepoNameTrailingSlash(prefix: string, owner: string, name: string)
    requires '/' !in owner && '/' !in name && name != "" && !Contains(name, ".git")
    ensures RepoPartsAsWritten(RepoUrl(prefix, owner, name, 1)) == Some((owner, name))
    ensures RepoName(RepoUrl(prefix, owner, name, 1)) == name + "/"
  {
    RepoPartsAsWrittenMatchFullName(prefix, owner, name, false, 1);
    SlashLabel(prefix, owner, name);
  }

  /** The label of `<prefix>/<owner>/<name>/` is the name and the slash. */
  lemma SlashLabel(prefix: string, owner: string, name: string)
    requires '/' !in owner && '/' !in name && name != ""
    ensures RepoName(RepoUrl(prefix, owner, name, 1)) == name + "/"
  {
    var body := prefix + "/" + owner + "/" + name;
    var url := RepoUrl(prefix, owner, name, 1);
    assert url == body + ['/'] + "";
    SplitConcat(body, "", '/');
    PlainUrlParts(prefix, owner, name);
    var parts := Split(url, '/');
    assert parts == Split(body, '/') + [""];
    assert parts[|parts| - 2..] == [name, ""];
    assert RepoName(url) == Join([name, ""], '/');
    assert [name, ""][1..] == [""];
    assert Join([name, ""], '/') == name + ['/'] + Join([""], '/');
  }

  // ---------------------------------------------------------------------------
  // Running intervals
  // ---------------------------------------------------------------------------

  /**
    The dashboard's `countdownIntervals` map from goal id to interval handle, with the
    handles of the intervals the browser is still running and the goal each handle counts
    down for.
  */
  class CountdownBoard {
    var intervals: map<nat, nat>
    var live: set<nat>
    var owner: map<nat, nat>
    var nextHandle: nat

    /** Every running interval is the one registered for its goal, so a goal has at most one. */
    ghost predicate Valid()
      reads this
    {
      && (forall h :: h in live ==> h in owner && owner[h] in intervals && intervals[owner[h]] == h)
      && (forall g :: g in intervals ==> intervals[g] in owner && owner[intervals[g]] == g)
      && (forall h :: h in owner ==> h < nextHandle)
    }

    constructor()
      ensures Valid() && intervals == map[] && live == {}
    {
      intervals := map[];
      live := {};
      owner := map[];
      nextHandle := 0;
    }

    /** At most one interval runs for each goal. */
    lemma OneIntervalPerGoal(a: nat, b: nat)
      requires Valid() && a in live && b in live && owner[a] == owner[b]
      ensures a == b
    {
    }

    /**
      `startCountdown`: clear the goal's previous interval, tick once, then register a new
      interval that ticks every second. The first tick sees `ms` milliseconds to go.
    */
    method Start(goalId: nat, ms: int) returns (f: Frame)
      requires Valid()
      modifies this
      ensures Valid()
      ensures f == FrameAt(ms)
      ensures intervals == old(intervals)[goalId := old(nextHandle)]
      ensures owner == old(owner)[old(nextHandle) := goalId] && nextHandle == old(nextHandle) + 1
      ensures live == old(live) - (if goalId in old(intervals) then {old(intervals)[goalId]} else {}) + {old(nextHandle)}
    {
      if goalId in intervals {
        live := live - {intervals[goalId]};
      }
      f := FrameAt(ms);
      if f.TimesUp? && goalId in intervals {
        live := live - {intervals[goalId]};
      }
      var handle := nextHandle;
      nextHandle := nextHandle + 1;
      live := live + {handle};
      owner := owner[handle := goalId];
      intervals := intervals[goalId := handle];
    }

    /** A tick of the running interval `handle`: at time's up it clears its goal's interval. */
    method Tick(handle: nat, ms: int) returns (f: Frame)
      requires Valid() && handle in live
      modifies this
      ensures Valid()
      ensures f == FrameAt(ms)
      ensures intervals == old(intervals) && owner == old(owner) && nextHandle == old(nextHandle)
      ensures f.TimesUp? ==> live == old(live) - {handle}
      ensures f.Running? ==> live == old(live)
    {
      f := FrameAt(ms);
      if f.TimesUp? {
        live := live - {intervals[owner[handle]]};
      }
    }
  }
}
