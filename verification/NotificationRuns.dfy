/**
  Whole runs of notifications (app/services/alert_service.py): digests, in-app marks, dismissals,
  preference changes and new findings in any order. Each step changes a match and writes alert
  rows as the methods of `Alerts` do, through the same functions.
*/
module NotificationRuns {
  import opened Prelude
  import opened Triage
  import opened Alerts

  /** A project's matches, by id, the alert rows written so far, and its settings. */
  datatype World = World(matches: seq<MatchRow>, rows: seq<AlertValue>, emailEnabled: bool, hasWebhook: bool)

  datatype Step =
    | Digest(picked: seq<nat>, email: Outcome, hook: Outcome, now: nat)
    | InApp(picked: seq<nat>, now: nat)
    | SetStatus(id: nat, status: AlertStatus)
    | SetEmailEnabled(on: bool)
    | SetWebhook(on: bool)
    | Discover(verdict: Verdict, status: AlertStatus)

  predicate Distinct(ids: seq<nat>) {
    forall i, j :: 0 <= i < j < |ids| ==> ids[i] != ids[j]
  }

  predicate Known(w: World, ids: seq<nat>) {
    forall k :: 0 <= k < |ids| ==> ids[k] < |w.matches|
  }

  /** A step handles matches of this world, none twice. */
  predicate Possible(w: World, s: Step) {
    match s
    case Digest(picked, _, _, _) => Distinct(picked) && Known(w, picked)
    case InApp(picked, _) => Known(w, picked)
    case SetStatus(id, _) => id < |w.matches|
    case _ => true
  }

  function ConditionsOf(w: World, s: Step): Conditions
    requires s.Digest?
  {
    Conditions(w.emailEnabled, w.hasWebhook, s.email, s.hook)
  }

  /** The picked matches a digest would send. */
  function SendableAmong(w: World, picked: seq<nat>): seq<nat>
    requires Known(w, picked)
  {
    if picked == [] then []
    else
      var last := picked[|picked| - 1];
      SendableAmong(w, picked[..|picked| - 1]) + (if Sendable(w.matches[last]) then [last] else [])
  }

  function Next(w: World, s: Step): World
    requires Possible(w, s)
  {
    match s
    case Digest(picked, _, _, now) =>
      var c := ConditionsOf(w, s);
      w.(matches := seq(|w.matches|, i requires 0 <= i < |w.matches| =>
                        if i in picked then AfterDigest(w.matches[i], c, now) else w.matches[i]),
         rows := w.rows + DigestRows(SendableAmong(w, picked), c, now))
    case InApp(picked, now) =>
      w.(matches := seq(|w.matches|, i requires 0 <= i < |w.matches| =>
                        if i in picked then AfterInApp(w.matches[i], now) else w.matches[i]))
    case SetStatus(id, status) => w.(matches := w.matches[id := w.matches[id].(status := status)])
    case SetEmailEnabled(on) => w.(emailEnabled := on)
    case SetWebhook(on) => w.(hasWebhook := on)
    case Discover(verdict, status) => w.(matches := w.matches + [MatchRow(verdict, status, None)])
  }

  predicate AllPossible(w: World, steps: seq<Step>)
    decreases |steps|
  {
    steps == [] || (Possible(w, steps[0]) && AllPossible(Next(w, steps[0]), steps[1..]))
  }

  function Run(w: World, steps: seq<Step>): World
    requires AllPossible(w, steps)
    decreases |steps|
  {
    if steps == [] then w else Run(Next(w, steps[0]), steps[1..])
  }

  /** No exception escapes a channel. */
  predicate Quiet(steps: seq<Step>) {
    forall i :: 0 <= i < |steps| && steps[i].Digest? ==> steps[i].email != Crashed && steps[i].hook != Crashed
  }

  // ---------- the digest of the methods is this step ----------

  /** Selecting by row values and selecting by id agree, so a step writes the rows the method writes. */
  lemma {:induction false} SameSelection(w: World, picked: seq<nat>, rows: seq<MatchRow>)
    requires |rows| == |picked|
    requires forall k :: 0 <= k < |picked| ==> picked[k] < |w.matches| && rows[k] == w.matches[picked[k]]
    ensures SendableAmong(w, picked) == SendableIds(picked, rows)
    decreases |picked|
  {
    if picked != [] {
      SameSelection(w, picked[..|picked| - 1], rows[..|picked| - 1]);
    }
  }

  // ---------- once set, never changed ----------

  lemma StepKeepsNotified(w: World, s: Step, id: nat)
    requires Possible(w, s) && id < |w.matches| && w.matches[id].notifiedAt.Some?
    ensures id < |Next(w, s).matches| && Next(w, s).matches[id].notifiedAt == w.matches[id].notifiedAt
  {
  }

  /** Over any run, crashes included: the time a match was first told never changes. */
  lemma {:induction false} NotifiedNeverChanges(w: World, steps: seq<Step>, id: nat)
    requires AllPossible(w, steps) && id < |w.matches| && w.matches[id].notifiedAt.Some?
    ensures id < |Run(w, steps).matches| && Run(w, steps).matches[id].notifiedAt == w.matches[id].notifiedAt
    decreases |steps|
  {
    if steps != [] {
      StepKeepsNotified(w, steps[0], id);
      NotifiedNeverChanges(Next(w, steps[0]), steps[1..], id);
    }
  }

  // ---------- every row is settled ----------

  predicate Settled(rows: seq<AlertValue>) {
    forall i :: 0 <= i < |rows| ==> rows[i].status != Pending
  }

  /** Unless an exception escapes, every alert row ends sent or failed. */
  lemma {:induction false} RowsAreSettled(w: World, steps: seq<Step>)
    requires AllPossible(w, steps) && Quiet(steps) && Settled(w.rows)
    ensures Settled(Run(w, steps).rows)
    decreases |steps|
  {
    if steps != [] {
      var s := steps[0];
      if s.Digest? {
        DigestRowsSettled(SendableAmong(w, s.picked), ConditionsOf(w, s), s.now);
      }
      RowsAreSettled(Next(w, s), steps[1..]);
    }
  }

  lemma DigestRowsSettled(ids: seq<nat>, c: Conditions, now: nat)
    requires c.email != Crashed && c.hook != Crashed
    ensures Settled(DigestRows(ids, c, now))
  {
  }

  // ---------- told once ----------

  /** How many rows say the match was sent over the channel. */
  function SentCount(rows: seq<AlertValue>, id: nat, channel: Channel): nat {
    if rows == [] then 0
    else
      var last := rows[|rows| - 1];
      SentCount(rows[..|rows| - 1], id, channel)
      + (if last.matchId == id && last.channel == channel && last.status == Sent then 1 else 0)
  }

  lemma {:induction false} SentCountAppend(xs: seq<AlertValue>, ys: seq<AlertValue>, id: nat, channel: Channel)
    ensures SentCount(xs + ys, id, channel) == SentCount(xs, id, channel) + SentCount(ys, id, channel)
    decreases |ys|
  {
    if ys == [] {
      assert xs + ys == xs;
    } else {
      SentCountAppend(xs, ys[..|ys| - 1], id, channel);
      assert (xs + ys)[..|xs + ys| - 1] == xs + ys[..|ys| - 1];
    }
  }

  lemma SentCountSnoc(xs: seq<AlertValue>, x: AlertValue, id: nat, channel: Channel)
    ensures SentCount(xs + [x], id, channel)
         == SentCount(xs, id, channel) + (if x.matchId == id && x.channel == channel && x.status == Sent then 1 else 0)
  {
    assert (xs + [x])[..|xs|] == xs;
  }

  lemma LastIsNew(ids: seq<nat>, id: nat)
    requires Distinct(ids) && ids != []
    ensures var front, last := ids[..|ids| - 1], ids[|ids| - 1];
      Distinct(front) && last !in front && (id in ids <==> id in front || id == last)
  {
    assert ids == ids[..|ids| - 1] + [ids[|ids| - 1]];
  }

  lemma {:induction false} ChannelSentCount(
    ids: seq<nat>, ch: Channel, outcome: Outcome, now: nat, id: nat, channel: Channel)
    requires Distinct(ids)
    ensures SentCount(ChannelRows(ids, ch, outcome, now), id, channel)
         == if ch == channel && outcome == Accepted && id in ids then 1 else 0
    decreases |ids|
  {
    if ids != [] {
      var front, last := ids[..|ids| - 1], ids[|ids| - 1];
      LastIsNew(ids, id);
      ChannelSentCount(front, ch, outcome, now, id, channel);
      SentCountSnoc(ChannelRows(front, ch, outcome, now), AlertAfter(last, ch, outcome, now), id, channel);
    }
  }

  /** Whether the digest's rows say a match was sent over the channel. */
  predicate GetsThrough(c: Conditions, channel: Channel) {
    match channel
    case Email => EmailGetsThrough(c)
    case Webhook => HookGetsThrough(c)
  }

  lemma DigestSentCount(ids: seq<nat>, c: Conditions, now: nat, id: nat, channel: Channel)
    requires Distinct(ids)
    ensures SentCount(DigestRows(ids, c, now), id, channel) == if id in ids && GetsThrough(c, channel) then 1 else 0
  {
    if ids != [] && c.emailEnabled {
      ChannelSentCount(ids, Email, c.email, now, id, channel);
      HookSentCount(ids, c, now, id, channel);
      SentCountAppend(ChannelRows(ids, Email, c.email, now), HookRows(ids, c.hasWebhook, c.hook, now), id, channel);
    }
  }

  lemma HookSentCount(ids: seq<nat>, c: Conditions, now: nat, id: nat, channel: Channel)
    requires Distinct(ids)
    ensures SentCount(HookRows(ids, c.hasWebhook, c.hook, now), id, channel)
         == if c.hasWebhook && channel == Webhook && c.hook == Accepted && id in ids then 1 else 0
  {
    if c.hasWebhook {
      ChannelSentCount(ids, Webhook, c.hook, now, id, channel);
    }
  }

  lemma {:induction false} SendableAmongIff(w: World, picked: seq<nat>, id: nat)
    requires Known(w, picked)
    ensures id in SendableAmong(w, picked) <==> id in picked && Sendable(w.matches[id])
    decreases |picked|
  {
    if picked != [] {
      var front, last := picked[..|picked| - 1], picked[|picked| - 1];
      assert picked == front + [last];
      SendableAmongIff(w, front, id);
    }
  }

  lemma {:induction false} SendableAmongDistinct(w: World, picked: seq<nat>)
    requires Distinct(picked) && Known(w, picked)
    ensures Distinct(SendableAmong(w, picked))
    decreases |picked|
  {
    if picked != [] {
      var front, last := picked[..|picked| - 1], picked[|picked| - 1];
      SendableAmongDistinct(w, front);
      SendableAmongIff(w, front, last);
      assert last !in front;
    }
  }

  predicate Told(w: World, id: nat) {
    id < |w.matches| && w.matches[id].notifiedAt.Some?
  }

  /** A match has been sent over a channel at most once, and not at all while it is unmarked. */
  predicate ToldOnce(w: World, id: nat, channel: Channel) {
    SentCount(w.rows, id, channel) <= (if Told(w, id) then 1 else 0)
  }

  lemma StepKeepsToldOnce(w: World, s: Step, id: nat, channel: Channel)
    requires Possible(w, s) && ToldOnce(w, id, channel)
    requires s.Digest? ==> s.email != Crashed && s.hook != Crashed
    ensures ToldOnce(Next(w, s), id, channel)
  {
    if s.Digest? {
      var c, ids := ConditionsOf(w, s), SendableAmong(w, s.picked);
      SendableAmongDistinct(w, s.picked);
      SendableAmongIff(w, s.picked, id);
      DigestSentCount(ids, c, s.now, id, channel);
      SentCountAppend(w.rows, DigestRows(ids, c, s.now), id, channel);
      if id in ids && GetsThrough(c, channel) {
        assert Marks(c);
      }
    }
  }

  /** While no exception escapes a channel, no match is ever sent twice over the same channel. */
  lemma {:induction false} EachMatchIsToldOnce(w: World, steps: seq<Step>, id: nat, channel: Channel)
    requires AllPossible(w, steps) && Quiet(steps) && ToldOnce(w, id, channel)
    ensures ToldOnce(Run(w, steps), id, channel)
    decreases |steps|
  {
    if steps != [] {
      StepKeepsToldOnce(w, steps[0], id, channel);
      EachMatchIsToldOnce(Next(w, steps[0]), steps[1..], id, channel);
    }
  }

  /** The digests of a run that got a match through to somebody, on either channel. */
  function SuccessfulDigests(w: World, steps: seq<Step>, id: nat): nat
    requires AllPossible(w, steps)
    decreases |steps|
  {
    if steps == [] then 0
    else
      var s := steps[0];
      SuccessfulDigests(Next(w, s), steps[1..], id)
      + (if s.Digest? && id in s.picked && Sendable(w.matches[id])
            && (EmailGetsThrough(ConditionsOf(w, s)) || HookGetsThrough(ConditionsOf(w, s)))
         then 1 else 0)
  }

  /** Each match is covered by at most one successful digest, and by none once it is marked. */
  lemma {:induction false} AtMostOneSuccessfulDigest(w: World, steps: seq<Step>, id: nat)
    requires AllPossible(w, steps) && Quiet(steps)
    ensures SuccessfulDigests(w, steps, id) <= (if Told(w, id) then 0 else 1)
    decreases |steps|
  {
    if steps != [] {
      if Told(w, id) {
        StepKeepsNotified(w, steps[0], id);
      }
      AtMostOneSuccessfulDigest(Next(w, steps[0]), steps[1..], id);
    }
  }

  // ---------- failures and crashes ----------

  /** Open, actionable, and nobody has been told. */
  predicate IsNews(m: MatchRow) {
    m.verdict == Actionable && m.status == Open && m.notifiedAt == None
  }

  /** The rows a step adds. */
  function Added(w: World, s: Step): seq<AlertValue>
    requires Possible(w, s)
  {
    Next(w, s).rows[|w.rows|..]
  }

  /** A digest marks news exactly when the rows it adds say the match was sent and leave nothing pending. */
  lemma DigestMarksIffTold(w: World, s: Step, id: nat)
    requires Possible(w, s) && s.Digest? && w.emailEnabled && id in s.picked && IsNews(w.matches[id])
    ensures Next(w, s).matches[id].notifiedAt == if ToldByRows(Added(w, s), id) then Some(s.now) else None
  {
    var ids := SendableAmong(w, s.picked);
    SendableAmongIff(w, s.picked, id);
    assert Added(w, s) == DigestRows(ids, ConditionsOf(w, s), s.now);
    MarksIffTold(ids, ConditionsOf(w, s), s.now, id);
  }

  /** All the match's rows from here on say that sending failed. */
  predicate OnlyFailures(rows: seq<AlertValue>, from: nat, id: nat) {
    forall i :: from <= i < |rows| && rows[i].matchId == id ==> rows[i].status == Failed
  }

  /** Nothing but digests touches the match: it is not shown in the app, changed, or opted out of. */
  predicate LeftToDigests(steps: seq<Step>, id: nat) {
    forall i :: 0 <= i < |steps| ==>
      && (steps[i].InApp? ==> id !in steps[i].picked)
      && (steps[i].SetStatus? ==> steps[i].id != id)
      && (steps[i].SetEmailEnabled? ==> steps[i].on)
  }

  lemma {:induction false} RowsGrow(w: World, steps: seq<Step>)
    requires AllPossible(w, steps)
    ensures |w.rows| <= |Run(w, steps).rows| && Run(w, steps).rows[..|w.rows|] == w.rows
    decreases |steps|
  {
    if steps != [] {
      var v := Next(w, steps[0]);
      RowsGrow(v, steps[1..]);
      assert v.rows[..|w.rows|] == w.rows;
      assert Run(w, steps).rows[..|w.rows|] == Run(w, steps).rows[..|v.rows|][..|w.rows|];
    }
  }

  lemma FailedDigestLeavesNews(w: World, s: Step, id: nat)
    requires Possible(w, s) && w.emailEnabled && id < |w.matches| && IsNews(w.matches[id])
    requires LeftToDigests([s], id) && OnlyFailures(Next(w, s).rows, |w.rows|, id)
    ensures Next(w, s).emailEnabled && Next(w, s).matches[id] == w.matches[id]
  {
    assert [s][0] == s;
    if s.Digest? && id in s.picked {
      DigestMarksIffTold(w, s, id);
      var added := Added(w, s);
      forall i | 0 <= i < |added| ensures added[i] == Next(w, s).rows[|w.rows| + i] {
      }
    }
  }

  /** Over any run of digests: a match whose every row says "failed" is news still, to be tried again. */
  lemma {:induction false} FailuresLeaveNews(w: World, steps: seq<Step>, id: nat)
    requires AllPossible(w, steps) && w.emailEnabled && id < |w.matches| && IsNews(w.matches[id])
    requires LeftToDigests(steps, id) && OnlyFailures(Run(w, steps).rows, |w.rows|, id)
    ensures id < |Run(w, steps).matches| && Run(w, steps).matches[id] == w.matches[id]
    decreases |steps|
  {
    if steps != [] {
      var s, v := steps[0], Next(w, steps[0]);
      AddedAreLater(w, steps, id);
      FailedDigestLeavesNews(w, s, id);
      FailuresLeaveNews(v, steps[1..], id);
    }
  }

  lemma AddedAreLater(w: World, steps: seq<Step>, id: nat)
    requires AllPossible(w, steps) && steps != [] && LeftToDigests(steps, id)
    requires OnlyFailures(Run(w, steps).rows, |w.rows|, id)
    ensures OnlyFailures(Next(w, steps[0]).rows, |w.rows|, id)
    ensures OnlyFailures(Run(w, steps).rows, |Next(w, steps[0]).rows|, id)
    ensures LeftToDigests([steps[0]], id) && LeftToDigests(steps[1..], id)
  {
    var v, end := Next(w, steps[0]), Run(w, steps).rows;
    RowsGrow(v, steps[1..]);
    forall i | |w.rows| <= i < |v.rows| ensures v.rows[i] == end[i] {
      assert v.rows[i] == end[..|v.rows|][i];
    }
    assert forall i :: 0 <= i < |steps[1..]| ==> steps[1..][i] == steps[i + 1];
  }

  /**
    Exactly when somebody is told and the match is still eligible to be told again: the email went
    out and the webhook's exception escaped.
  */
  lemma ToldButUnmarkedIff(w: World, s: Step, id: nat)
    requires Possible(w, s) && s.Digest? && id in s.picked && Sendable(w.matches[id])
    ensures
      var c := ConditionsOf(w, s);
      ((EmailGetsThrough(c) || HookGetsThrough(c)) && Sendable(Next(w, s).matches[id]))
      <==> w.emailEnabled && s.email == Accepted && w.hasWebhook && s.hook == Crashed
  {
  }

  /** Then the next digest does send it again: two rows say the same match was emailed. */
  lemma CrashRepeatsTheEmail(w: World, id: nat, t: nat, u: nat)
    requires id < |w.matches| && Sendable(w.matches[id]) && w.emailEnabled && w.hasWebhook
    ensures
      var crash, again := Digest([id], Accepted, Crashed, t), Digest([id], Accepted, Accepted, u);
      && AllPossible(w, [crash, again])
      && SentCount(Run(w, [crash, again]).rows, id, Email) == SentCount(w.rows, id, Email) + 2
  {
    var crash, again := Digest([id], Accepted, Crashed, t), Digest([id], Accepted, Accepted, u);
    var v := Next(w, crash);
    assert v.matches[id] == w.matches[id];
    assert [crash, again][1..] == [again] && [again][1..] == [];
    EmailedByDigest(w, crash, id);
    EmailedByDigest(v, again, id);
    assert Run(v, [again]) == Next(v, again);
  }

  lemma EmailedByDigest(w: World, s: Step, id: nat)
    requires Possible(w, s) && s.Digest? && id in s.picked && Sendable(w.matches[id])
    requires w.emailEnabled && s.email == Accepted
    ensures SentCount(Next(w, s).rows, id, Email) == SentCount(w.rows, id, Email) + 1
  {
    var c, ids := ConditionsOf(w, s), SendableAmong(w, s.picked);
    SendableAmongDistinct(w, s.picked);
    SendableAmongIff(w, s.picked, id);
    DigestSentCount(ids, c, s.now, id, Email);
    SentCountAppend(w.rows, DigestRows(ids, c, s.now), id, Email);
  }
}
