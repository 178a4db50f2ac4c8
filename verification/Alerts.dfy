/**
  Notifications (app/services/alert_service.py): one digest per scan and channel, and every
  finding told once. `notifiedAt` on a match is the guard.
*/
module Alerts {
  import opened Prelude
  import opened Triage

  datatype AlertStatus = Open | Filtered | Dismissed | Resolved

  datatype Channel = Email | Webhook

  datatype DeliveryStatus = Pending | Sent | Failed

  /** How one channel's send ends; `Crashed` is an exception the channel does not catch. */
  datatype Outcome = Accepted | Rejected(error: string) | Crashed

  // ---------- the rows ----------

  /** The fields of a match that notification reads and writes. */
  datatype MatchRow = MatchRow(verdict: Verdict, status: AlertStatus, notifiedAt: Option<nat>)

  datatype AlertValue = AlertValue(
    matchId: nat, channel: Channel, status: DeliveryStatus, sentAt: Option<nat>, error: string)

  class CVEMatch {
    const id: nat
    var row: MatchRow

    constructor (id: nat, row: MatchRow)
      ensures this.id == id && this.row == row
    {
      this.id := id;
      this.row := row;
    }
  }

  class Alert {
    const matchId: nat
    const channel: Channel
    var status: DeliveryStatus
    var sentAt: Option<nat>
    var error: string

    constructor (matchId: nat, channel: Channel)
      ensures Value() == AlertValue(matchId, channel, Pending, None, "")
    {
      this.matchId := matchId;
      this.channel := channel;
      status := Pending;
      sentAt := None;
      error := "";
    }

    function Value(): AlertValue
      reads this
    {
      AlertValue(matchId, channel, status, sentAt, error)
    }

    predicate IsOpen()
      reads this
    {
      Value() == AlertAfter(matchId, channel, Crashed, 0)
    }

    predicate IsClosed(outcome: Outcome, now: nat)
      reads this
    {
      Value() == AlertAfter(matchId, channel, outcome, now)
    }

    /** Records how the send ended on a row that is still pending, or already says so. */
    method Close(outcome: Outcome, now: nat)
      requires outcome != Crashed
      requires IsOpen() || IsClosed(outcome, now)
      modifies this
      ensures IsClosed(outcome, now)
    {
      match outcome
      case Accepted =>
        status := Sent;
        sentAt := Some(now);
      case Rejected(error) =>
        status := Failed;
        this.error := error;
    }
  }

  class TrackedTarget {
    var webhook: Option<string>
    var lastSentAt: Option<nat>
    var lastError: Option<string>
  }

  /** The database session: the alert rows written so far. */
  class Session {
    var alerts: seq<Alert>
  }

  // ---------- what a digest does, on values ----------

  predicate Sendable(m: MatchRow) {
    m.verdict == Actionable && m.status == Open && m.notifiedAt.None?
  }

  /** The match ids of the sendable rows, in order. */
  function SendableIds(ids: seq<nat>, rows: seq<MatchRow>): seq<nat>
    requires |ids| == |rows|
  {
    if ids == [] then []
    else
      var n := |ids| - 1;
      SendableIds(ids[..n], rows[..n]) + (if Sendable(rows[n]) then [ids[n]] else [])
  }

  function AlertAfter(id: nat, channel: Channel, outcome: Outcome, now: nat): AlertValue {
    match outcome
    case Accepted => AlertValue(id, channel, Sent, Some(now), "")
    case Rejected(error) => AlertValue(id, channel, Failed, None, error)
    case Crashed => AlertValue(id, channel, Pending, None, "")
  }

  /** The rows one channel writes for these matches. */
  function ChannelRows(ids: seq<nat>, channel: Channel, outcome: Outcome, now: nat): (r: seq<AlertValue>)
    ensures |r| == |ids|
    ensures forall i :: 0 <= i < |ids| ==> r[i] == AlertAfter(ids[i], channel, outcome, now)
  {
    if ids == [] then []
    else ChannelRows(ids[..|ids| - 1], channel, outcome, now) + [AlertAfter(ids[|ids| - 1], channel, outcome, now)]
  }

  /** What a digest run against: the preference, whether a webhook is set, and how the sends end. */
  datatype Conditions = Conditions(emailEnabled: bool, hasWebhook: bool, email: Outcome, hook: Outcome)

  /** An exception leaves the digest before matches are marked. */
  predicate Escapes(c: Conditions) {
    c.emailEnabled && (c.email == Crashed || (c.hasWebhook && c.hook == Crashed))
  }

  predicate EmailGetsThrough(c: Conditions) {
    c.emailEnabled && c.email == Accepted
  }

  predicate HookGetsThrough(c: Conditions) {
    c.emailEnabled && c.email != Crashed && c.hasWebhook && c.hook == Accepted
  }

  /** Sendable matches are marked: the user opted out, or some channel got through and nothing escaped. */
  predicate Marks(c: Conditions) {
    !c.emailEnabled || (!Escapes(c) && (EmailGetsThrough(c) || HookGetsThrough(c)))
  }

  function AfterDigest(m: MatchRow, c: Conditions, now: nat): MatchRow {
    if Sendable(m) && Marks(c) then m.(notifiedAt := Some(now)) else m
  }

  /** The rows the webhook channel writes, none where no webhook is set. */
  function HookRows(ids: seq<nat>, hasWebhook: bool, outcome: Outcome, now: nat): seq<AlertValue> {
    if hasWebhook then ChannelRows(ids, Webhook, outcome, now) else []
  }

  /** Every alert row a digest writes for the sendable ids. */
  function DigestRows(ids: seq<nat>, c: Conditions, now: nat): seq<AlertValue> {
    if ids == [] || !c.emailEnabled then []
    else if c.email == Crashed then ChannelRows(ids, Email, Crashed, now)
    else ChannelRows(ids, Email, c.email, now) + HookRows(ids, c.hasWebhook, c.hook, now)
  }

  function AfterInApp(m: MatchRow, now: nat): MatchRow {
    if m.notifiedAt.None? then m.(notifiedAt := Some(now)) else m
  }

  // ---------- the methods ----------

  datatype Delivery = Delivered | NotDelivered | Escaped

  function DeliveryOf(outcome: Outcome): Delivery {
    match outcome
    case Accepted => Delivered
    case Rejected(_) => NotDelivered
    case Crashed => Escaped
  }

  /** Rows hold these values, object by object. */
  ghost predicate Hold(rows: seq<Alert>, values: seq<AlertValue>)
    reads rows
  {
    |rows| == |values| && forall i :: 0 <= i < |rows| ==> rows[i].Value() == values[i]
  }

  /** Rows of both channels, one after the other, are the rows of the digest. */
  lemma BothChannels(xs: seq<Alert>, ys: seq<Alert>, ids: seq<nat>, c: Conditions, now: nat)
    requires ids != [] && c.emailEnabled && c.email != Crashed
    requires Hold(xs, ChannelRows(ids, Email, c.email, now)) && Hold(ys, HookRows(ids, c.hasWebhook, c.hook, now))
    ensures Hold(xs + ys, DigestRows(ids, c, now))
  {
  }

  /** Adds one pending row per match. */
  method OpenRows(db: Session, ids: seq<nat>, channel: Channel) returns (rows: seq<Alert>)
    modifies db
    ensures db.alerts == old(db.alerts) + rows && fresh(rows)
    ensures Hold(rows, ChannelRows(ids, channel, Crashed, 0))
  {
    rows := [];
    for i := 0 to |ids|
      invariant |rows| == i && fresh(rows)
      invariant forall k :: 0 <= k < i ==> rows[k].Value() == AlertValue(ids[k], channel, Pending, None, "")
      invariant db.alerts == old(db.alerts)
    {
      var row := new Alert(ids[i], channel);
      rows := rows + [row];
    }
    db.alerts := db.alerts + rows;
  }

  /** Records on every row how the send ended. */
  method CloseRows(rows: seq<Alert>, ids: seq<nat>, channel: Channel, outcome: Outcome, now: nat)
    requires outcome != Crashed && Hold(rows, ChannelRows(ids, channel, Crashed, 0))
    modifies rows
    ensures Hold(rows, ChannelRows(ids, channel, outcome, now))
  {
    for i := 0 to |rows|
      invariant forall k :: 0 <= k < |rows| ==> rows[k].matchId == ids[k] && rows[k].channel == channel
      invariant forall k :: 0 <= k < |rows| ==> rows[k].IsOpen() || rows[k].IsClosed(outcome, now)
      invariant forall k :: 0 <= k < i ==> rows[k].IsClosed(outcome, now)
    {
      rows[i].Close(outcome, now);
    }
  }

  method DeliverEmail(
    db: Session, ids: seq<nat>, outcome: Outcome, now: nat) returns (r: Delivery, ghost rows: seq<Alert>)
    modifies db
    ensures db.alerts == old(db.alerts) + rows && fresh(rows)
    ensures Hold(rows, ChannelRows(ids, Email, outcome, now))
    ensures r == DeliveryOf(outcome)
  {
    var alerts := OpenRows(db, ids, Email);
    rows := alerts;
    if outcome == Crashed {
      return Escaped, rows;
    }
    CloseRows(alerts, ids, Email, outcome, now);
    return if outcome.Accepted? then Delivered else NotDelivered, rows;
  }

  /** The webhook configured for the project, if any; how it went is also recorded on the target. */
  method DeliverDiscord(db: Session, target: TrackedTarget, ids: seq<nat>, outcome: Outcome, now: nat)
    returns (r: Delivery, ghost rows: seq<Alert>)
    modifies db, target
    ensures db.alerts == old(db.alerts) + rows && fresh(rows)
    ensures target.webhook == old(target.webhook)
    ensures Hold(rows, HookRows(ids, target.webhook.Some?, outcome, now))
    ensures r == if target.webhook.None? then NotDelivered else DeliveryOf(outcome)
    ensures (target.lastSentAt, target.lastError) ==
      (if r == Delivered then (Some(now), None)
       else if target.webhook.Some? && outcome.Rejected? then (old(target.lastSentAt), Some(outcome.error))
       else old((target.lastSentAt, target.lastError)))
  {
    if target.webhook.None? {
      return NotDelivered, [];
    }
    var alerts := OpenRows(db, ids, Webhook);
    rows := alerts;
    if outcome == Crashed {
      return Escaped, rows;
    }
    CloseRows(alerts, ids, Webhook, outcome, now);
    if outcome.Accepted? {
      target.lastSentAt := Some(now);
      target.lastError := None;
      return Delivered, rows;
    }
    target.lastError := Some(outcome.error);
    return NotDelivered, rows;
  }

  function Ids(matches: seq<CVEMatch>): (ids: seq<nat>)
    ensures |ids| == |matches| && forall i :: 0 <= i < |matches| ==> ids[i] == matches[i].id
  {
    seq(|matches|, i requires 0 <= i < |matches| => matches[i].id)
  }

  function Rows(matches: seq<CVEMatch>): (rows: seq<MatchRow>)
    reads matches
    ensures |rows| == |matches| && forall i :: 0 <= i < |matches| ==> rows[i] == matches[i].row
  {
    seq(|matches|, i requires 0 <= i < |matches| reads matches => matches[i].row)
  }

  method SelectSendable(matches: seq<CVEMatch>) returns (sendable: seq<CVEMatch>)
    ensures Ids(sendable) == SendableIds(Ids(matches), Rows(matches))
    ensures forall m :: m in sendable <==> m in matches && Sendable(m.row)
  {
    sendable := [];
    for i := 0 to |matches|
      invariant Ids(sendable) == SendableIds(Ids(matches)[..i], Rows(matches)[..i])
      invariant forall m :: m in sendable <==> m in matches[..i] && Sendable(m.row)
    {
      assert Ids(matches)[..i + 1][..i] == Ids(matches)[..i];
      assert Rows(matches)[..i + 1][..i] == Rows(matches)[..i];
      assert matches[..i + 1] == matches[..i] + [matches[i]];
      if Sendable(matches[i].row) {
        assert Ids(sendable + [matches[i]]) == Ids(sendable) + [matches[i].id];
        sendable := sendable + [matches[i]];
      }
    }
    assert Ids(matches)[..|matches|] == Ids(matches) && Rows(matches)[..|matches|] == Rows(matches);
    assert matches[..|matches|] == matches;
  }

  /** Sets `notifiedAt` on each of these matches; an object listed twice is set once more to the same value. */
  method MarkNotified(sendable: seq<CVEMatch>, now: nat)
    modifies sendable
    ensures forall m :: m in sendable ==> m.row == old(m.row).(notifiedAt := Some(now))
  {
    for i := 0 to |sendable|
      invariant forall m :: m in sendable ==> m.row == old(m.row) || m.row == old(m.row).(notifiedAt := Some(now))
      invariant forall k :: 0 <= k < i ==> sendable[k].row == old(sendable[k].row).(notifiedAt := Some(now))
    {
      sendable[i].row := sendable[i].row.(notifiedAt := Some(now));
    }
  }

  /** Email first, then the webhook; one failing does not stop the other. */
  method TellChannels(db: Session, target: TrackedTarget, ids: seq<nat>, email: Outcome, hook: Outcome, now: nat)
    returns (r: Delivery, ghost rows: seq<Alert>)
    requires ids != []
    modifies db, target
    ensures db.alerts == old(db.alerts) + rows && fresh(rows)
    ensures Hold(rows, DigestRows(ids, Conditions(true, old(target.webhook).Some?, email, hook), now))
    ensures
      var c := Conditions(true, old(target.webhook).Some?, email, hook);
      r == (if Escapes(c) then Escaped else if Marks(c) then Delivered else NotDelivered)
  {
    var deliveredAny := false;
    var byEmail, emailRows := DeliverEmail(db, ids, email, now);
    rows := emailRows;
    if byEmail == Escaped {
      return Escaped, rows;
    }
    if byEmail == Delivered {
      deliveredAny := true;
    }
    var byHook, hookRows := DeliverDiscord(db, target, ids, hook, now);
    rows := emailRows + hookRows;
    SameAlerts(old(db.alerts), emailRows, hookRows);
    assert forall i :: 0 <= i < |emailRows| ==> emailRows[i].Value() == AlertAfter(ids[i], Email, email, now);
    BothChannels(emailRows, hookRows, ids, Conditions(true, target.webhook.Some?, email, hook), now);
    if byHook == Delivered {
      deliveredAny := true;
    }
    r := if byHook == Escaped then Escaped else if deliveredAny then Delivered else NotDelivered;
  }

  lemma SameAlerts(before: seq<Alert>, xs: seq<Alert>, ys: seq<Alert>)
    ensures before + xs + ys == before + (xs + ys)
  {
  }

  // ---------- what the rows say ----------

  /** The row records how its channel's send ended. */
  ghost predicate Records(r: AlertValue, email: Outcome, hook: Outcome, now: nat) {
    match (if r.channel == Email then email else hook)
    case Accepted => r.status == Sent && r.sentAt == Some(now) && r.error == ""
    case Rejected(error) => r.status == Failed && r.sentAt == None && r.error == error
    case Crashed => r.status == Pending && r.sentAt == None && r.error == ""
  }

  ghost predicate HasRow(rows: seq<AlertValue>, id: nat, channel: Channel) {
    exists i :: 0 <= i < |rows| && rows[i].matchId == id && rows[i].channel == channel
  }

  ghost predicate HasStatus(rows: seq<AlertValue>, id: nat, status: DeliveryStatus) {
    exists i :: 0 <= i < |rows| && rows[i].matchId == id && rows[i].status == status
  }

  ghost predicate AnyHasStatus(rows: seq<AlertValue>, status: DeliveryStatus) {
    exists i :: 0 <= i < |rows| && rows[i].status == status
  }

  /** Some row says the match was sent, and none that any match is still waiting. */
  ghost predicate ToldByRows(rows: seq<AlertValue>, id: nat) {
    HasStatus(rows, id, Sent) && !AnyHasStatus(rows, Pending)
  }

  /** Every match is recorded for email, and for the webhook where there is one and the email did not crash. */
  ghost predicate RowsAreComplete(
    rows: seq<AlertValue>, ids: seq<nat>, hasWebhook: bool, email: Outcome, hook: Outcome, now: nat) {
    && (forall i :: 0 <= i < |rows| ==> rows[i].matchId in ids && Records(rows[i], email, hook, now))
    && (forall id :: id in ids ==> HasRow(rows, id, Email))
    && (forall id :: id in ids ==> (HasRow(rows, id, Webhook) <==> hasWebhook && email != Crashed))
  }

  lemma ChannelHasRow(ids: seq<nat>, channel: Channel, outcome: Outcome, now: nat, id: nat)
    requires id in ids
    ensures HasRow(ChannelRows(ids, channel, outcome, now), id, channel)
    ensures forall other :: other != channel ==> !HasRow(ChannelRows(ids, channel, outcome, now), id, other)
  {
    var i :| 0 <= i < |ids| && ids[i] == id;
    assert ChannelRows(ids, channel, outcome, now)[i].matchId == id;
  }

  lemma HasRowConcat(xs: seq<AlertValue>, ys: seq<AlertValue>, id: nat, channel: Channel)
    ensures HasRow(xs + ys, id, channel) <==> HasRow(xs, id, channel) || HasRow(ys, id, channel)
  {
    if i :| 0 <= i < |ys| && ys[i].matchId == id && ys[i].channel == channel {
      assert (xs + ys)[|xs| + i] == ys[i];
    }
    if i :| 0 <= i < |xs| && xs[i].matchId == id && xs[i].channel == channel {
      assert (xs + ys)[i] == xs[i];
    }
  }

  lemma DigestHasRows(ids: seq<nat>, c: Conditions, now: nat, id: nat)
    requires c.emailEnabled && id in ids
    ensures HasRow(DigestRows(ids, c, now), id, Email)
    ensures HasRow(DigestRows(ids, c, now), id, Webhook) <==> c.hasWebhook && c.email != Crashed
  {
    ChannelHasRow(ids, Email, c.email, now, id);
    ChannelHasRow(ids, Webhook, c.hook, now, id);
    if c.email != Crashed {
      HasRowConcat(ChannelRows(ids, Email, c.email, now), HookRows(ids, c.hasWebhook, c.hook, now), id, Email);
      HasRowConcat(ChannelRows(ids, Email, c.email, now), HookRows(ids, c.hasWebhook, c.hook, now), id, Webhook);
    }
  }

  lemma DigestRowsRecord(ids: seq<nat>, c: Conditions, now: nat, i: nat)
    requires i < |DigestRows(ids, c, now)|
    ensures DigestRows(ids, c, now)[i].matchId in ids && Records(DigestRows(ids, c, now)[i], c.email, c.hook, now)
  {
  }

  lemma DigestRowsAreComplete(ids: seq<nat>, c: Conditions, now: nat)
    requires c.emailEnabled
    ensures RowsAreComplete(DigestRows(ids, c, now), ids, c.hasWebhook, c.email, c.hook, now)
  {
    var rows := DigestRows(ids, c, now);
    forall i | 0 <= i < |rows| ensures rows[i].matchId in ids && Records(rows[i], c.email, c.hook, now) {
      DigestRowsRecord(ids, c, now, i);
    }
    forall id | id in ids
      ensures HasRow(rows, id, Email) && (HasRow(rows, id, Webhook) <==> c.hasWebhook && c.email != Crashed)
    {
      DigestHasRows(ids, c, now, id);
    }
  }

  lemma ChannelHasStatus(ids: seq<nat>, ch: Channel, outcome: Outcome, now: nat, id: nat, status: DeliveryStatus)
    requires id in ids
    ensures
      var rows, ends := ChannelRows(ids, ch, outcome, now), AlertAfter(id, ch, outcome, now).status == status;
      (HasStatus(rows, id, status) <==> ends) && (AnyHasStatus(rows, status) <==> ends)
  {
    var i :| 0 <= i < |ids| && ids[i] == id;
    assert ChannelRows(ids, ch, outcome, now)[i].matchId == id;
  }

  lemma StatusConcat(xs: seq<AlertValue>, ys: seq<AlertValue>, id: nat, status: DeliveryStatus)
    ensures HasStatus(xs + ys, id, status) <==> HasStatus(xs, id, status) || HasStatus(ys, id, status)
    ensures AnyHasStatus(xs + ys, status) <==> AnyHasStatus(xs, status) || AnyHasStatus(ys, status)
  {
    assert forall i :: 0 <= i < |xs| ==> (xs + ys)[i] == xs[i];
    assert forall i :: 0 <= i < |ys| ==> (xs + ys)[|xs| + i] == ys[i];
  }

  /** How a digest's rows end, one match or all of them: the email's way, or the webhook's if it was tried. */
  lemma DigestHasStatus(ids: seq<nat>, c: Conditions, now: nat, id: nat, status: DeliveryStatus)
    requires c.emailEnabled && id in ids
    ensures
      var some := AlertAfter(id, Email, c.email, now).status == status
        || (c.email != Crashed && c.hasWebhook && AlertAfter(id, Webhook, c.hook, now).status == status);
      && (HasStatus(DigestRows(ids, c, now), id, status) <==> some)
      && (AnyHasStatus(DigestRows(ids, c, now), status) <==> some)
  {
    ChannelHasStatus(ids, Email, c.email, now, id, status);
    ChannelHasStatus(ids, Webhook, c.hook, now, id, status);
    StatusConcat(ChannelRows(ids, Email, c.email, now), HookRows(ids, c.hasWebhook, c.hook, now), id, status);
  }

  /** With email enabled, a match is marked exactly when its rows say it was told. */
  lemma MarksIffTold(ids: seq<nat>, c: Conditions, now: nat, id: nat)
    requires c.emailEnabled && id in ids
    ensures Marks(c) <==> ToldByRows(DigestRows(ids, c, now), id)
  {
    DigestHasStatus(ids, c, now, id, Sent);
    DigestHasStatus(ids, c, now, id, Pending);
  }

  datatype DigestResult = Covered(count: nat) | Crash

  /** How many matches a digest reports as covered; opting out covers none. */
  function ResultOf(ids: seq<nat>, c: Conditions): DigestResult {
    if ids == [] then Covered(0)
    else if Escapes(c) then Crash
    else if c.emailEnabled && Marks(c) then Covered(|ids|)
    else Covered(0)
  }

  method NotifySendable(
    db: Session, target: TrackedTarget, sendable: seq<CVEMatch>, email: Outcome, hook: Outcome, now: nat)
    returns (r: DigestResult, ghost rows: seq<Alert>)
    requires sendable != []
    modifies db, target, sendable
    ensures db.alerts == old(db.alerts) + rows && fresh(rows)
    ensures
      var c := Conditions(true, old(target.webhook).Some?, email, hook);
      && Hold(rows, DigestRows(Ids(sendable), c, now))
      && r == ResultOf(Ids(sendable), c)
      && forall m :: m in sendable ==> m.row == if Marks(c) then old(m.row).(notifiedAt := Some(now)) else old(m.row)
  {
    var told, sent := TellChannels(db, target, Ids(sendable), email, hook, now);
    rows := sent;
    if told == Escaped {
      return Crash, rows;
    }
    if told == NotDelivered {
      return Covered(0), rows;
    }
    MarkNotified(sendable, now);
    return Covered(|sendable|), rows;
  }

  /** An open, actionable finding nobody has been told of. */
  predicate IsNews(m: CVEMatch)
    reads m
  {
    m.row.verdict == Actionable && m.row.status == Open && m.row.notifiedAt == None
  }

  function Values(rows: seq<Alert>): (values: seq<AlertValue>)
    reads rows
    ensures |values| == |rows| && forall i :: 0 <= i < |rows| ==> values[i] == rows[i].Value()
  {
    seq(|rows|, i requires 0 <= i < |rows| reads rows => rows[i].Value())
  }

  lemma {:induction false} SendableIdsIff(ids: seq<nat>, rows: seq<MatchRow>, i: nat)
    requires |ids| == |rows| && i < |ids| && Sendable(rows[i])
    ensures ids[i] in SendableIds(ids, rows)
    decreases |ids|
  {
    var n := |ids| - 1;
    if i < n {
      SendableIdsIff(ids[..n], rows[..n], i);
    }
  }

  lemma {:induction false} SendableIdsOnly(ids: seq<nat>, rows: seq<MatchRow>, id: nat) returns (i: nat)
    requires |ids| == |rows| && id in SendableIds(ids, rows)
    ensures i < |ids| && ids[i] == id && Sendable(rows[i])
    decreases |ids|
  {
    var n := |ids| - 1;
    if id in SendableIds(ids[..n], rows[..n]) {
      i := SendableIdsOnly(ids[..n], rows[..n], id);
    } else {
      i := n;
    }
  }

  /** What the rows say of one match: left alone if it is no news, or if nobody has been told. */
  ghost predicate EndsAsTold(
    before: MatchRow, after: MatchRow, id: nat, rows: seq<AlertValue>, emailEnabled: bool, now: nat) {
    var isNews := before.verdict == Actionable && before.status == Open && before.notifiedAt == None;
    after == if isNews && (!emailEnabled || ToldByRows(rows, id)) then before.(notifiedAt := Some(now)) else before
  }

  lemma DigestEndsAsTold(ids: seq<nat>, before: seq<MatchRow>, c: Conditions, now: nat, i: nat)
    requires |ids| == |before| && i < |ids|
    ensures
      var sendable := SendableIds(ids, before);
      && (Sendable(before[i]) ==> ids[i] in sendable)
      && EndsAsTold(
           before[i], AfterDigest(before[i], c, now), ids[i], DigestRows(sendable, c, now), c.emailEnabled, now)
  {
    if Sendable(before[i]) {
      SendableIdsIff(ids, before, i);
      if c.emailEnabled {
        MarksIffTold(SendableIds(ids, before), c, now, ids[i]);
      }
    }
  }

  /** One digest, by the functions on values: each match ends as `AfterDigest` says, the rows are `DigestRows`. */
  method DigestOnce(
    db: Session, emailEnabled: bool, target: TrackedTarget, matches: seq<CVEMatch>,
    email: Outcome, hook: Outcome, now: nat)
    returns (r: DigestResult, ghost rows: seq<Alert>, ghost ids: seq<nat>, ghost c: Conditions)
    modifies db, target, matches
    ensures c == Conditions(emailEnabled, old(target.webhook).Some?, email, hook)
    ensures ids == SendableIds(Ids(matches), old(Rows(matches)))
    ensures forall m :: m in matches ==> m.row == AfterDigest(old(m.row), c, now)
    ensures db.alerts == old(db.alerts) + rows && fresh(rows)
    ensures Hold(rows, DigestRows(ids, c, now))
    ensures r == ResultOf(ids, c)
  {
    c := Conditions(emailEnabled, target.webhook.Some?, email, hook);
    rows := [];
    var sendable := SelectSendable(matches);
    ids := Ids(sendable);
    assert forall k :: 0 <= k < |sendable| ==> sendable[k] in matches;
    if sendable == [] {
      assert forall m :: m in matches ==> !Sendable(m.row);
      return Covered(0), rows, ids, c;
    }
    if !emailEnabled {
      MarkNotified(sendable, now);
      return Covered(0), rows, ids, c;
    }
    r, rows := NotifySendable(db, target, sendable, email, hook, now);
    return r, rows, ids, c;
  }

  /** The result, from the rows alone: an exception leaves rows pending, and any sent row covers all the matches. */
  ghost predicate ResultFitsRows(r: DigestResult, rows: seq<AlertValue>, ids: seq<nat>) {
    r == if AnyHasStatus(rows, Pending) then Crash else if AnyHasStatus(rows, Sent) then Covered(|ids|) else Covered(0)
  }

  lemma ResultIsInRows(ids: seq<nat>, c: Conditions, now: nat)
    ensures ResultFitsRows(ResultOf(ids, c), DigestRows(ids, c, now), ids)
  {
    if ids != [] && c.emailEnabled {
      DigestHasStatus(ids, c, now, ids[0], Sent);
      DigestHasStatus(ids, c, now, ids[0], Pending);
    }
  }

  /**
    One digest. Told from the rows it writes alone: with email enabled, news becomes marked exactly
    when some row says it was sent and none is left pending; `Crash` is an exception escaping.
  */
  method SendNewMatchDigest(
    db: Session, emailEnabled: bool, target: TrackedTarget, matches: seq<CVEMatch>,
    email: Outcome, hook: Outcome, now: nat)
    returns (r: DigestResult, ghost rows: seq<Alert>, ghost ids: seq<nat>, ghost c: Conditions)
    modifies db, target, matches
    ensures c == Conditions(emailEnabled, old(target.webhook).Some?, email, hook)
    ensures ids == SendableIds(Ids(matches), old(Rows(matches)))
    ensures forall m :: m in matches ==> m.row == AfterDigest(old(m.row), c, now)
    ensures db.alerts == old(db.alerts) + rows && fresh(rows)
    ensures Hold(rows, DigestRows(ids, c, now))
    ensures r == ResultOf(ids, c)
    ensures forall i :: 0 <= i < |matches| ==>
      EndsAsTold(old(matches[i].row), matches[i].row, matches[i].id, Values(rows), emailEnabled, now)
    ensures forall i :: 0 <= i < |matches| && old(IsNews(matches[i])) ==> matches[i].id in ids
    ensures forall id :: id in ids ==>
      exists i :: 0 <= i < |matches| && old(IsNews(matches[i])) && matches[i].id == id
    ensures emailEnabled ==> RowsAreComplete(Values(rows), ids, old(target.webhook).Some?, email, hook, now)
    ensures !emailEnabled ==> rows == []
    ensures ResultFitsRows(r, Values(rows), ids)
  {
    ghost var before := Rows(matches);
    r, rows, ids, c := DigestOnce(db, emailEnabled, target, matches, email, hook, now);
    assert Values(rows) == DigestRows(ids, c, now);
    ResultIsInRows(ids, c, now);
    if emailEnabled {
      DigestRowsAreComplete(ids, c, now);
    }
    forall i | 0 <= i < |matches|
      ensures EndsAsTold(before[i], matches[i].row, matches[i].id, Values(rows), emailEnabled, now)
      ensures Sendable(before[i]) ==> matches[i].id in ids
    {
      DigestEndsAsTold(Ids(matches), before, c, now, i);
    }
    forall id | id in ids ensures exists i :: 0 <= i < |matches| && old(IsNews(matches[i])) && matches[i].id == id {
      var i := SendableIdsOnly(Ids(matches), before, id);
    }
  }

  lemma SameSize<T>(a: set<T>, b: set<T>)
    requires a <= b && b <= a
    ensures |a| == |b|
  {
    assert a == b;
  }

  /** Marks what the user is watching render; counts the matches that had not been told. */
  method MarkDeliveredInApp(matches: seq<CVEMatch>, now: nat) returns (marked: nat)
    modifies matches
    ensures forall m :: m in matches ==> m.row == AfterInApp(old(m.row), now)
    ensures marked == |set m | m in matches && old(m.row).notifiedAt.None?|
  {
    marked := 0;
    ghost var done: set<CVEMatch> := {};
    for i := 0 to |matches|
      invariant forall m :: m in done ==> m in matches && old(m.row).notifiedAt.None?
      invariant forall m :: m in matches ==> m.row == if m in done then AfterInApp(old(m.row), now) else old(m.row)
      invariant forall k :: 0 <= k < i && old(matches[k].row).notifiedAt.None? ==> matches[k] in done
      invariant marked == |done|
    {
      var m := matches[i];
      assert m in matches;
      if m.row.notifiedAt.None? {
        m.row := m.row.(notifiedAt := Some(now));
        marked := marked + 1;
        done := done + {m};
      }
    }
    ghost var unmarked := set m | m in matches && old(m.row).notifiedAt.None?;
    SameSize(done, unmarked);
  }
}
