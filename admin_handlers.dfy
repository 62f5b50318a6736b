/**
 * The admin side of the bot: who may use it, how button data is read back, the two
 * moderation queues and what each decision does to the store, the listings and their page
 * arithmetic, the scan of the event sources and the form for a manually entered event.
 * Chat I/O is reduced to what a handler answers, which screen it shows next and which
 * notices it sends.
 */
module AdminHandlers {
  import opened Wrappers
  import opened Strings
  import opened Records
  import opened Database
  import opened GigaChat

  // ================================================================ access

  /** The roles `check_access_by_id` admits. */
  const StaffRoles: set<string> := {"GreatAdmin", "Owner", "Admin", "Moderator"}

  /**
   * `check_access_by_id(user_id, db)`: the caller's admin row when the caller is known, has
   * an admin row and that row carries a staff role; `None` otherwise.
   */
  function CheckAccessById(userId: Option<int>, admins: seq<Admin>): (r: Option<Admin>)
    ensures r.Some? ==> userId.Some? && r.value in admins && r.value.telegramId == userId.value
                        && r.value.role in StaffRoles
    ensures (userId.Some? && (exists a :: a in admins && a.telegramId == userId.value) &&
             (forall a :: a in admins && a.telegramId == userId.value ==> a.role in StaffRoles)) ==> r.Some?
  {
    if userId.None? then None
    else
      match GetAdmin(admins, userId.value)
      case None => None
      case Some(a) => if a.role in StaffRoles then Some(a) else None
  }

  /** Appending an admin row changes `get_admin` only for an id that had no row. */
  lemma {:induction false} GetAdminAppend(admins: seq<Admin>, a: Admin, t: int)
    ensures GetAdmin(admins + [a], t)
      == if GetAdmin(admins, t).Some? then GetAdmin(admins, t) else if a.telegramId == t then Some(a) else None
  {
    if admins == [] {
      assert admins + [a] == [a];
    } else {
      assert (admins + [a])[1..] == admins[1..] + [a];
      GetAdminAppend(admins[1..], a, t);
    }
  }

  /** Someone without an admin row who is added with a staff role passes the check as that row. */
  lemma AddedAdminHasAccess(admins: seq<Admin>, t: int, username: string, role: string)
    requires GetAdmin(admins, t).None?
    requires role in StaffRoles
    ensures CheckAccessById(Some(t), admins + [Admin(t, username, role)]) == Some(Admin(t, username, role))
  {
    GetAdminAppend(admins, Admin(t, username, role), t);
  }

  /** After `remove_admin(t)` the check refuses `t`. */
  lemma RemovedAdminHasNoAccess(admins: seq<Admin>, t: int)
    ensures CheckAccessById(Some(t), Filter(admins, TelegramIdIsNot(t))).None?
  {
    RemoveAdminEffect(admins, t, t + 1);
  }

  lemma {:induction false} GetAdminWithRole(admins: seq<Admin>, t: int, role: string)
    ensures GetAdmin(WithRole(admins, t, role), t)
      == if GetAdmin(admins, t).Some? then Some(GetAdmin(admins, t).value.(role := role)) else None
  {
    if admins != [] {
      var r := WithRole(admins, t, role);
      assert r[1..] == WithRole(admins[1..], t, role);
      GetAdminWithRole(admins[1..], t, role);
    }
  }

  /** After `update_admin_role(t, role)` an admin passes the check exactly when `role` is a staff role. */
  lemma RoleChangeDecidesAccess(admins: seq<Admin>, t: int, role: string)
    requires GetAdmin(admins, t).Some?
    ensures CheckAccessById(Some(t), WithRole(admins, t, role)).Some? <==> role in StaffRoles
  {
    GetAdminWithRole(admins, t, role);
  }

  // ================================================================ callback data

  /**
   * What a callback handler gets from its `_`-separated data: a refusal when there are too
   * few parts, a `ValueError` that ends the handler when a part is not an integer, or the
   * integers it reads.
   */
  datatype CallbackData = TooFewParts | NotAnInteger | Fields(values: seq<int>)

  /** `parts[k]`, with a negative `k` counting from the end as Python lists do. */
  function PartAt(parts: seq<string>, k: int): string
    requires -|parts| <= k < |parts|
  {
    if k < 0 then parts[|parts| + k] else parts[k]
  }

  /** `int(parts[k])` for each position `k` in turn, `None` as soon as one is not an integer. */
  function IntsAt(parts: seq<string>, positions: seq<int>): Option<seq<int>>
    requires forall k :: 0 <= k < |positions| ==> -|parts| <= positions[k] < |parts|
  {
    if positions == [] then Some([])
    else
      var head := ParseInt(PartAt(parts, positions[0]));
      var rest := IntsAt(parts, positions[1..]);
      if head.None? || rest.None? then None else Some([head.value] + rest.value)
  }

  /** The pieces are read exactly when each is an integer, and then as those integers, in order. */
  lemma {:induction false} IntsAtSpec(parts: seq<string>, positions: seq<int>)
    requires forall k :: 0 <= k < |positions| ==> -|parts| <= positions[k] < |parts|
    ensures var r := IntsAt(parts, positions);
      && (r.Some? <==> forall k :: 0 <= k < |positions| ==> ParseInt(PartAt(parts, positions[k])).Some?)
      && (r.Some? ==> |r.value| == |positions|)
      && (r.Some? ==> forall k :: 0 <= k < |positions| ==> ParseInt(PartAt(parts, positions[k])) == Some(r.value[k]))
  {
    if positions != [] {
      IntsAtSpec(parts, positions[1..]);
      assert forall k :: 1 <= k < |positions| ==> positions[k] == positions[1..][k - 1];
    }
  }

  /**
   * `parts = callback.data.split("_")`, refused when `len(parts) < minParts`, then
   * `int(parts[k])` for each position `k`.
   */
  function ReadCallback(data: string, minParts: nat, positions: seq<int>): (r: CallbackData)
    requires forall k :: 0 <= k < |positions| ==> -(minParts as int) <= positions[k] < minParts
    ensures r == TooFewParts <==> |Split(data, '_')| < minParts
    ensures r.Fields? ==> |Split(data, '_')| >= minParts && |r.values| == |positions|
    ensures r.Fields? ==> forall k :: 0 <= k < |positions| ==>
              ParseInt(PartAt(Split(data, '_'), positions[k])) == Some(r.values[k])
    ensures r == NotAnInteger ==> |Split(data, '_')| >= minParts
    ensures r == NotAnInteger ==>
              exists k :: 0 <= k < |positions| && ParseInt(PartAt(Split(data, '_'), positions[k])).None?
  {
    var parts := Split(data, '_');
    if |parts| < minParts then TooFewParts
    else
      IntsAtSpec(parts, positions);
      match IntsAt(parts, positions)
      case None => NotAnInteger
      case Some(values) => Fields(values)
  }

  lemma JoinStep(p: string, rest: seq<string>)
    requires rest != []
    ensures Join([p] + rest, '_') == p + "_" + Join(rest, '_')
  {
    assert ([p] + rest)[1..] == rest;
  }

  /** The data `w1_w2_a_b` (`reg_approve_…`, `reg_reject_…`, `part_next_…`) reads back as `a` and `b`. */
  lemma TwoIdsRoundTrip(w1: string, w2: string, a: int, b: int)
    requires '_' !in w1 && '_' !in w2
    ensures ReadCallback(w1 + "_" + w2 + "_" + IntToString(a) + "_" + IntToString(b), 4, [2, 3]) == Fields([a, b])
  {
    var sa, sb := IntToString(a), IntToString(b);
    IntToStringHasNoUnderscore(a);
    IntToStringHasNoUnderscore(b);
    var parts := [w1, w2, sa, sb];
    var data := w1 + "_" + w2 + "_" + sa + "_" + sb;
    assert Join(parts, '_') == data by {
      JoinStep(w1, [w2, sa, sb]);
      JoinStep(w2, [sa, sb]);
      JoinStep(sa, [sb]);
    }
    SplitJoin(parts, '_');
    assert Split(data, '_') == parts;
    IntRoundTrip(a);
    IntRoundTrip(b);
    IntsAtTwo(parts, a, b);
  }

  /** Two integer pieces at positions 2 and 3 are read as those integers. */
  lemma IntsAtTwo(parts: seq<string>, a: int, b: int)
    requires |parts| == 4 && ParseInt(parts[2]) == Some(a) && ParseInt(parts[3]) == Some(b)
    ensures IntsAt(parts, [2, 3]) == Some([a, b])
  {
    var positions := [2, 3];
    assert positions[0] == 2 && positions[1..] == [3];
    IntsAtOne(parts, 3, b);
    assert IntsAt(parts, positions[1..]) == Some([b]);
    assert ParseInt(PartAt(parts, positions[0])) == Some(a);
    assert IntsAt(parts, positions) == Some([a] + [b]);
    assert [a] + [b] == [a, b];
  }

  /**
   * The data `w1_w2_n` (`mod_next_…`, `approve_event_…`, `event_participants_…`) reads back
   * as `n`, whether the handler takes `parts[2]` or `parts[-1]`.
   */
  lemma OneIdRoundTrip(w1: string, w2: string, n: int)
    requires '_' !in w1 && '_' !in w2
    ensures ReadCallback(w1 + "_" + w2 + "_" + IntToString(n), 3, [2]) == Fields([n])
    ensures ReadCallback(w1 + "_" + w2 + "_" + IntToString(n), 3, [-1]) == Fields([n])
  {
    var sn := IntToString(n);
    IntToStringHasNoUnderscore(n);
    var parts := [w1, w2, sn];
    var data := w1 + "_" + w2 + "_" + sn;
    assert Join(parts, '_') == data by {
      JoinStep(w1, [w2, sn]);
      JoinStep(w2, [sn]);
    }
    SplitJoin(parts, '_');
    assert Split(data, '_') == parts;
    IntRoundTrip(n);
    IntsAtOne(parts, 2, n);
    IntsAtOne(parts, -1, n);
  }

  /** One integer piece is read as that integer. */
  lemma IntsAtOne(parts: seq<string>, position: int, n: int)
    requires -|parts| <= position < |parts| && ParseInt(PartAt(parts, position)) == Some(n)
    ensures IntsAt(parts, [position]) == Some([n])
  {
    var positions := [position];
    assert positions[0] == position && positions[1..] == [];
    assert IntsAt(parts, positions[1..]) == Some([]);
    assert [n] + [] == [n];
  }

  /**
   * The data `w1_w2_w3_n` (`admin_events_next_…`, `admin_event_details_…`) reads back as `n`,
   * whether the handler takes `parts[3]` or `parts[-1]`.
   */
  lemma ThreeWordsOneIdRoundTrip(w1: string, w2: string, w3: string, n: int)
    requires '_' !in w1 && '_' !in w2 && '_' !in w3
    ensures ReadCallback(w1 + "_" + w2 + "_" + w3 + "_" + IntToString(n), 4, [3]) == Fields([n])
    ensures ReadCallback(w1 + "_" + w2 + "_" + w3 + "_" + IntToString(n), 3, [-1]) == Fields([n])
  {
    var sn := IntToString(n);
    IntToStringHasNoUnderscore(n);
    var parts := [w1, w2, w3, sn];
    var data := w1 + "_" + w2 + "_" + w3 + "_" + sn;
    assert Join(parts, '_') == data by {
      JoinStep(w1, [w2, w3, sn]);
      JoinStep(w2, [w3, sn]);
      JoinStep(w3, [sn]);
    }
    SplitJoin(parts, '_');
    assert Split(data, '_') == parts;
    IntRoundTrip(n);
    IntsAtOne(parts, 3, n);
    IntsAtOne(parts, -1, n);
  }

  // ================================================================ registration moderation

  /** What the registration-moderation screen shows: nothing to do, or one request. */
  datatype RegScreen = NoRequests | Request(reg: Registration)

  /** `show_next_reg_moderation`: the oldest pending registration, `pending_regs[0]`. */
  function NextRegScreen(regs: seq<Registration>): (r: RegScreen)
    ensures r == NoRequests <==> forall x :: x in regs ==> x.status != RegPending
    ensures r.Request? ==> r.reg.status == RegPending
    ensures r.Request? ==>
              exists i :: 0 <= i < |regs| && regs[i] == r.reg && (forall j :: 0 <= j < i ==> regs[j].status != RegPending)
  {
    var pending := GetPendingRegistrations(regs);
    if pending == [] then NoRequests
    else
      FilterHead(regs, IsPendingReg);
      assert pending[0] in pending;
      Request(pending[0])
  }

  /** What a registration handler answers the moderator. */
  datatype RegAnswer = RegNoAccess | RegBadData | RegFailed | RegDone | RegAlreadyProcessed | RegSkipped

  /** A message to an employee about the decision on their request. */
  datatype Notice = Confirmed(telegramId: int, eventId: int) | Refused(telegramId: int, eventId: int)

  /** A registration handler's answer, the notices it sends, the screen it shows next and the new ledger. */
  datatype RegStep = RegStep(answer: RegAnswer, notices: seq<Notice>, shown: Option<RegScreen>, regs: seq<Registration>)

  /** The ledger after a decision on a pair: approval marks its rows approved, rejection deletes them. */
  function Decided(regs: seq<Registration>, u: int, e: int, approve: bool): seq<Registration>
  {
    if approve then ApprovePair(regs, u, e) else Filter(regs, NotPair(u, e))
  }

  /** After either decision the pair has no pending row left. */
  lemma DecidedHasNoPending(regs: seq<Registration>, u: int, e: int, approve: bool)
    ensures !HasPendingPair(Decided(regs, u, e, approve), u, e)
  {
    if approve {
      ApprovePairEffect(regs, u, e);
    }
  }

  /**
   * The decision on the request of user `u` for event `e`: when the pair has a pending row,
   * the store's decision and the notice to the employee if both rows still exist; otherwise
   * "already processed" and no change. Either way the queue head is shown again.
   */
  function DecideRequest(users: seq<User>, events: seq<Event>, regs: seq<Registration>,
                         u: int, e: int, approve: bool): (r: RegStep)
    ensures r.answer == RegDone <==> HasPendingPair(regs, u, e)
    ensures r.answer == RegDone ==> r.regs == Decided(regs, u, e, approve) && !HasPendingPair(r.regs, u, e)
    ensures r.answer != RegDone ==> r.answer == RegAlreadyProcessed && r.regs == regs && r.notices == []
    ensures r.shown == Some(NextRegScreen(r.regs))
    ensures |r.notices| <= 1
    ensures r.notices != [] <==> r.answer == RegDone && GetUserById(users, u).Some? && GetEventById(events, e).Some?
    ensures r.notices != [] ==>
      r.notices[0] == (if approve then Confirmed(GetUserById(users, u).value.telegramId, e)
                       else Refused(GetUserById(users, u).value.telegramId, e))
  {
    if HasPendingPair(regs, u, e) then
      var after := Decided(regs, u, e, approve);
      DecidedHasNoPending(regs, u, e, approve);
      var notices :=
        match (GetUserById(users, u), GetEventById(events, e))
        case (Some(user), Some(_)) =>
          [if approve then Confirmed(user.telegramId, e) else Refused(user.telegramId, e)]
        case _ => [];
      RegStep(RegDone, notices, Some(NextRegScreen(after)), after)
    else
      RegStep(RegAlreadyProcessed, [], Some(NextRegScreen(regs)), regs)
  }

  /**
   * `reg_approve_handler` (`approve`) and `reg_reject_handler`: the access check, the
   * callback data `reg_<action>_<user>_<event>` and then the decision on that request.
   */
  function RegDecision(admins: seq<Admin>, users: seq<User>, events: seq<Event>, regs: seq<Registration>,
                       caller: Option<int>, data: string, approve: bool): (r: RegStep)
    ensures r.answer == RegNoAccess <==> CheckAccessById(caller, admins).None?
    ensures r.answer == RegBadData <==> CheckAccessById(caller, admins).Some? && ReadCallback(data, 4, [2, 3]) == TooFewParts
    ensures r.answer == RegFailed <==> CheckAccessById(caller, admins).Some? && ReadCallback(data, 4, [2, 3]) == NotAnInteger
    ensures r.answer in {RegNoAccess, RegBadData, RegFailed} ==> r.shown.None? && r.regs == regs && r.notices == []
    ensures CheckAccessById(caller, admins).Some? && ReadCallback(data, 4, [2, 3]).Fields? ==>
      var v := ReadCallback(data, 4, [2, 3]).values;
      r == DecideRequest(users, events, regs, v[0], v[1], approve)
  {
    if CheckAccessById(caller, admins).None? then RegStep(RegNoAccess, [], None, regs)
    else
      match ReadCallback(data, 4, [2, 3])
      case TooFewParts => RegStep(RegBadData, [], None, regs)
      case NotAnInteger => RegStep(RegFailed, [], None, regs)
      case Fields(v) => DecideRequest(users, events, regs, v[0], v[1], approve)
  }

  /**
   * Two moderators deciding the same request, in either combination of approve and reject:
   * the second decision finds it already processed, changes nothing and notifies no one.
   */
  lemma SecondDecisionIsNoOp(admins: seq<Admin>, users: seq<User>, events: seq<Event>, regs: seq<Registration>,
                             caller: Option<int>, caller2: Option<int>, data: string, approve: bool, approve2: bool)
    requires RegDecision(admins, users, events, regs, caller, data, approve).answer == RegDone
    requires CheckAccessById(caller2, admins).Some?
    ensures var first := RegDecision(admins, users, events, regs, caller, data, approve);
      var second := RegDecision(admins, users, events, first.regs, caller2, data, approve2);
      second.answer == RegAlreadyProcessed && second.notices == [] && second.regs == first.regs
  {
  }

  /**
   * A decision on the request at the head of the queue moves the queue on: the screen shown
   * next is never a request of the same pair.
   */
  lemma DecisionMovesQueue(admins: seq<Admin>, users: seq<User>, events: seq<Event>, regs: seq<Registration>,
                           caller: Option<int>, data: string, approve: bool, y: Registration)
    requires RegDecision(admins, users, events, regs, caller, data, approve).answer == RegDone
    requires ReadCallback(data, 4, [2, 3]).Fields?
    requires IsPair(y, ReadCallback(data, 4, [2, 3]).values[0], ReadCallback(data, 4, [2, 3]).values[1])
    ensures RegDecision(admins, users, events, regs, caller, data, approve).shown != Some(Request(y))
  {
    var r := RegDecision(admins, users, events, regs, caller, data, approve);
    var head := NextRegScreen(r.regs);
    if head.Request? {
      var i :| 0 <= i < |r.regs| && r.regs[i] == head.reg &&
               (forall j :: 0 <= j < i ==> r.regs[j].status != RegPending);
      assert r.regs[i] in r.regs;
    }
  }

  /** `skip_reg_mod_handler`: nothing changes and the same queue head is shown again. */
  function RegSkip(admins: seq<Admin>, regs: seq<Registration>, caller: Option<int>): (r: RegStep)
    ensures r.regs == regs && r.notices == []
    ensures CheckAccessById(caller, admins).None? ==> r.answer == RegNoAccess && r.shown.None?
    ensures CheckAccessById(caller, admins).Some? ==> r.answer == RegSkipped && r.shown == Some(NextRegScreen(regs))
  {
    if CheckAccessById(caller, admins).None? then RegStep(RegNoAccess, [], None, regs)
    else RegStep(RegSkipped, [], Some(NextRegScreen(regs)), regs)
  }

  /** The two decision handlers on the store itself. */
  method RegDecisionHandler(db: FDataBase, caller: Option<int>, data: string, approve: bool)
    returns (answer: RegAnswer, notices: seq<Notice>, shown: Option<RegScreen>)
    modifies db
    ensures var r := RegDecision(old(db.admins), old(db.users), old(db.events), old(db.registrations),
                                 caller, data, approve);
      answer == r.answer && notices == r.notices && shown == r.shown && db.registrations == r.regs
    ensures db.events == old(db.events) && db.nextEventId == old(db.nextEventId)
    ensures db.admins == old(db.admins) && db.users == old(db.users)
  {
    if CheckAccessById(caller, db.admins).None? {
      return RegNoAccess, [], None;
    }
    var fields := ReadCallback(data, 4, [2, 3]);
    if fields == TooFewParts {
      return RegBadData, [], None;
    }
    if fields == NotAnInteger {
      return RegFailed, [], None;
    }
    var u, e := fields.values[0], fields.values[1];
    var ok;
    if approve {
      ok := db.ApproveRegistration(u, e);
    } else {
      ok := db.RejectRegistration(u, e);
    }
    notices := [];
    if ok {
      var user, event := GetUserById(db.users, u), GetEventById(db.events, e);
      if user.Some? && event.Some? {
        notices := [if approve then Confirmed(user.value.telegramId, e) else Refused(user.value.telegramId, e)];
      }
      answer := RegDone;
    } else {
      answer := RegAlreadyProcessed;
    }
    shown := Some(NextRegScreen(db.registrations));
  }

  // ================================================================ event moderation

  /** What the event-moderation screen shows: nothing left, or one event with its page counter. */
  datatype ModScreen = AllReviewed | Moderate(event: Event, page: int, totalPages: int)

  /**
   * `show_moderation_page(page)`: the event on page `page` of the moderation queue, one per
   * page, with `total_pages = max(1, count)`; a page past the end reports "all reviewed".
   */
  function ShowModerationPage(events: seq<Event>, page: int): (r: ModScreen)
    ensures r.Moderate? ==> r.event in events && InModeration(r.event) && r.page == page
    ensures r.Moderate? ==> r.totalPages == |ModerationQueue(events)|
    ensures page >= 0 ==> (r.Moderate? <==> page < |ModerationQueue(events)|)
    ensures page >= 0 && r.Moderate? ==> r.event == ModerationQueue(events)[page]
  {
    var queue := ModerationQueue(events);
    var shown := GetPendingEventsPaginated(events, page, 1);
    var total := GetTotalPendingEventsCount(events);
    var totalPages := if total > 1 then total else 1;
    PageStartIsProduct(page, 1);
    if shown == [] then AllReviewed
    else
      assert shown[0] in queue by {
        if page >= 0 {
          assert shown[0] == queue[page];
        } else {
          assert shown == queue[..|shown|];
        }
      }
      Moderate(shown[0], page, totalPages)
  }

  /** In a table with increasing ids, the head of the moderation queue is its oldest event. */
  lemma ModerationHeadIsOldest(events: seq<Event>)
    requires IdsIncreasing(events)
    requires ShowModerationPage(events, 0).Moderate?
    ensures forall x :: x in events && InModeration(x) ==> ShowModerationPage(events, 0).event.id <= x.id
  {
    var queue := ModerationQueue(events);
    forall x | x in events && InModeration(x) ensures queue[0].id <= x.id {
      var k :| 0 <= k < |queue| && queue[k] == x;
      assert k == 0 || queue[0].id < queue[k].id;
    }
  }

  /**
   * Once the head of the queue is decided or deleted, the screen shown from page 0 is the
   * event that was second in the queue, or "all reviewed" when there was none: nothing is
   * skipped and nothing is shown twice.
   */
  lemma RemovingHeadShowsNext(events: seq<Event>, after: seq<Event>)
    requires IdsIncreasing(events)
    requires ShowModerationPage(events, 0).Moderate?
    requires var id := ShowModerationPage(events, 0).event.id;
      after == WithStatus(events, id, Approved) || after == WithStatus(events, id, Rejected) ||
      after == Filter(events, IdIsNot(id))
    ensures var queue := ModerationQueue(events);
      ShowModerationPage(after, 0)
        == if |queue| > 1 then Moderate(queue[1], 0, |queue| - 1) else AllReviewed
  {
    var queue := ModerationQueue(events);
    var id := queue[0].id;
    if after == WithStatus(events, id, Approved) {
      DecisionLeavesQueue(events, id, Approved);
    } else if after == WithStatus(events, id, Rejected) {
      DecisionLeavesQueue(events, id, Rejected);
    } else {
      DeletionLeavesQueue(events, id);
    }
    HeadRemoved(queue);
    QueueShownFromStart(after, queue[1..]);
  }

  /** Dropping the head's id from an id-increasing sequence drops exactly the head. */
  lemma HeadRemoved(queue: seq<Event>)
    requires IdsIncreasing(queue) && queue != []
    ensures Filter(queue, IdIsNot(queue[0].id)) == queue[1..]
  {
    var rest := queue[1..];
    assert queue == [queue[0]] + rest;
    TailIncreasing(queue);
    FilterAll(rest, IdIsNot(queue[0].id));
    FilterCons(queue[0], rest, IdIsNot(queue[0].id));
  }

  lemma QueueShownFromStart(events: seq<Event>, queue: seq<Event>)
    requires ModerationQueue(events) == queue
    ensures ShowModerationPage(events, 0) == if |queue| > 0 then Moderate(queue[0], 0, |queue|) else AllReviewed
  {
  }

  /** Which moderation button a callback comes from. */
  datatype ModAction = TurnPage | ApproveEvent | RejectEvent | DeleteEvent | SkipEvent

  /** What an event-moderation handler answers the moderator. */
  datatype ModAnswer = ModNoAccess | ModBadData | ModFailed | ModTurned | ModApproved | ModRejected
                     | ModDeleted | ModNotFound | ModSkipped

  /** A moderation handler's answer, the screen it shows next and the new events table. */
  datatype ModStep = ModStep(answer: ModAnswer, shown: Option<ModScreen>, events: seq<Event>)

  /**
   * `mod_prev_handler`/`mod_next_handler` (`TurnPage`, the page from `parts[2]`),
   * `approve_event_handler`, `reject_event_handler` and `delete_event_handler` (the id from
   * `parts[2]`) and `skip_event_handler`. Every decision, deletion or skip is followed by page 0,
   * the head of the queue; a status update does not check that the id exists, and a deletion
   * of a missing event changes nothing and shows nothing.
   */
  function ModerationStep(admins: seq<Admin>, events: seq<Event>, caller: Option<int>, action: ModAction,
                          data: string): (r: ModStep)
    ensures CheckAccessById(caller, admins).None? ==> r == ModStep(ModNoAccess, None, events)
    ensures r.answer in {ModApproved, ModRejected, ModDeleted, ModSkipped} ==> r.shown == Some(ShowModerationPage(r.events, 0))
    ensures r.events != events ==> action in {ApproveEvent, RejectEvent, DeleteEvent} && ReadCallback(data, 3, [2]).Fields?
    ensures action == SkipEvent && CheckAccessById(caller, admins).Some? ==> r == ModStep(ModSkipped, Some(ShowModerationPage(events, 0)), events)
    ensures action != SkipEvent && CheckAccessById(caller, admins).Some? && ReadCallback(data, 3, [2]).TooFewParts? ==>
              r == ModStep(ModBadData, None, events)
    ensures action != SkipEvent && CheckAccessById(caller, admins).Some? && ReadCallback(data, 3, [2]).NotAnInteger? ==>
              r == ModStep(ModFailed, None, events)
    ensures action != SkipEvent && CheckAccessById(caller, admins).Some? && ReadCallback(data, 3, [2]).Fields? ==>
      var n := ReadCallback(data, 3, [2]).values[0];
      && (action == TurnPage ==> r == ModStep(ModTurned, Some(ShowModerationPage(events, n)), events))
      && (action == ApproveEvent ==> r.answer == ModApproved && r.events == WithStatus(events, n, Approved))
      && (action == RejectEvent ==> r.answer == ModRejected && r.events == WithStatus(events, n, Rejected))
      && (action == DeleteEvent && GetEventById(events, n).Some? ==> r.answer == ModDeleted && r.events == Filter(events, IdIsNot(n)))
      && (action == DeleteEvent && GetEventById(events, n).None? ==> r == ModStep(ModNotFound, None, events))
  {
    if CheckAccessById(caller, admins).None? then ModStep(ModNoAccess, None, events)
    else if action == SkipEvent then ModStep(ModSkipped, Some(ShowModerationPage(events, 0)), events)
    else
      match ReadCallback(data, 3, [2])
      case TooFewParts => ModStep(ModBadData, None, events)
      case NotAnInteger => ModStep(ModFailed, None, events)
      case Fields(v) =>
        var n := v[0];
        match action
        case TurnPage => ModStep(ModTurned, Some(ShowModerationPage(events, n)), events)
        case ApproveEvent =>
          var after := WithStatus(events, n, Approved);
          ModStep(ModApproved, Some(ShowModerationPage(after, 0)), after)
        case RejectEvent =>
          var after := WithStatus(events, n, Rejected);
          ModStep(ModRejected, Some(ShowModerationPage(after, 0)), after)
        case DeleteEvent =>
          if GetEventById(events, n).None? then ModStep(ModNotFound, None, events)
          else
            var after := Filter(events, IdIsNot(n));
            ModStep(ModDeleted, Some(ShowModerationPage(after, 0)), after)
  }

  /** The moderation handlers on the store itself. */
  method ModerationHandler(db: FDataBase, caller: Option<int>, action: ModAction, data: string)
    returns (answer: ModAnswer, shown: Option<ModScreen>)
    requires db.Valid()
    modifies db
    ensures db.Valid()
    ensures var r := ModerationStep(old(db.admins), old(db.events), caller, action, data);
      answer == r.answer && shown == r.shown && db.events == r.events
    ensures db.nextEventId == old(db.nextEventId)
    ensures db.admins == old(db.admins) && db.users == old(db.users) && db.registrations == old(db.registrations)
  {
    if CheckAccessById(caller, db.admins).None? {
      return ModNoAccess, None;
    }
    if action == SkipEvent {
      return ModSkipped, Some(ShowModerationPage(db.events, 0));
    }
    var fields := ReadCallback(data, 3, [2]);
    if fields == TooFewParts {
      return ModBadData, None;
    }
    if fields == NotAnInteger {
      return ModFailed, None;
    }
    var n := fields.values[0];
    match action {
      case TurnPage =>
        answer, shown := ModTurned, Some(ShowModerationPage(db.events, n));
      case ApproveEvent =>
        db.UpdateStatus(n, Approved);
        answer, shown := ModApproved, Some(ShowModerationPage(db.events, 0));
      case RejectEvent =>
        db.UpdateStatus(n, Rejected);
        answer, shown := ModRejected, Some(ShowModerationPage(db.events, 0));
      case DeleteEvent =>
        if GetEventById(db.events, n).None? {
          return ModNotFound, None;
        }
        var _ := db.DeleteEvent(n);
        answer, shown := ModDeleted, Some(ShowModerationPage(db.events, 0));
    }
  }

  // ================================================================ listings and pages

  /** `max(1, (n + per - 1) // per)`: the number of pages of `per` rows that `n` rows fill. */
  function TotalPages(n: nat, per: nat): (r: nat)
    requires per > 0
    ensures r >= 1
    ensures n == 0 ==> r == 1
    ensures n > 0 ==> PageStart(r - 1, per) < n <= PageStart(r, per)
  {
    var pages := (n + per - 1) / per;
    PageStartIsProduct(pages, per);
    PageStartIsProduct(pages - 1, per);
    if pages > 1 then pages else 1
  }

  /** `registrations[page*5 : page*5 + 5]` in Python's slice semantics. */
  function ParticipantsPage(regs: seq<Registration>, page: int): (r: seq<Registration>)
    ensures |r| <= 5
    ensures page >= 0 ==>
      r == regs[Clamp(PageStart(page, 5), |regs|)..Clamp(PageStart(page, 5) + 5, |regs|)]
  {
    var start := PageStart(page, 5);
    assert page >= 0 ==> start >= 0 by {
      if page >= 0 {
        PageStartNonNegative(page, 5);
      }
    }
    PySlice(regs, start, start + 5)
  }

  /**
   * Every participant is on a page the counter admits: registration `i` is on page `i / 5`,
   * below `TotalPages(n, 5)`.
   */
  lemma ParticipantOnItsPage(regs: seq<Registration>, i: nat)
    requires i < |regs|
    ensures i / 5 < TotalPages(|regs|, 5)
    ensures regs[i] in ParticipantsPage(regs, i / 5)
  {
    var p := i / 5;
    PageStartIsProduct(p, 5);
    var total := TotalPages(|regs|, 5);
    PageStartIsProduct(total, 5);
    var page := ParticipantsPage(regs, p);
    var a := PageStart(p, 5);
    assert page == regs[a..Clamp(a + 5, |regs|)];
    assert page[i - a] == regs[i];
  }

  /** Every page the counter admits holds a participant, when there is any. */
  lemma ParticipantPagesNonEmpty(regs: seq<Registration>, page: nat)
    requires |regs| > 0 && page < TotalPages(|regs|, 5)
    ensures ParticipantsPage(regs, page) != []
  {
    var total := TotalPages(|regs|, 5);
    PageStartMonotone(page, total, 5);
    PageStartIsProduct(page, 5);
    PageStartIsProduct(total - 1, 5);
    PageStartIsProduct(total, 5);
  }

  /** What the participants screen of an event shows. */
  datatype ParticipantsScreen = EventMissing | Participants(event: Event, rows: seq<Registration>, page: int, totalPages: nat)

  /** `show_participants_page(event_id, page)`: five registrations of the event per page. */
  function ShowParticipantsPage(events: seq<Event>, regs: seq<Registration>, eventId: int, page: int): (r: ParticipantsScreen)
    ensures r.EventMissing? <==> GetEventById(events, eventId).None?
    ensures r.Participants? ==> r.event.id == eventId && r.event in events && r.page == page
    ensures r.Participants? ==> |r.rows| <= 5 && forall x :: x in r.rows ==> x in regs && x.eventId == eventId
    ensures r.Participants? ==> r.totalPages == TotalPages(|GetEventRegistrations(regs, eventId)|, 5)
    ensures r.Participants? ==> r.rows == ParticipantsPage(GetEventRegistrations(regs, eventId), page)
  {
    var registrations := GetEventRegistrations(regs, eventId);
    match GetEventById(events, eventId)
    case None => EventMissing
    case Some(event) =>
      var rows := ParticipantsPage(registrations, page);
      assert forall x :: x in rows ==> x in registrations by {
        var lo, hi := SliceIndex(PageStart(page, 5), |registrations|), SliceIndex(PageStart(page, 5) + 5, |registrations|);
        forall x | x in rows ensures x in registrations {
          if lo < hi {
            var k :| 0 <= k < |rows| && rows[k] == x;
            assert rows[k] == registrations[lo + k];
          }
        }
      }
      Participants(event, rows, page, TotalPages(|registrations|, 5))
  }

  /** What the all-events list shows. */
  datatype EventsListScreen = NoEvents | EventsList(rows: seq<Event>, page: int, totalPages: nat)

  /** `show_events_list_page(page)`: ten events of the whole table per page. */
  function ShowEventsListPage(events: seq<Event>, page: int): (r: EventsListScreen)
    ensures page >= 0 ==> (r.NoEvents? <==> PageStart(page, 10) >= |events|)
    ensures r.EventsList? ==> |r.rows| <= 10 && r.page == page && r.totalPages == TotalPages(|events|, 10)
    ensures r.EventsList? ==> r.rows == GetAllEventsPaginated(events, page, 10)
  {
    var rows := GetAllEventsPaginated(events, page, 10);
    assert page >= 0 ==> (rows != [] <==> PageStart(page, 10) < |events|) by {
      if page >= 0 {
        PageNonEmptyOf(events, page, 10);
      }
    }
    if rows == [] then NoEvents else EventsList(rows, page, TotalPages(|events|, 10))
  }

  /** Every event is listed on page `i / 10`, below the counter. */
  lemma ListedOnItsPage(events: seq<Event>, i: nat)
    requires i < |events|
    ensures i / 10 < TotalPages(|events|, 10)
    ensures ShowEventsListPage(events, i / 10).EventsList?
    ensures events[i] in ShowEventsListPage(events, i / 10).rows
  {
    RowOnItsPage(events, i, 10);
    PageStartIsProduct(i / 10, 10);
    PageStartIsProduct(TotalPages(|events|, 10), 10);
  }

  // ================================================================ scanning the sources

  /** One candidate from the parser: `raw_event.get('text')` and `raw_event.get('url')`. */
  datatype RawEvent = RawEvent(text: Option<string>, url: Option<string>)

  /**
   * Everything the scan takes from outside the core: `json.loads` and the premium organisers
   * of the classifier, `strptime` for `'%Y-%m-%d %H:%M:%S'` (re-formatted), `json.dumps`, the
   * formatted current time and the insertion time of the rows.
   */
  datatype ScanServices = ScanServices(
    decode: string -> Option<Json>,
    organizers: seq<string>,
    parseDate: string -> Option<string>,
    dumps: Json -> string,
    now: string,
    createdAt: int)

  /** `analysis.get('score', 0)` compared with 80: an int, a bool as 0/1, or a `TypeError`. */
  function ScanScore(fields: map<string, Json>): Option<int>
  {
    if "score" !in fields then Some(0)
    else
      match fields["score"]
      case JInt(n) => Some(n)
      case JBool(b) => Some(if b then 1 else 0)
      case _ => None
  }

  /** `analysis.get(key, default)` for a text column. */
  function ScanText(fields: map<string, Json>, key: string, default: string): Option<string>
  {
    if key !in fields then Some(default)
    else
      match fields[key]
      case JString(t) => Some(t)
      case _ => None
  }

  /** The priority the scan stores. */
  function ScanPriority(score: int): (p: Priority)
    ensures p == High <==> score >= 80
  {
    if score >= 80 then High else Medium
  }

  /**
   * The loop body of `scan_sources` for one candidate and the classifier's `analysis` of it:
   * the row given to `add_new_event`, or `None` when the body raises and the candidate is
   * skipped (an analysis that is not an object, a score that is not a number, a text column
   * that is not a string).
   */
  function ScanRow(raw: RawEvent, analysis: Json, sv: ScanServices): (r: Option<NewEvent>)
    ensures r.Some? ==> analysis.JObject? && ScanScore(analysis.fields) == Some(r.value.score)
    ensures r.Some? ==> r.value.status == New && r.value.requiredRank == 1
    ensures r.Some? ==> (r.value.priority == High <==> r.value.score >= 80)
    ensures r.Some? ==> r.value.description == raw.text.GetOr("") && r.value.url == raw.url.GetOr("")
                        && r.value.aiAnalysis == sv.dumps(analysis)
    ensures r.Some? ==> Some(r.value.title) == ScanText(analysis.fields, "title", "Неизвестно")
                        && Some(r.value.location) == ScanText(analysis.fields, "location", "СПб")
                        && Some(r.value.dateStr) == ScanText(analysis.fields, "date", "Не указана")
    ensures r.Some? ==>
              r.value.eventDatetime == (if "date" in analysis.fields then sv.parseDate(r.value.dateStr).GetOr(sv.now) else sv.now)
    ensures r.None? <==> !analysis.JObject? || ScanScore(analysis.fields).None?
                         || ScanText(analysis.fields, "title", "").None?
                         || ScanText(analysis.fields, "location", "").None?
                         || ScanText(analysis.fields, "date", "").None?
  {
    match analysis
    case JObject(f) =>
      (match ScanScore(f)
       case None => None
       case Some(score) =>
         var title := ScanText(f, "title", "Неизвестно");
         var location := ScanText(f, "location", "СПб");
         var date := ScanText(f, "date", "Не указана");
         if title.None? || location.None? || date.None? then None
         else
           var when := if "date" in f then sv.parseDate(date.value).GetOr(sv.now) else sv.now;
           Some(NewEvent(title.value, raw.text.GetOr(""), location.value, date.value, raw.url.GetOr(""),
                         sv.dumps(analysis), score, ScanPriority(score), 1, when, New)))
    case _ => None
  }

  /** `gigachat.analyze_event(raw_event.get('text', ''))` given the model's reply to that call. */
  function Analysis(raw: RawEvent, reply: Option<string>, sv: ScanServices): Json
  {
    AnalyzeEvent(raw.text.GetOr(""), reply, sv.decode, sv.organizers)
  }

  /** The row one candidate yields, given the model's reply to its classifier call. */
  function CandidateRow(raw: RawEvent, reply: Option<string>, sv: ScanServices): Option<NewEvent>
  {
    ScanRow(raw, Analysis(raw, reply, sv), sv)
  }

  /** The rows the loop of `scan_sources` inserts, in order; `replies[i]` answers candidate `i`. */
  function ScanRows(raws: seq<RawEvent>, replies: seq<Option<string>>, sv: ScanServices): (rows: seq<NewEvent>)
    requires |replies| == |raws|
    ensures |rows| <= |raws|
    ensures forall e :: e in rows ==> IsScannedRow(e)
    decreases |raws|
  {
    if raws == [] then []
    else
      var n := |raws| - 1;
      var row := CandidateRow(raws[n], replies[n], sv);
      CandidateRowIsScanned(raws[n], replies[n], sv);
      ScanRows(raws[..n], replies[..n], sv) + (if row.Some? then [row.value] else [])
  }

  /** What every row a scan inserts looks like: new, rank 1, high priority exactly from score 80. */
  predicate IsScannedRow(e: NewEvent)
  {
    e.status == New && e.requiredRank == 1 && (e.priority == High <==> e.score >= 80)
  }

  /** The row one candidate yields, if any, is new, asks for rank 1 and has the scan's priority. */
  lemma CandidateRowIsScanned(raw: RawEvent, reply: Option<string>, sv: ScanServices)
    ensures CandidateRow(raw, reply, sv).Some? ==> IsScannedRow(CandidateRow(raw, reply, sv).value)
  {
    var r := ScanRow(raw, Analysis(raw, reply, sv), sv);
    assert r.Some? ==> r.value.status == New && r.value.requiredRank == 1 && (r.value.priority == High <==> r.value.score >= 80);
  }

  /**
   * A candidate whose classifier call failed is still stored, as the fallback record says:
   * titled "Не удалось распознать", in "СПб", undated, with score 0 and medium priority.
   */
  lemma FailedCallRow(raw: RawEvent, sv: ScanServices)
    ensures var r := ScanRow(raw, Analysis(raw, None, sv), sv);
      && r.Some? && r.value.title == "Не удалось распознать" && r.value.location == "СПб"
      && r.value.dateStr == "Не указана" && r.value.score == 0 && r.value.priority == Medium
  {
    var a := Analysis(raw, None, sv);
    assert a == Fallback();
    var f := a.fields;
    assert ScanScore(f) == Some(0);
    assert ScanText(f, "title", "Неизвестно") == Some("Не удалось распознать");
    assert ScanText(f, "location", "СПб") == Some("СПб");
    assert ScanText(f, "date", "Не указана") == Some("Не указана");
  }

  /**
   * A boosted candidate (a theme or a premium organiser in its text) that is stored carries a
   * score of at most 100, and for a parsed score of at most 100 it is not lowered.
   */
  lemma BoostedRowScoreCapped(raw: RawEvent, reply: Option<string>, sv: ScanServices)
    requires MentionsTheme(raw.text.GetOr("")) || MentionsPremium(raw.text.GetOr(""), sv.organizers)
    ensures var r := ScanRow(raw, Analysis(raw, reply, sv), sv);
      r.Some? ==> r.value.score <= 100
  {
    AnalyzedScoreCapped(raw.text.GetOr(""), reply, sv.decode, sv.organizers);
  }

  /** The rows as the store keeps them: consecutive ids from `firstId`. */
  function StoredRows(rows: seq<NewEvent>, firstId: nat, createdAt: int): (r: seq<Event>)
    ensures |r| == |rows|
  {
    if rows == [] then []
    else
      var n := |rows| - 1;
      StoredRows(rows[..n], firstId, createdAt) + [Stored(rows[n], firstId + n, createdAt)]
  }

  /** What `scan_sources` reports. */
  datatype ScanOutcome = ScanNoAccess | NothingFound | Processed(count: nat)

  /**
   * `scan_sources`: after the access check and a non-empty parser result, every candidate is
   * analysed and, unless its loop body raises, inserted; `processed_count` counts the inserts.
   */
  method ScanSources(db: FDataBase, caller: Option<int>, raws: seq<RawEvent>, replies: seq<Option<string>>,
                     sv: ScanServices) returns (out: ScanOutcome)
    requires db.Valid() && |replies| == |raws|
    modifies db
    ensures db.Valid()
    ensures CheckAccessById(caller, old(db.admins)).None? ==>
              out == ScanNoAccess && db.events == old(db.events) && db.nextEventId == old(db.nextEventId)
    ensures CheckAccessById(caller, old(db.admins)).Some? && raws == [] ==>
              out == NothingFound && db.events == old(db.events) && db.nextEventId == old(db.nextEventId)
    ensures CheckAccessById(caller, old(db.admins)).Some? && raws != [] ==>
      var rows := ScanRows(raws, replies, sv);
      && out == Processed(|rows|)
      && db.events == old(db.events) + StoredRows(rows, old(db.nextEventId), sv.createdAt)
      && db.nextEventId == old(db.nextEventId) + |rows|
    ensures db.admins == old(db.admins) && db.users == old(db.users) && db.registrations == old(db.registrations)
  {
    if CheckAccessById(caller, db.admins).None? {
      return ScanNoAccess;
    }
    if raws == [] {
      return NothingFound;
    }
    var count := InsertScanned(db, raws, replies, sv);
    out := Processed(count);
  }

  /** The loop of `scan_sources`: analyse each candidate and insert the rows that do not raise. */
  method InsertScanned(db: FDataBase, raws: seq<RawEvent>, replies: seq<Option<string>>, sv: ScanServices)
    returns (processed: nat)
    requires db.Valid() && |replies| == |raws|
    modifies db
    ensures db.Valid()
    ensures processed == |ScanRows(raws, replies, sv)|
    ensures db.events == old(db.events) + StoredRows(ScanRows(raws, replies, sv), old(db.nextEventId), sv.createdAt)
    ensures db.nextEventId == old(db.nextEventId) + processed
    ensures db.admins == old(db.admins) && db.users == old(db.users) && db.registrations == old(db.registrations)
  {
    processed := 0;
    ghost var first, events0 := db.nextEventId, db.events;
    ghost var rows: seq<NewEvent> := [];
    for i := 0 to |raws|
      invariant db.Valid()
      invariant rows == ScanRows(raws[..i], replies[..i], sv)
      invariant processed == |rows|
      invariant db.events == events0 + StoredRows(rows, first, sv.createdAt)
      invariant db.nextEventId == first + processed
      invariant db.admins == old(db.admins) && db.users == old(db.users) && db.registrations == old(db.registrations)
    {
      var row := CandidateRow(raws[i], replies[i], sv);
      ScanRowsStep(raws, replies, sv, i);
      if row.Some? {
        ghost var before, id := db.events, db.nextEventId;
        var _ := db.AddNewEvent(row.value, sv.createdAt);
        StoredRowsAppend(events0, before, rows, row.value, first, id, sv.createdAt);
        rows := rows + [row.value];
        processed := processed + 1;
      }
    }
    assert raws[..|raws|] == raws && replies[..|raws|] == replies;
  }

  /** One more candidate adds its row, if any, at the end. */
  lemma ScanRowsStep(raws: seq<RawEvent>, replies: seq<Option<string>>, sv: ScanServices, i: nat)
    requires |replies| == |raws| && i < |raws|
    ensures var row := CandidateRow(raws[i], replies[i], sv);
      ScanRows(raws[..i + 1], replies[..i + 1], sv)
        == ScanRows(raws[..i], replies[..i], sv) + (if row.Some? then [row.value] else [])
  {
    assert raws[..i + 1][..i] == raws[..i] && replies[..i + 1][..i] == replies[..i];
  }

  /** Inserting one more row extends the stored rows by it, under the next id. */
  lemma StoredRowsAppend(events0: seq<Event>, before: seq<Event>, rows: seq<NewEvent>, row: NewEvent,
                          firstId: nat, id: nat, createdAt: int)
    requires before == events0 + StoredRows(rows, firstId, createdAt) && id == firstId + |rows|
    ensures before + [Stored(row, id, createdAt)] == events0 + StoredRows(rows + [row], firstId, createdAt)
  {
    assert (rows + [row])[..|rows|] == rows;
  }

  // ================================================================ the manual event form

  /**
   * The steps of the "create event" form and what has been typed so far (`None` for a
   * message without text).
   */
  datatype EventForm =
    | NoForm
    | AskTitle
    | AskDescription(title: Option<string>)
    | AskLocation(title: Option<string>, description: Option<string>)
    | AskDate(title: Option<string>, description: Option<string>, location: Option<string>)
    | AskUrl(title: Option<string>, description: Option<string>, location: Option<string>, date: Option<string>)

  /**
   * `create_event_handler`: staff are given the form's first question; anyone else is refused
   * and whatever form was open stays as it was.
   */
  function OpenEventForm(userId: Option<int>, admins: seq<Admin>, form: EventForm): (r: EventForm)
    ensures CheckAccessById(userId, admins).Some? ==> r == AskTitle
    ensures CheckAccessById(userId, admins).None? ==> r == form
  {
    if CheckAccessById(userId, admins).Some? then AskTitle else form
  }

  /** A new admin added with a staff role may open the form at once. */
  lemma AddedAdminOpensForm(admins: seq<Admin>, t: int, username: string, role: string, form: EventForm)
    requires GetAdmin(admins, t).None?
    requires role in StaffRoles
    ensures OpenEventForm(Some(t), admins + [Admin(t, username, role)], form) == AskTitle
  {
    AddedAdminHasAccess(admins, t, username, role);
  }

  /** Python's `value or default` for a stored text. */
  function OrDefault(v: Option<string>, default: string): (r: string)
    ensures v.Some? && v.value != "" ==> r == v.value
    ensures v.None? || v.value == "" ==> r == default
  {
    if v.Some? && v.value != "" then v.value else default
  }

  /**
   * `process_event_url`'s call of `add_new_event`: the typed fields or their defaults
   * ("Без названия" for the title), an empty analysis, score 0, medium priority, rank 1,
   * the current time and status 'pending'.
   */
  function ManualEvent(title: Option<string>, description: Option<string>, location: Option<string>,
                       date: Option<string>, url: Option<string>, now: string): (r: NewEvent)
    ensures r.status == Pending && r.score == 0 && r.priority == Medium && r.requiredRank == 1
    ensures r.aiAnalysis == "{}" && r.eventDatetime == now
    ensures r.title != "" && (title.Some? && title.value != "" ==> r.title == title.value)
    ensures title.None? || title.value == "" ==> r.title == "Без названия"
    ensures r.description == OrDefault(description, "") && r.location == OrDefault(location, "")
    ensures r.dateStr == OrDefault(date, "") && r.url == OrDefault(url, "")
  {
    NewEvent(OrDefault(title, "Без названия"), OrDefault(description, ""), OrDefault(location, ""),
             OrDefault(date, ""), OrDefault(url, ""), "{}", 0, Medium, 1, now, Pending)
  }

  /**
   * One message to the form (`process_event_title` … `process_event_url`): the cancel button
   * closes it at every step; otherwise the text is kept and the next step asked for, and the
   * last step yields the row to insert.
   */
  function FormStep(form: EventForm, text: Option<string>, now: string): (r: (EventForm, Option<NewEvent>))
    ensures form != NoForm && text == Some(CancelButton) ==> r == (NoForm, None)
    ensures r.1.Some? ==> form.AskUrl? && text != Some(CancelButton) && r.0 == NoForm
    ensures r.1.Some? ==> r.1.value == ManualEvent(form.title, form.description, form.location, form.date, text, now)
    ensures form.AskUrl? && text != Some(CancelButton) ==> r.1.Some?
  {
    if form == NoForm then (NoForm, None)
    else if text == Some(CancelButton) then (NoForm, None)
    else
      match form
      case AskTitle => (AskDescription(text), None)
      case AskDescription(t) => (AskLocation(t, text), None)
      case AskLocation(t, d) => (AskDate(t, d, text), None)
      case AskDate(t, d, l) => (AskUrl(t, d, l, text), None)
      case AskUrl(t, d, l, dt) => (NoForm, Some(ManualEvent(t, d, l, dt, text, now)))
  }

  /** Five answers that are not the cancel button fill the form in order and yield the event. */
  lemma FormFillsInOrder(t1: Option<string>, t2: Option<string>, t3: Option<string>, t4: Option<string>,
                         t5: Option<string>, now: string)
    requires CancelButton !in {t1.GetOr(""), t2.GetOr(""), t3.GetOr(""), t4.GetOr(""), t5.GetOr("")}
    ensures var s1 := FormStep(AskTitle, t1, now).0;
      var s2 := FormStep(s1, t2, now).0;
      var s3 := FormStep(s2, t3, now).0;
      var s4 := FormStep(s3, t4, now).0;
      FormStep(s4, t5, now) == (NoForm, Some(ManualEvent(t1, t2, t3, t4, t5, now)))
  {
  }

  /** `process_event_url` on the store: the form's last step inserts its row. */
  method SubmitEventForm(db: FDataBase, form: EventForm, text: Option<string>, now: string, createdAt: int)
    returns (next: EventForm)
    requires db.Valid()
    modifies db
    ensures db.Valid()
    ensures next == FormStep(form, text, now).0
    ensures FormStep(form, text, now).1.None? ==> db.events == old(db.events) && db.nextEventId == old(db.nextEventId)
    ensures FormStep(form, text, now).1.Some? ==>
              db.events == old(db.events) + [Stored(FormStep(form, text, now).1.value, old(db.nextEventId), createdAt)]
              && db.nextEventId == old(db.nextEventId) + 1
    ensures db.admins == old(db.admins) && db.users == old(db.users) && db.registrations == old(db.registrations)
  {
    var step := FormStep(form, text, now);
    next := step.0;
    if step.1.Some? {
      var _ := db.AddNewEvent(step.1.value, createdAt);
    }
  }
}
