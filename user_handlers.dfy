/**
 * What employees do with events: open an event's card, ask to be registered (the request goes
 * to their manager or is approved at once), search by keywords and look at their calendar.
 */
module UserHandlers {
  import opened Wrappers
  import opened Strings
  import opened Records
  import opened Database
  import opened AdminHandlers

  // ================================================================ the approved-user gate

  /** `user = db.get_user(tid)` when it exists and its status is 'approved'; every handler here starts so. */
  function ApprovedUser(users: seq<User>, telegramId: int): (r: Option<User>)
    ensures r.Some? ==> r.value in users && r.value.telegramId == telegramId && r.value.status == "approved"
    ensures r.None? <==> GetUser(users, telegramId).None? || GetUser(users, telegramId).value.status != "approved"
  {
    match GetUser(users, telegramId)
    case None => None
    case Some(u) => if u.status == "approved" then Some(u) else None
  }

  // ================================================================ an event's card and a request

  /** What a user is told when the event card or the request does not go ahead, or how a request ends. */
  datatype RequestAnswer =
    | NotApproved
    | Crashed
    | NoSuchEvent
    | RankTooLow
    | AlreadyRequested
    | AlreadyRegistered
    | RequestFailed
    | SentToManager(managerId: int)
    | AutoApproved

  /** The outcome of the checks both handlers run before they look at the registrations. */
  datatype Clearance = Blocked(answer: RequestAnswer) | Cleared(user: User, event: Event)

  /**
   * The checks of `event_details_handler` and `request_registration_handler`, in order: an
   * approved user, `int(data.split("_")[2])` (a missing part or a non-integer raises), an
   * existing event, and a required rank (99 when absent) no higher than the user's rank.
   */
  function Clear(users: seq<User>, events: seq<Event>, caller: int, data: string, userRank: int): (c: Clearance)
    ensures c == Blocked(NotApproved) <==> ApprovedUser(users, caller).None?
    ensures c == Blocked(Crashed) <==> ApprovedUser(users, caller).Some? && !ReadCallback(data, 3, [2]).Fields?
    ensures c == Blocked(NoSuchEvent) <==>
              ApprovedUser(users, caller).Some? && ReadCallback(data, 3, [2]).Fields?
              && GetEventById(events, ReadCallback(data, 3, [2]).values[0]).None?
    ensures c == Blocked(RankTooLow) ==>
              var e := GetEventById(events, ReadCallback(data, 3, [2]).values[0]);
              e.Some? && RequiredRank(e.value) > userRank
    ensures c.Cleared? ==>
              && Some(c.user) == ApprovedUser(users, caller)
              && ReadCallback(data, 3, [2]).Fields?
              && Some(c.event) == GetEventById(events, ReadCallback(data, 3, [2]).values[0])
              && RequiredRank(c.event) <= userRank
    ensures c.Blocked? ==> c.answer in {NotApproved, Crashed, NoSuchEvent, RankTooLow}
  {
    match ApprovedUser(users, caller)
    case None => Blocked(NotApproved)
    case Some(u) =>
      var fields := ReadCallback(data, 3, [2]);
      if !fields.Fields? then Blocked(Crashed)
      else
        match GetEventById(events, fields.values[0])
        case None => Blocked(NoSuchEvent)
        case Some(e) => if RequiredRank(e) > userRank then Blocked(RankTooLow) else Cleared(u, e)
  }

  /**
   * The status of the first of the user's registration rows that is for `eventId`, or `None`
   * (the `"none"` of the card).
   */
  function FirstRegistration(rows: seq<Registration>, eventId: int): (r: Option<RegStatus>)
    ensures r.None? <==> forall x :: x in rows ==> x.eventId != eventId
    ensures r.Some? ==> exists i :: 0 <= i < |rows| && rows[i].eventId == eventId && rows[i].status == r.value
                                    && forall j :: 0 <= j < i ==> rows[j].eventId != eventId
  {
    if rows == [] then None
    else if rows[0].eventId == eventId then Some(rows[0].status)
    else
      var r := FirstRegistration(rows[1..], eventId);
      assert rows == [rows[0]] + rows[1..];
      assert r.Some? ==> exists i :: 0 <= i < |rows| && rows[i].eventId == eventId && rows[i].status == r.value
                                    && forall j :: 0 <= j < i ==> rows[j].eventId != eventId by {
        if r.Some? {
          var i :| 0 <= i < |rows[1..]| && rows[1..][i].eventId == eventId && rows[1..][i].status == r.value
                   && forall j :: 0 <= j < i ==> rows[1..][j].eventId != eventId;
          assert forall j :: 0 <= j < i + 1 ==> rows[j].eventId != eventId by {
            forall j | 0 <= j < i + 1 ensures rows[j].eventId != eventId {
              if j > 0 {
                assert rows[j] == rows[1..][j - 1];
              }
            }
          }
          assert rows[i + 1] == rows[1..][i];
        }
      }
      r
  }

  /** The user's rows say nothing about `eventId` exactly when the user has no row for the pair. */
  lemma FirstRegistrationOfUser(regs: seq<Registration>, userId: int, eventId: int)
    ensures FirstRegistration(GetUserEvents(regs, userId), eventId).None? <==> !HasPair(regs, userId, eventId)
  {
    var rows := GetUserEvents(regs, userId);
    if HasPair(regs, userId, eventId) {
      var x :| x in regs && IsPair(x, userId, eventId);
      assert x in rows;
    }
  }

  /** The first registration from row `i` on is row `i`'s status when it is for the event, else the first from `i + 1` on. */
  lemma FirstRegistrationFrom(rows: seq<Registration>, eventId: int, i: nat)
    requires i < |rows|
    ensures FirstRegistration(rows[i..], eventId)
            == if rows[i].eventId == eventId then Some(rows[i].status) else FirstRegistration(rows[i + 1..], eventId)
  {
    assert rows[i..][0] == rows[i];
    assert rows[i..][1..] == rows[i + 1..];
  }

  /**
   * `for e in user_events: if e['id'] == event_id: status = e['status']; break`, the search both
   * handlers make through the user's registrations.
   */
  method FindRegistration(rows: seq<Registration>, eventId: int) returns (status: Option<RegStatus>)
    ensures status == FirstRegistration(rows, eventId)
  {
    status := None;
    var i := 0;
    while i < |rows|
      invariant 0 <= i <= |rows|
      invariant FirstRegistration(rows, eventId) == FirstRegistration(rows[i..], eventId)
    {
      FirstRegistrationFrom(rows, eventId, i);
      if rows[i].eventId == eventId {
        status := Some(rows[i].status);
        break;
      }
      i := i + 1;
    }
    if i == |rows| {
      assert rows[i..] == [];
    }
  }

  /** What the event card shows, or why it is refused. */
  datatype Card = CardRefused(answer: RequestAnswer) | EventCard(event: Event, registration: Option<RegStatus>)

  /** `event_details_handler`: the card of a cleared event, with the user's registration status. */
  function EventDetails(users: seq<User>, events: seq<Event>, regs: seq<Registration>, caller: int,
                        data: string, userRank: int): (r: Card)
    ensures r.CardRefused? <==> Clear(users, events, caller, data, userRank).Blocked?
    ensures r.EventCard? ==> var c := Clear(users, events, caller, data, userRank);
      && r.event == c.event
      && (r.registration.None? <==> !HasPair(regs, c.user.id, c.event.id))
      && (r.registration.Some? ==> exists x :: x in regs && IsPair(x, c.user.id, c.event.id) && x.status == r.registration.value)
  {
    match Clear(users, events, caller, data, userRank)
    case Blocked(a) => CardRefused(a)
    case Cleared(u, e) =>
      var rows := GetUserEvents(regs, u.id);
      var status := FirstRegistration(rows, e.id);
      FirstRegistrationOfUser(regs, u.id, e.id);
      assert status.Some? ==> exists x :: x in regs && IsPair(x, u.id, e.id) && x.status == status.value by {
        if status.Some? {
          var i :| 0 <= i < |rows| && rows[i].eventId == e.id && rows[i].status == status.value
                   && forall j :: 0 <= j < i ==> rows[j].eventId != e.id;
          assert rows[i] in rows;
        }
      }
      EventCard(e, status)
  }

  /** What the request handler learns from outside the store: the user's rank, their manager, whether sending failed. */
  datatype RequestContext = RequestContext(userRank: int, manager: Option<int>, sendFails: bool)

  /**
   * `request_registration_handler`: after the checks, an existing row for the pair (whatever
   * its status) stops the request; otherwise a pending row is added and goes to the manager,
   * or is approved at once when there is no manager, the manager is the user, or sending the
   * manager the request raises.
   */
  function RequestRegistration(users: seq<User>, events: seq<Event>, regs: seq<Registration>, caller: int,
                               data: string, ctx: RequestContext): (r: (RequestAnswer, seq<Registration>))
    ensures r.0 != RequestFailed
    ensures Clear(users, events, caller, data, ctx.userRank).Blocked? ==>
              r == (Clear(users, events, caller, data, ctx.userRank).answer, regs)
    ensures Clear(users, events, caller, data, ctx.userRank).Cleared? ==>
      var c := Clear(users, events, caller, data, ctx.userRank);
      var u, e := c.user.id, c.event.id;
      var added := regs + [Registration(u, e, RegPending)];
      var notify := ctx.manager.Some? && ctx.manager.value != c.user.telegramId && !ctx.sendFails;
      && (HasPair(regs, u, e) ==> r.1 == regs && r.0 in {AlreadyRequested, AlreadyRegistered})
      && (HasPair(regs, u, e) ==> (r.0 == AlreadyRequested <==> FirstRegistration(GetUserEvents(regs, u), e) == Some(RegPending)))
      && (!HasPair(regs, u, e) && notify ==> r == (SentToManager(ctx.manager.value), added))
      && (!HasPair(regs, u, e) && !notify ==> r == (AutoApproved, ApprovePair(added, u, e)))
  {
    match Clear(users, events, caller, data, ctx.userRank)
    case Blocked(a) => (a, regs)
    case Cleared(user, event) =>
      var u, e := user.id, event.id;
      FirstRegistrationOfUser(regs, u, e);
      match FirstRegistration(GetUserEvents(regs, u), e)
      case Some(RegPending) => (AlreadyRequested, regs)
      case Some(RegApproved) => (AlreadyRegistered, regs)
      case None =>
        if HasPair(regs, u, e) then (RequestFailed, regs)
        else
          var added := regs + [Registration(u, e, RegPending)];
          if ctx.manager.Some? && ctx.manager.value != user.telegramId && !ctx.sendFails then
            (SentToManager(ctx.manager.value), added)
          else (AutoApproved, ApprovePair(added, u, e))
  }

  /** A request that goes ahead leaves the pair registered: pending with the manager, or approved. */
  lemma RequestRegisters(users: seq<User>, events: seq<Event>, regs: seq<Registration>, caller: int,
                         data: string, ctx: RequestContext)
    requires RequestRegistration(users, events, regs, caller, data, ctx).0 in {AutoApproved, SentToManager(ctx.manager.GetOr(0))}
    ensures var c := Clear(users, events, caller, data, ctx.userRank);
      var r := RequestRegistration(users, events, regs, caller, data, ctx).1;
      && c.Cleared? && !HasPair(regs, c.user.id, c.event.id) && HasPair(r, c.user.id, c.event.id)
      && (HasPendingPair(r, c.user.id, c.event.id) <==> r == regs + [Registration(c.user.id, c.event.id, RegPending)])
  {
    var c := Clear(users, events, caller, data, ctx.userRank);
    var u, e := c.user.id, c.event.id;
    var added := regs + [Registration(u, e, RegPending)];
    var r := RequestRegistration(users, events, regs, caller, data, ctx).1;
    assert added[|regs|] in added && IsPair(added[|regs|], u, e);
    ApprovePairEffect(added, u, e);
    if r == added {
      assert HasPendingPair(r, u, e) by {
        assert added[|regs|] in r;
      }
    }
  }

  /** Asking twice changes nothing the second time: the first request's row blocks it. */
  lemma SecondRequestIsRefused(users: seq<User>, events: seq<Event>, regs: seq<Registration>, caller: int,
                               data: string, ctx: RequestContext, ctx2: RequestContext)
    requires ctx2.userRank == ctx.userRank
    requires RequestRegistration(users, events, regs, caller, data, ctx).0 in {AutoApproved, SentToManager(ctx.manager.GetOr(0))}
    ensures var regs1 := RequestRegistration(users, events, regs, caller, data, ctx).1;
      var again := RequestRegistration(users, events, regs1, caller, data, ctx2);
      again.1 == regs1 && again.0 in {AlreadyRequested, AlreadyRegistered}
  {
    RequestRegisters(users, events, regs, caller, data, ctx);
  }

  /** `request_registration_handler` on the store: the search, then `add_user_event` and `approve_registration`. */
  method RequestRegistrationHandler(db: FDataBase, caller: int, data: string, ctx: RequestContext)
    returns (answer: RequestAnswer)
    requires db.Valid()
    modifies db
    ensures db.Valid()
    ensures (answer, db.registrations) == RequestRegistration(old(db.users), old(db.events), old(db.registrations), caller, data, ctx)
    ensures db.events == old(db.events) && db.nextEventId == old(db.nextEventId)
    ensures db.admins == old(db.admins) && db.users == old(db.users)
  {
    var c := Clear(db.users, db.events, caller, data, ctx.userRank);
    if c.Blocked? {
      return c.answer;
    }
    var u, e := c.user.id, c.event.id;
    var existing := FindRegistration(GetUserEvents(db.registrations, u), e);
    if existing.Some? {
      return if existing.value == RegPending then AlreadyRequested else AlreadyRegistered;
    }
    FirstRegistrationOfUser(db.registrations, u, e);
    ghost var before := db.registrations;
    var ok := db.AddUserEvent(u, e);
    if !ok {
      return RequestFailed;
    }
    if ctx.manager.Some? && ctx.manager.value != c.user.telegramId && !ctx.sendFails {
      answer := SentToManager(ctx.manager.value);
    } else {
      assert db.registrations[|before|] in db.registrations;
      assert HasPendingPair(db.registrations, u, e);
      var _ := db.ApproveRegistration(u, e);
      answer := AutoApproved;
    }
  }

  // ================================================================ search

  /** `[k.strip() for k in pieces if k.strip()]`. */
  function KeepKeywords(pieces: seq<string>): (ks: seq<string>)
    ensures |ks| <= |pieces|
    ensures forall k :: k in ks ==> k != "" && Unpadded(k)
    ensures forall k :: k in ks ==> exists p :: p in pieces && k == Strip(p)
  {
    if pieces == [] then []
    else
      var k := Strip(pieces[0]);
      var rest := KeepKeywords(pieces[1..]);
      assert forall k :: k in rest ==> exists p :: p in pieces && k == Strip(p) by {
        forall k | k in rest ensures exists p :: p in pieces && k == Strip(p) {
          var p :| p in pieces[1..] && k == Strip(p);
          assert p in pieces;
        }
      }
      if k != "" then
        assert pieces[0] in pieces;
        [k] + rest
      else rest
  }

  /** `message.text.strip().split(',')`, stripped, empties dropped, order kept. */
  function Keywords(text: string): (ks: seq<string>)
    ensures forall k :: k in ks ==> k != "" && Unpadded(k) && ',' !in k
  {
    var pieces := Split(Strip(text), ',');
    var ks := KeepKeywords(pieces);
    assert forall k :: k in ks ==> ',' !in k by {
      forall k | k in ks ensures ',' !in k {
        var p :| p in pieces && k == Strip(p);
        assert forall c :: c in Strip(p) ==> c in p;
      }
    }
    ks
  }

  /** Joining clean keywords with commas and reading them back gives the same keywords. */
  lemma KeywordsRoundTrip(ks: seq<string>)
    requires ks != []
    requires forall i :: 0 <= i < |ks| ==> ks[i] != "" && Unpadded(ks[i]) && ',' !in ks[i]
    ensures Keywords(Join(ks, ',')) == ks
  {
    var s := Join(ks, ',');
    JoinUnpadded(ks);
    StripUnpadded(s);
    SplitJoin(ks, ',');
    KeepCleanKeywords(ks);
  }

  /** Text joined from unpadded non-empty pieces starts and ends with a piece's own characters. */
  lemma {:induction false} JoinUnpadded(ks: seq<string>)
    requires ks != []
    requires forall i :: 0 <= i < |ks| ==> ks[i] != "" && Unpadded(ks[i])
    ensures var s := Join(ks, ',');
      s != [] && s[0] == ks[0][0] && s[|s| - 1] == ks[|ks| - 1][|ks[|ks| - 1]| - 1] && Unpadded(s)
    decreases |ks|
  {
    if |ks| > 1 {
      JoinUnpadded(ks[1..]);
      var s := Join(ks, ',');
      assert s == ks[0] + [','] + Join(ks[1..], ',');
    }
  }

  lemma {:induction false} KeepCleanKeywords(ks: seq<string>)
    requires forall i :: 0 <= i < |ks| ==> ks[i] != "" && Unpadded(ks[i])
    ensures KeepKeywords(ks) == ks
  {
    if ks != [] {
      StripUnpadded(ks[0]);
      KeepCleanKeywords(ks[1..]);
      assert ks == [ks[0]] + ks[1..];
    }
  }

  /** One more piece adds its strip at the end exactly when that strip is not empty: order is kept. */
  lemma {:induction false} KeepKeywordsAppend(pieces: seq<string>, p: string)
    ensures KeepKeywords(pieces + [p]) == KeepKeywords(pieces) + (if Strip(p) != "" then [Strip(p)] else [])
    decreases |pieces|
  {
    if pieces == [] {
      assert [] + [p] == [p] && [p][1..] == [];
    } else {
      assert (pieces + [p])[0] == pieces[0];
      assert (pieces + [p])[1..] == pieces[1..] + [p];
      KeepKeywordsAppend(pieces[1..], p);
    }
  }

  /** Replacing one piece by another with the same strip gives the same keywords. */
  lemma {:induction false} KeepKeywordsUpdate(ps: seq<string>, i: nat, x: string)
    requires i < |ps| && Strip(x) == Strip(ps[i])
    ensures KeepKeywords(ps[i := x]) == KeepKeywords(ps)
    decreases i
  {
    if i == 0 {
      assert ps[0 := x][1..] == ps[1..];
    } else {
      assert ps[i := x][1..] == ps[1..][i - 1 := x];
      KeepKeywordsUpdate(ps[1..], i - 1, x);
    }
  }

  /** Cutting the first and the last piece without changing their strips gives the same keywords. */
  lemma KeepKeywordsTrimmed(ps: seq<string>, a: nat, k: nat)
    requires |ps| >= 2 && a <= |ps[0]| && k <= |ps[|ps| - 1]|
    requires Strip(ps[0][a..]) == Strip(ps[0])
    requires Strip(ps[|ps| - 1][..|ps[|ps| - 1]| - k]) == Strip(ps[|ps| - 1])
    ensures KeepKeywords(Trimmed(ps, a, k)) == KeepKeywords(ps)
  {
    var n := |ps|;
    var x, y := ps[0][a..], ps[n - 1][..|ps[n - 1]| - k];
    var q0 := ps[0 := x];
    assert q0[n - 1] == ps[n - 1];
    assert Trimmed(ps, a, k) == q0[n - 1 := y];
    KeepKeywordsUpdate(ps, 0, x);
    KeepKeywordsUpdate(q0, n - 1, y);
  }

  /** Leading whitespace of a text of several pieces lies inside its first piece. */
  lemma StripFrontInFirst(text: string, ps: seq<string>)
    requires |ps| >= 2 && Join(ps, ',') == text
    ensures StripStart(text) <= |ps[0]| && Strip(ps[0][StripStart(text)..]) == Strip(ps[0])
  {
    var lo := StripStart(text);
    var p0 := ps[0];
    assert text == p0 + [','] + Join(ps[1..], ',');
    assert text[|p0|] == ',';
    StripKeepsNonSpace(text, |p0|);
    assert forall j :: 0 <= j < lo ==> p0[j] == text[j];
    CutFront(p0, ',', lo);
  }

  /** Trailing whitespace of a text lies after its last comma, inside the last piece `pl`. */
  lemma StripBackInLast(text: string, pl: string, k: int)
    requires |pl| < |text| && text[|text| - |pl| - 1] == ',' && pl == text[|text| - |pl|..]
    requires k == |text| - StripStart(text) - |Strip(text)|
    ensures 0 <= k <= |pl|
    ensures Strip(pl[..|pl| - k]) == Strip(pl)
  {
    var m := |text| - |pl|;
    StripKeepsNonSpace(text, m - 1);
    var e := |pl| - k;
    forall j | e <= j < |pl| ensures IsSpace(pl[j]) {
      assert pl[j] == text[m + j];
    }
    CutBack(pl, ',', e);
  }

  /** A text of one piece: its strip is its only piece. */
  lemma KeywordsOfOnePiece(text: string)
    requires |Split(text, ',')| == 1
    ensures Keywords(text) == KeepKeywords(Split(text, ','))
  {
    var ps := Split(text, ',');
    var r := Strip(text);
    assert text == ps[0];
    assert ',' !in r by {
      assert forall c :: c in r ==> c in text;
    }
    SplitJoin([r], ',');
    StripIdempotent(text);
    assert ps[0 := r] == [r];
    KeepKeywordsUpdate(ps, 0, r);
  }

  /** The strip of a text made of several pieces is the join of its cut pieces. */
  lemma StripIsTrimmed(text: string, ps: seq<string>, lo: nat, k: nat)
    requires |ps| >= 2 && Join(ps, ',') == text
    requires lo <= |ps[0]| && k <= |ps[|ps| - 1]|
    requires lo == StripStart(text) && k == |text| - lo - |Strip(text)|
    ensures Join(Trimmed(ps, lo, k), ',') == Strip(text)
  {
    JoinTrimmed(ps, ',', lo, k);
    assert |text| - k == lo + |Strip(text)|;
  }

  /**
   * Stripping a text made of several pieces cuts `lo` characters off the first piece and `k`
   * off the last, whitespace only, so neither piece's strip changes.
   */
  lemma StripOfPieces(text: string, ps: seq<string>, lo: nat, k: int)
    requires |ps| >= 2 && Join(ps, ',') == text
    requires lo == StripStart(text) && k == |text| - lo - |Strip(text)|
    ensures lo <= |ps[0]| && Strip(ps[0][lo..]) == Strip(ps[0])
    ensures 0 <= k <= |ps[|ps| - 1]| && Strip(ps[|ps| - 1][..|ps[|ps| - 1]| - k]) == Strip(ps[|ps| - 1])
    ensures Join(Trimmed(ps, lo, k), ',') == Strip(text)
  {
    var pl := ps[|ps| - 1];
    StripFrontInFirst(text, ps);
    assert text[|text| - |pl| - 1] == ',' && pl == text[|text| - |pl|..] by {
      JoinSnoc(ps, ',');
    }
    StripBackInLast(text, pl, k);
    StripIsTrimmed(text, ps, lo, k);
  }

  /**
   * A text made of several comma-free pieces: splitting its strip gives the pieces with the
   * first one's leading and the last one's trailing whitespace cut, so the keywords are those
   * of the pieces themselves.
   */
  lemma KeywordsOfManyPieces(text: string, ps: seq<string>)
    requires |ps| >= 2 && Join(ps, ',') == text
    requires forall i :: 0 <= i < |ps| ==> ',' !in ps[i]
    ensures Keywords(text) == KeepKeywords(ps)
  {
    var lo := StripStart(text);
    var k := |text| - lo - |Strip(text)|;
    StripOfPieces(text, ps, lo, k);
    TrimmedKeepsOut(ps, ',', lo, k);
    SplitJoin(Trimmed(ps, lo, k), ',');
    KeepKeywordsTrimmed(ps, lo, k);
  }

  /**
   * Stripping the whole message before splitting it changes nothing: the keywords are the
   * non-empty strips of the pieces of `text.split(',')`, in order.
   */
  lemma KeywordsOfPieces(text: string)
    ensures Keywords(text) == KeepKeywords(Split(text, ','))
  {
    var ps := Split(text, ',');
    if |ps| == 1 {
      KeywordsOfOnePiece(text);
    } else {
      KeywordsOfManyPieces(text, ps);
    }
  }

  /** Keywords typed between commas are read back as their non-empty strips, in order, padding included. */
  lemma KeywordsOfJoin(pieces: seq<string>)
    requires pieces != []
    requires forall i :: 0 <= i < |pieces| ==> ',' !in pieces[i]
    ensures Keywords(Join(pieces, ',')) == KeepKeywords(pieces)
  {
    KeywordsOfPieces(Join(pieces, ','));
    SplitJoin(pieces, ',');
  }

  /**
   * What a message sent to the search prompt leads to. `SearchRaised(keywords)` is the call
   * `search_events_by_keywords(user['telegram_id'], keywords, limit=20)`: the store's method
   * takes `(keywords, limit)`, so the extra positional argument makes `limit` given twice and
   * the call raises `TypeError` before the prompt is cleared.
   */
  datatype SearchAnswer = SearchCancelled | SearchCrashed | NeedKeyword | SearchNotApproved | SearchRaised(keywords: seq<string>)

  /**
   * `process_search_text`: the cancel button closes the prompt; a message without text raises
   * on `.strip()`; no keyword asks again (the prompt stays open); a user who is not approved is
   * told so and the prompt closes; an approved user's keywords reach the search call, which
   * raises, so the prompt stays open.
   */
  function SearchText(users: seq<User>, caller: int, text: Option<string>): (r: (SearchAnswer, bool))
    ensures r.1 <==> r.0 in {SearchCancelled, SearchNotApproved}
    ensures r.0 == SearchCancelled <==> text == Some(CancelButton)
    ensures r.0.SearchRaised? <==> text.Some? && text.value != CancelButton && Keywords(text.value) != []
                                   && ApprovedUser(users, caller).Some?
    ensures r.0.SearchRaised? ==> r.0.keywords == Keywords(text.value)
    ensures text.Some? && text.value != CancelButton && Keywords(text.value) == [] ==> r == (NeedKeyword, false)
  {
    if text == Some(CancelButton) then (SearchCancelled, true)
    else if text.None? then (SearchCrashed, false)
    else
      var ks := Keywords(text.value);
      if ks == [] then (NeedKeyword, false)
      else if ApprovedUser(users, caller).None? then (SearchNotApproved, true)
      else (SearchRaised(ks), false)
  }

  // ================================================================ my events

  function IsApprovedReg(r: Registration): bool
  {
    r.status == RegApproved
  }

  /** How many rows of each kind "my events" lists. */
  const ShownPerKind: nat := 5

  /** The first `n` rows, `s[:n]`. */
  function Take<T>(s: seq<T>, n: nat): (r: seq<T>)
    ensures |r| == if |s| < n then |s| else n
    ensures r == s[..|r|]
  {
    if |s| <= n then s else s[..n]
  }

  /** What "my events" shows: the approved and the pending rows, each in table order, at most five of each. */
  datatype Calendar = CalendarNotApproved | EmptyCalendar | Listed(approved: seq<Registration>, pending: seq<Registration>, total: nat)

  function MyEvents(users: seq<User>, regs: seq<Registration>, caller: int): (r: Calendar)
    ensures r == CalendarNotApproved <==> ApprovedUser(users, caller).None?
    ensures r == EmptyCalendar <==> ApprovedUser(users, caller).Some? && GetUserEvents(regs, ApprovedUser(users, caller).value.id) == []
    ensures r.Listed? ==> var rows := GetUserEvents(regs, ApprovedUser(users, caller).value.id);
      && r.total == |rows| > 0
      && r.approved == Take(Filter(rows, IsApprovedReg), ShownPerKind)
      && r.pending == Take(Filter(rows, IsPendingReg), ShownPerKind)
  {
    match ApprovedUser(users, caller)
    case None => CalendarNotApproved
    case Some(u) =>
      var rows := GetUserEvents(regs, u.id);
      if rows == [] then EmptyCalendar
      else Listed(Take(Filter(rows, IsApprovedReg), ShownPerKind), Take(Filter(rows, IsPendingReg), ShownPerKind), |rows|)
  }

  /** Every row of the user is either approved or pending, never both: the two lists partition them. */
  lemma CalendarPartitions(rows: seq<Registration>)
    ensures multiset(Filter(rows, IsApprovedReg)) + multiset(Filter(rows, IsPendingReg)) == multiset(rows)
    ensures forall x :: x in Filter(rows, IsApprovedReg) ==> x !in Filter(rows, IsPendingReg)
  {
    FilterMultiset(rows, IsApprovedReg);
    FilterMultiset(rows, IsPendingReg);
    assert forall x :: (multiset(Filter(rows, IsApprovedReg)) + multiset(Filter(rows, IsPendingReg)))[x] == multiset(rows)[x];
  }
}
