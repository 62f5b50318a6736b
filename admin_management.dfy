/**
 * Managing administrators: the three conversations (add, remove, change role) that owners
 * and great admins run, each a short form whose steps read the next message.
 */
module AdminManagement {
  import opened Wrappers
  import opened Strings
  import opened Records
  import opened Database
  import opened AdminHandlers

  /** The roles that may manage administrators. */
  const ManagerRoles: set<string> := {"GreatAdmin", "Owner"}

  /** The role keyboard: each button and the role it grants. */
  const RoleButtons: map<string, string> :=
    map["👑 GreatAdmin" := "GreatAdmin", "👤 Admin" := "Admin", "👥 Moderator" := "Moderator"]

  /** A button grants a staff role, and never the owner's. */
  lemma ButtonsGrantStaffRoles()
    ensures forall b :: b in RoleButtons ==> RoleButtons[b] in StaffRoles && RoleButtons[b] != "Owner"
    ensures CancelButton !in RoleButtons
  {
  }

  // ================================================================ opening a conversation

  /** The two checks every management entry point makes, in order. */
  datatype Gate = NoAccess | NotManager | Allowed(admin: Admin)

  function ManagerGate(admins: seq<Admin>, caller: Option<int>): (g: Gate)
    ensures g.NoAccess? <==> CheckAccessById(caller, admins).None?
    ensures g.Allowed? <==> CheckAccessById(caller, admins).Some? && CheckAccessById(caller, admins).value.role in ManagerRoles
    ensures g.Allowed? ==> g.admin.telegramId == caller.value && g.admin in admins
  {
    match CheckAccessById(caller, admins)
    case None => NoAccess
    case Some(a) => if a.role in ManagerRoles then Allowed(a) else NotManager
  }

  /** Where a conversation stands; the ids and the role it has already read. */
  datatype Flow =
    | Idle
    | AddId
    | AddRole(newAdminId: int)
    | RemoveId
    | ChangeId
    | ChangeRole(changeRoleId: int, currentRole: string)

  /** The three buttons that open a conversation. */
  datatype Entry = StartAdd | StartRemove | StartChange

  /**
   * `add_admin_start`, `remove_admin_start`, `change_role_start`: a manager is asked for an
   * id; anyone else is refused and stays where they were.
   */
  function StartFlow(flow: Flow, admins: seq<Admin>, caller: Option<int>, entry: Entry): (next: Flow)
    ensures ManagerGate(admins, caller).Allowed? ==> next == match entry
                                                           case StartAdd => AddId
                                                           case StartRemove => RemoveId
                                                           case StartChange => ChangeId
    ensures !ManagerGate(admins, caller).Allowed? ==> next == flow
  {
    if !ManagerGate(admins, caller).Allowed? then flow
    else
      match entry
      case StartAdd => AddId
      case StartRemove => RemoveId
      case StartChange => ChangeId
  }

  // ================================================================ reading an id

  /**
   * The common start of the three id steps: the cancel button, a message without text (on
   * which `.isdigit()` raises), text that is not all digits, or the id.
   */
  datatype IdInput = CancelInput | NoText | NotDigits | Id(n: nat)

  function ReadId(text: Option<string>): (r: IdInput)
    ensures r.CancelInput? <==> text == Some(CancelButton)
    ensures r.NoText? <==> text.None?
    ensures r.Id? ==> IsDigits(text.value)
  {
    if text == Some(CancelButton) then CancelInput
    else if text.None? then NoText
    else if IsDigits(text.value) then Id(DigitsValue(text.value))
    else NotDigits
  }

  /** An id typed in decimal is read back as itself. */
  lemma ReadIdOfDecimal(n: nat)
    ensures ReadId(Some(NatToString(n))) == Id(n)
  {
    var s := NatToString(n);
    assert IsDigit(s[0]) && !IsDigit(CancelButton[0]);
    NatToStringValue(n);
  }

  // ================================================================ one message to a conversation

  /** What the bot answers. */
  datatype Reply =
    | Cancelled
    | Crashed
    | NotANumber
    | AlreadyAdmin
    | AskRole(telegramId: int)
    | PickRole
    | Added(telegramId: int, role: string)
    | CannotRemoveSelf
    | NotFound
    | Removed(telegramId: int, role: string)
    | CannotChangeOwn
    | AskNewRole(telegramId: int, role: string)
    | RoleChanged(telegramId: int, was: string, role: string)

  /** The message sent to the admin concerned (its delivery may fail and is then ignored). */
  datatype AdminNotice = Granted(telegramId: int, role: string) | Revoked(telegramId: int) | Reassigned(telegramId: int, role: string)

  /** A step's effect: the next state, the answer, the new admin table and the notice sent. */
  datatype Outcome = Outcome(next: Flow, reply: Reply, admins: seq<Admin>, notice: Option<AdminNotice>)

  /** How a step answers input that is not an id: cancel, crash, or ask again. */
  function NotAnId(flow: Flow, admins: seq<Admin>, input: IdInput): Outcome
    requires !input.Id?
  {
    match input
    case CancelInput => Outcome(Idle, Cancelled, admins, None)
    case NoText => Outcome(flow, Crashed, admins, None)
    case NotDigits => Outcome(flow, NotANumber, admins, None)
  }

  /** `add_admin_process_id`: an id that already has an admin row ends the conversation. */
  function AddIdStep(admins: seq<Admin>, text: Option<string>): (r: Outcome)
    ensures r.admins == admins && r.notice.None?
    ensures r.next.AddRole? ==> GetAdmin(admins, r.next.newAdminId).None? && r.reply == AskRole(r.next.newAdminId)
    ensures ReadId(text).Id? ==> (r.next.AddRole? <==> GetAdmin(admins, ReadId(text).n).None?)
    ensures ReadId(text).Id? && !r.next.AddRole? ==> r == Outcome(Idle, AlreadyAdmin, admins, None)
  {
    match ReadId(text)
    case Id(t) =>
      if GetAdmin(admins, t).Some? then Outcome(Idle, AlreadyAdmin, admins, None)
      else Outcome(AddRole(t), AskRole(t), admins, None)
    case other => NotAnId(AddId, admins, other)
  }

  /**
   * `add_admin_process_role`: a role button adds the row `(t, "Неизвестно", role)` and tells
   * `t`; anything else, the cancel button included, asks again.
   */
  function AddRoleStep(admins: seq<Admin>, t: int, text: Option<string>): (r: Outcome)
    ensures text.Some? && text.value in RoleButtons ==>
              var role := RoleButtons[text.value];
              r == Outcome(Idle, Added(t, role), admins + [Admin(t, "Неизвестно", role)], Some(Granted(t, role)))
    ensures !(text.Some? && text.value in RoleButtons) ==> r == Outcome(AddRole(t), PickRole, admins, None)
  {
    if text.Some? && text.value in RoleButtons then
      var role := RoleButtons[text.value];
      Outcome(Idle, Added(t, role), admins + [Admin(t, "Неизвестно", role)], Some(Granted(t, role)))
    else Outcome(AddRole(t), PickRole, admins, None)
  }

  /**
   * `remove_admin_process`: the caller's own id is refused before the table is looked at;
   * an unknown id ends the conversation; otherwise every row of the id goes.
   */
  function RemoveStep(admins: seq<Admin>, caller: int, text: Option<string>): (r: Outcome)
    ensures r.admins != admins ==> r.reply.Removed? && r.reply.telegramId != caller
    ensures r.reply.Removed? ==> var t := r.reply.telegramId;
      && GetAdmin(admins, t).Some? && r.reply.role == GetAdmin(admins, t).value.role
      && r.admins == Filter(admins, TelegramIdIsNot(t)) && r.notice == Some(Revoked(t)) && r.next == Idle
    ensures !r.reply.Removed? ==> r.admins == admins && r.notice.None?
    ensures ReadId(text).Id? && ReadId(text).n == caller ==> r == Outcome(Idle, CannotRemoveSelf, admins, None)
  {
    match ReadId(text)
    case Id(t) =>
      if t == caller then Outcome(Idle, CannotRemoveSelf, admins, None)
      else
        (match GetAdmin(admins, t)
         case None => Outcome(Idle, NotFound, admins, None)
         case Some(target) => Outcome(Idle, Removed(t, target.role), Filter(admins, TelegramIdIsNot(t)), Some(Revoked(t))))
    case other => NotAnId(RemoveId, admins, other)
  }

  /**
   * `change_role_process_id`: an unknown id is refused before the caller's own id is; a known
   * other admin's current role is kept for the next step.
   */
  function ChangeIdStep(admins: seq<Admin>, caller: int, text: Option<string>): (r: Outcome)
    ensures r.admins == admins && r.notice.None?
    ensures r.next.ChangeRole? ==> var t := r.next.changeRoleId;
      && t != caller && GetAdmin(admins, t).Some? && r.next.currentRole == GetAdmin(admins, t).value.role
      && r.reply == AskNewRole(t, r.next.currentRole)
    ensures ReadId(text).Id? && GetAdmin(admins, ReadId(text).n).None? ==> r.reply == NotFound && r.next == Idle
    ensures ReadId(text).Id? && ReadId(text).n == caller && GetAdmin(admins, caller).Some? ==> r.reply == CannotChangeOwn && r.next == Idle
  {
    match ReadId(text)
    case Id(t) =>
      (match GetAdmin(admins, t)
       case None => Outcome(Idle, NotFound, admins, None)
       case Some(target) =>
         if t == caller then Outcome(Idle, CannotChangeOwn, admins, None)
         else Outcome(ChangeRole(t, target.role), AskNewRole(t, target.role), admins, None))
    case other => NotAnId(ChangeId, admins, other)
  }

  /** `change_role_process_new`: a role button gives every row of `t` that role and tells `t`. */
  function ChangeRoleStep(admins: seq<Admin>, t: int, current: string, text: Option<string>): (r: Outcome)
    ensures text.Some? && text.value in RoleButtons ==>
              var role := RoleButtons[text.value];
              r == Outcome(Idle, RoleChanged(t, current, role), WithRole(admins, t, role), Some(Reassigned(t, role)))
    ensures !(text.Some? && text.value in RoleButtons) ==> r == Outcome(ChangeRole(t, current), PickRole, admins, None)
  {
    if text.Some? && text.value in RoleButtons then
      var role := RoleButtons[text.value];
      Outcome(Idle, RoleChanged(t, current, role), WithRole(admins, t, role), Some(Reassigned(t, role)))
    else Outcome(ChangeRole(t, current), PickRole, admins, None)
  }

  /** The handler the conversation's state routes a message to. */
  function Step(flow: Flow, admins: seq<Admin>, caller: int, text: Option<string>): Outcome
    requires !flow.Idle?
  {
    match flow
    case AddId => AddIdStep(admins, text)
    case AddRole(t) => AddRoleStep(admins, t, text)
    case RemoveId => RemoveStep(admins, caller, text)
    case ChangeId => ChangeIdStep(admins, caller, text)
    case ChangeRole(t, current) => ChangeRoleStep(admins, t, current, text)
  }

  /** No step removes the caller's admin rows or changes the caller's role. */
  lemma StepsSpareTheCaller(flow: Flow, admins: seq<Admin>, caller: int, text: Option<string>)
    requires !flow.Idle?
    requires flow.AddRole? ==> flow.newAdminId != caller
    requires flow.ChangeRole? ==> flow.changeRoleId != caller
    ensures GetAdmin(Step(flow, admins, caller, text).admins, caller) == GetAdmin(admins, caller)
  {
    var r := Step(flow, admins, caller, text);
    match flow
    case AddRole(t) =>
      if r.admins != admins {
        GetAdminAppend(admins, Admin(t, "Неизвестно", r.reply.role), caller);
      }
    case RemoveId =>
      if r.admins != admins {
        RemoveAdminEffect(admins, r.reply.telegramId, caller);
      }
    case ChangeRole(t, current) =>
      if r.admins != admins {
        GetAdminWithRoleOther(admins, t, r.reply.role, caller);
      }
    case _ =>
  }

  /** A role change for `t` leaves the rows of any other id as they were. */
  lemma {:induction false} GetAdminWithRoleOther(admins: seq<Admin>, t: int, role: string, other: int)
    requires other != t
    ensures GetAdmin(WithRole(admins, t, role), other) == GetAdmin(admins, other)
  {
    if admins != [] {
      var r := WithRole(admins, t, role);
      assert r[1..] == WithRole(admins[1..], t, role);
      GetAdminWithRoleOther(admins[1..], t, role, other);
    }
  }

  /** The add conversation, run to the end: the new admin passes the access check with the chosen role. */
  lemma AddConversationGrantsAccess(admins: seq<Admin>, caller: int, t: nat, button: string)
    requires AddIdStep(admins, Some(NatToString(t))).next.AddRole?
    requires button in RoleButtons
    ensures var r := Step(AddRole(t), admins, caller, Some(button));
      CheckAccessById(Some(t), r.admins) == Some(Admin(t, "Неизвестно", RoleButtons[button]))
  {
    ReadIdOfDecimal(t);
    ButtonsGrantStaffRoles();
    AddedAdminHasAccess(admins, t, "Неизвестно", RoleButtons[button]);
  }

  /** The remove conversation: an admin it removes no longer passes the access check. */
  lemma RemoveConversationRevokesAccess(admins: seq<Admin>, caller: int, text: Option<string>)
    requires RemoveStep(admins, caller, text).reply.Removed?
    ensures var r := RemoveStep(admins, caller, text);
      CheckAccessById(Some(r.reply.telegramId), r.admins).None?
  {
    var r := RemoveStep(admins, caller, text);
    RemovedAdminHasNoAccess(admins, r.reply.telegramId);
  }

  /** The change conversation: the admin keeps access, now under the chosen role. */
  lemma ChangeConversationKeepsAccess(admins: seq<Admin>, caller: int, text: Option<string>, button: string)
    requires ChangeIdStep(admins, caller, text).next.ChangeRole?
    requires button in RoleButtons
    ensures var s := ChangeIdStep(admins, caller, text).next;
      var r := Step(s, admins, caller, Some(button));
      CheckAccessById(Some(s.changeRoleId), r.admins).Some?
      && CheckAccessById(Some(s.changeRoleId), r.admins).value.role == RoleButtons[button]
  {
    var s := ChangeIdStep(admins, caller, text).next;
    var t, role := s.changeRoleId, RoleButtons[button];
    assert Step(s, admins, caller, Some(button)).admins == WithRole(admins, t, role);
    assert GetAdmin(admins, t).Some?;
    assert role in StaffRoles by {
      ButtonsGrantStaffRoles();
    }
    GetAdminWithRole(admins, t, role);
  }

  /**
   * One message in a conversation, on the store: the table changes exactly as the step says,
   * through `add_admin`, `remove_admin` or `update_admin_role`.
   */
  method HandleMessage(db: FDataBase, flow: Flow, caller: int, text: Option<string>)
    returns (next: Flow, reply: Reply, notice: Option<AdminNotice>)
    requires db.Valid() && !flow.Idle?
    modifies db
    ensures db.Valid()
    ensures Outcome(next, reply, db.admins, notice) == Step(flow, old(db.admins), caller, text)
    ensures db.events == old(db.events) && db.nextEventId == old(db.nextEventId)
    ensures db.users == old(db.users) && db.registrations == old(db.registrations)
  {
    var r := Step(flow, db.admins, caller, text);
    next, reply, notice := r.next, r.reply, r.notice;
    match reply
    case Added(t, role) =>
      var _ := db.AddAdmin(t, "Неизвестно", role);
    case Removed(t, _) =>
      var _ := db.RemoveAdmin(t);
    case RoleChanged(t, _, role) =>
      var _ := db.UpdateAdminRole(t, role);
    case _ =>
  }
}
