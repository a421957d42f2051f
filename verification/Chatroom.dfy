/** The chatroom module (talk/xmpp/chatroommoduleimpl.cc; sections 7.2 and 7.14
    of XEP-0045): a table of states, and a map of members whose changes are
    told one by one. */
module Chatroom {
  import opened Options

  /** The room and the nickname in it; a bare jid has no nickname, number 0. */
  datatype Jid = Jid(room: nat, nick: nat)

  datatype RoomState = NotInRoom | RequestedEnter | InRoom | RequestedExit

  datatype EnteredStatus =
    | EnteredSuccess | NicknameConflict | PasswordRequired | NotAMember | MemberBanned | MaxUsers
    | RoomLocked | MemberBlocked | MemberBlocking | OutdatedClient | EnteredUnspecified

  datatype ExitedStatus = ExitedRequested | Kicked | MembershipLost | SystemShutdown | ExitedUnspecified

  datatype Available = IsUnavailable | IsAvailable | IsError

  /** What the module reads of a presence stanza: its type, the code of its
      error and what else that says, the code of the user status. */
  datatype Presence = Presence(from: Jid, kind: Option<string>, errorCode: Option<int>, blocked: bool, blocking: bool,
                               userCode: Option<int>)
  {
    function Availability(): Available {
      if kind == Some("unavailable") then IsUnavailable
      else if kind == Some("error") then IsError
      else IsAvailable
    }
  }

  datatype Stanza = PresenceStanza(p: Presence) | MessageStanza(text: string) | OtherStanza

  datatype Callback =
    | Entered(status: EnteredStatus)
    | Exited(why: ExitedStatus)
    | MemberEntered(jid: Jid, p: Presence)
    | MemberChanged(jid: Jid, p: Presence)
    | MemberExited(jid: Jid, p: Presence)
    | MessageReceived(text: string)

  // --------------------------------------------------------------- transitions

  datatype TransitionType = Nothing | EnterSuccess | EnterFailure | ExitVoluntarily | ExitInvoluntarily
  datatype Transition = Transition(source: RoomState, target: RoomState, server: bool, client: bool, kind: TransitionType)

  const TRANSITIONS: seq<Transition> := [
    Transition(NotInRoom, RequestedEnter, false, true, Nothing),
    Transition(NotInRoom, InRoom, false, false, EnterSuccess),
    Transition(NotInRoom, RequestedExit, false, false, Nothing),
    Transition(RequestedEnter, NotInRoom, true, false, EnterFailure),
    Transition(RequestedEnter, InRoom, true, false, EnterSuccess),
    Transition(RequestedEnter, RequestedExit, false, false, Nothing),
    Transition(InRoom, NotInRoom, true, false, ExitInvoluntarily),
    Transition(InRoom, RequestedEnter, false, false, Nothing),
    Transition(InRoom, RequestedExit, false, true, Nothing),
    Transition(RequestedExit, NotInRoom, true, false, ExitVoluntarily),
    Transition(RequestedExit, RequestedEnter, false, false, Nothing),
    Transition(RequestedExit, InRoom, false, false, Nothing)]

  /** The client is, as far as it was told, in the room. */
  predicate Inside(s: RoomState) { s == InRoom || s == RequestedExit }

  /** A change of state that is allowed tells of an entry exactly when it goes
      from outside to inside, and of an exit exactly when it goes back. */
  lemma AllowedTransitions(k: nat)
    requires k < |TRANSITIONS| && (TRANSITIONS[k].server || TRANSITIONS[k].client)
    ensures var t := TRANSITIONS[k];
            && (t.kind == EnterSuccess <==> !Inside(t.source) && Inside(t.target))
            && (t.kind == ExitVoluntarily || t.kind == ExitInvoluntarily <==> Inside(t.source) && !Inside(t.target))
            && (t.kind == ExitVoluntarily <==> t.source == RequestedExit && t.target == NotInRoom)
  {
    assert k == 0 || k == 1 || k == 2 || k == 3 || k == 4 || k == 5 || k == 6 || k == 7 || k == 8 || k == 9 || k == 10 || k == 11;
  }

  /** The table has every change. */
  lemma EveryChangeListed(source: RoomState, target: RoomState)
    requires source != target
    ensures exists k :: 0 <= k < |TRANSITIONS| && TRANSITIONS[k].source == source && TRANSITIONS[k].target == target
  {
    var i := match source case NotInRoom => 0 case RequestedEnter => 3 case InRoom => 6 case RequestedExit => 9;
    assert TRANSITIONS[i].source == source && TRANSITIONS[i + 1].source == source && TRANSITIONS[i + 2].source == source;
    assert TRANSITIONS[i].target == target || TRANSITIONS[i + 1].target == target || TRANSITIONS[i + 2].target == target;
  }

  // ------------------------------------------------------------- status codes

  function EnterFailureStatus(p: Presence): (s: EnteredStatus)
    ensures s != EnteredSuccess
  {
    match p.errorCode
    case None => EnteredUnspecified
    case Some(code) =>
      if code == 401 then PasswordRequired
      else if code == 403 then (if p.blocked then MemberBlocked else if p.blocking then MemberBlocking else MemberBanned)
      else if code == 405 then RoomLocked
      else if code == 406 then OutdatedClient
      else if code == 407 then NotAMember
      else if code == 409 then NicknameConflict
      else if code == 503 then MaxUsers
      else EnteredUnspecified
  }

  function ExitFailureStatus(p: Presence): (s: ExitedStatus)
    ensures s != ExitedRequested
  {
    match p.userCode
    case None => ExitedUnspecified
    case Some(code) =>
      if code == 307 then Kicked
      else if code == 322 then MembershipLost
      else if code == 332 then SystemShutdown
      else ExitedUnspecified
  }

  /** The code a status stands for; none for the unspecified ones. */
  function EnteredCode(s: EnteredStatus): Option<int> {
    match s
    case PasswordRequired => Some(401)
    case MemberBanned => Some(403)
    case MemberBlocked => Some(403)
    case MemberBlocking => Some(403)
    case RoomLocked => Some(405)
    case OutdatedClient => Some(406)
    case NotAMember => Some(407)
    case NicknameConflict => Some(409)
    case MaxUsers => Some(503)
    case _ => None
  }

  function ExitedCode(s: ExitedStatus): Option<int> {
    match s
    case Kicked => Some(307)
    case MembershipLost => Some(322)
    case SystemShutdown => Some(332)
    case _ => None
  }

  const ENTER_CODES := {401, 403, 405, 406, 407, 409, 503}
  const EXIT_CODES := {307, 322, 332}

  /** A failed entry is told by a status from which the code reads back, unless it
      has none, or one that is not known. For 403 the status says who blocked
      whom, if anybody did. */
  lemma EnterFailureReadsBack(p: Presence)
    ensures EnteredCode(EnterFailureStatus(p)) ==
            if p.errorCode.Some? && p.errorCode.value in ENTER_CODES then p.errorCode else None
    ensures p.errorCode == Some(403) ==>
            && (EnterFailureStatus(p) == MemberBlocked <==> p.blocked)
            && (EnterFailureStatus(p) == MemberBanned <==> !p.blocked && !p.blocking)
  {
    assert p.errorCode.Some? && p.errorCode.value == 403 ==> EnteredCode(EnterFailureStatus(p)) == Some(403);
  }

  lemma ExitFailureReadsBack(p: Presence)
    ensures ExitedCode(ExitFailureStatus(p)) ==
            if p.userCode.Some? && p.userCode.value in EXIT_CODES then p.userCode else None
  {
  }

  /** What each code says. */
  lemma FailureMeans(p: Presence)
    ensures p.errorCode == Some(401) ==> EnterFailureStatus(p) == PasswordRequired
    ensures p.errorCode == Some(405) ==> EnterFailureStatus(p) == RoomLocked
    ensures p.errorCode == Some(406) ==> EnterFailureStatus(p) == OutdatedClient
    ensures p.errorCode == Some(407) ==> EnterFailureStatus(p) == NotAMember
    ensures p.errorCode == Some(409) ==> EnterFailureStatus(p) == NicknameConflict
    ensures p.errorCode == Some(503) ==> EnterFailureStatus(p) == MaxUsers
    ensures p.userCode == Some(307) ==> ExitFailureStatus(p) == Kicked
    ensures p.userCode == Some(322) ==> ExitFailureStatus(p) == MembershipLost
    ensures p.userCode == Some(332) ==> ExitFailureStatus(p) == SystemShutdown
  {
  }

  // ------------------------------------------------- what the callbacks tell

  /** Whether one who heard the callbacks is in the room; nothing if an entry
      came inside, or an exit outside. */
  function Told(log: seq<Callback>): Option<bool> {
    if log == [] then Some(false)
    else
      var before, c := Told(log[..|log| - 1]), log[|log| - 1];
      match c
      case Entered(EnteredSuccess) => if before == Some(false) then Some(true) else None
      case Exited(_) => if before == Some(true) then Some(false) else None
      case _ => before
  }

  /** The members one who heard the callbacks knows of; nothing if a member came
      who was there, or changed or went who was not. */
  function Replay(log: seq<Callback>): Option<map<Jid, Presence>> {
    if log == [] then Some(map[])
    else
      var before, c := Replay(log[..|log| - 1]), log[|log| - 1];
      if before.None? then None
      else
        match c
        case MemberEntered(j, p) => if j !in before.value then Some(before.value[j := p]) else None
        case MemberChanged(j, p) => if j in before.value then Some(before.value[j := p]) else None
        case MemberExited(j, _) => if j in before.value then Some(before.value - {j}) else None
        case _ => before
  }

  predicate IsMemberChange(c: Callback) { c.MemberEntered? || c.MemberChanged? || c.MemberExited? }

  function MemberChanges(log: seq<Callback>): nat {
    if log == [] then 0
    else MemberChanges(log[..|log| - 1]) + if IsMemberChange(log[|log| - 1]) then 1 else 0
  }

  lemma Heard(log: seq<Callback>, c: Callback)
    ensures Told(log + [c]) == (match c
              case Entered(EnteredSuccess) => if Told(log) == Some(false) then Some(true) else None
              case Exited(_) => if Told(log) == Some(true) then Some(false) else None
              case _ => Told(log))
    ensures MemberChanges(log + [c]) == MemberChanges(log) + if IsMemberChange(c) then 1 else 0
    ensures !IsMemberChange(c) ==> Replay(log + [c]) == Replay(log)
  {
    assert (log + [c])[..|log|] == log;
  }

  lemma HeardMember(log: seq<Callback>, c: Callback, members: map<Jid, Presence>)
    requires Replay(log) == Some(members) && IsMemberChange(c) && (c.jid in members <==> !c.MemberEntered?)
    ensures Replay(log + [c]) == Some(if c.MemberExited? then members - {c.jid} else members[c.jid := c.p])
  {
    assert (log + [c])[..|log|] == log;
  }

  /** Two entries, or two exits, never follow each other: between any two
      entered-success callbacks there is an exit. */
  lemma {:induction false} EntriesAlternate(log: seq<Callback>, i: nat, j: nat)
    requires Told(log).Some? && i < j < |log|
    requires log[i] == Entered(EnteredSuccess) && log[j] == Entered(EnteredSuccess)
    ensures exists k :: i < k < j && log[k].Exited?
    decreases |log|
  {
    var n := |log| - 1;
    if j < n {
      EntriesAlternate(log[..n], i, j);
      var k :| i < k < j && log[..n][k].Exited?;
      assert log[k].Exited?;
    } else {
      ToldOutside(log[..n], i);
      var k :| i < k < n && log[..n][k].Exited?;
      assert log[k].Exited?;
    }
  }

  /** One who is outside after an entry heard of an exit since. */
  lemma {:induction false} ToldOutside(log: seq<Callback>, i: nat)
    requires Told(log) == Some(false) && i < |log| && log[i] == Entered(EnteredSuccess)
    ensures exists k :: i < k < |log| && log[k].Exited?
    decreases |log|
  {
    var n := |log| - 1;
    if log[n].Exited? {
      assert i < n;
    } else {
      ToldOutside(log[..n], i);
      var k :| i < k < n && log[..n][k].Exited?;
      assert log[k].Exited?;
    }
  }

  /** The same for exits; and the first of both is an entry. */
  lemma {:induction false} EntryBeforeExit(log: seq<Callback>, j: nat)
    requires Told(log).Some? && j < |log| && log[j].Exited?
    ensures exists i :: 0 <= i < j && log[i] == Entered(EnteredSuccess) && forall k :: i < k < j ==> !log[k].Exited?
    decreases |log|
  {
    var n := |log| - 1;
    if j < n {
      EntryBeforeExit(log[..n], j);
      var i :| 0 <= i < j && log[..n][i] == Entered(EnteredSuccess) && forall k :: i < k < j ==> !log[..n][k].Exited?;
      assert forall k :: i < k < j ==> log[k] == log[..n][k];
      assert log[i] == Entered(EnteredSuccess);
    } else {
      ToldInside(log[..n]);
      var i :| 0 <= i < n && log[..n][i] == Entered(EnteredSuccess) && forall k :: i < k < n ==> !log[..n][k].Exited?;
      assert forall k :: i < k < n ==> log[k] == log[..n][k];
      assert log[i] == Entered(EnteredSuccess);
    }
  }

  lemma {:induction false} ToldInside(log: seq<Callback>)
    requires Told(log) == Some(true)
    ensures exists i :: 0 <= i < |log| && log[i] == Entered(EnteredSuccess) && forall k :: i < k < |log| ==> !log[k].Exited?
    decreases |log|
  {
    var n := |log| - 1;
    if log[n] == Entered(EnteredSuccess) {
    } else {
      ToldInside(log[..n]);
      var i :| 0 <= i < n && log[..n][i] == Entered(EnteredSuccess) && forall k :: i < k < n ==> !log[..n][k].Exited?;
      assert forall k :: i < k < n ==> log[k] == log[..n][k];
      assert log[i] == Entered(EnteredSuccess);
    }
  }

  // ------------------------------------------------------------------ the room

  datatype Status = Ok | BadState | BadArgument

  /** The state after the server said that the client is in the room, or not: a
      client that did not ask does not enter, nor does one that asked to go. */
  function Answered(source: RoomState, target: RoomState): RoomState {
    if target == NotInRoom || (source == RequestedEnter && target == InRoom) then target else source
  }

  /** What is told of that. */
  function Heralded(source: RoomState, target: RoomState, p: Presence): seq<Callback> {
    if Answered(source, target) == source then []
    else if target == InRoom then [Entered(EnteredSuccess)]
    else match source
      case RequestedEnter => [Entered(EnterFailureStatus(p))]
      case RequestedExit => [Exited(ExitedRequested)]
      case _ => [Exited(ExitFailureStatus(p))]
  }

  /** The member map, and what is told, after a presence of another member. */
  function MembersAfter(members: map<Jid, Presence>, p: Presence): map<Jid, Presence> {
    match p.Availability()
    case IsAvailable => members[p.from := p]
    case IsUnavailable => members - {p.from}
    case IsError => members
  }

  function MemberNews(members: map<Jid, Presence>, p: Presence): (news: seq<Callback>)
    ensures news == [] <==> p.Availability() == IsError || (p.Availability() == IsUnavailable && p.from !in members)
  {
    match p.Availability()
    case IsAvailable => [if p.from in members then MemberChanged(p.from, p) else MemberEntered(p.from, p)]
    case IsUnavailable => if p.from in members then [MemberExited(p.from, members[p.from])] else []
    case IsError => []
  }

  class ChatroomModule {
    var roomJid: Jid
    var nickname: nat
    var state: RoomState
    var members: map<Jid, Presence>
    var version: nat
    var log: seq<Callback>

    /** Who heard all callbacks knows whether the client is in the room, who is
        there with it, and how often that changed. */
    ghost predicate Valid()
      reads this
    {
      Told(log) == Some(Inside(state)) && Replay(log) == Some(members) && version == MemberChanges(log)
    }

    constructor ()
      ensures Valid() && state == NotInRoom && members == map[] && log == []
    {
      roomJid, nickname, state, members, version, log := Jid(0, 0), 0, NotInRoom, map[], 0, [];
    }

    function MemberJid(): Jid
      reads this
    {
      Jid(roomJid.room, nickname)
    }

    method SetChatroomJid(jid: Jid) returns (status: Status)
      modifies `roomJid
      ensures status == if state != NotInRoom then BadState else if jid.nick != 0 then BadArgument else Ok
      ensures roomJid == if status == Ok then jid else old(roomJid)
    {
      if state != NotInRoom { return BadState; }
      if jid.nick != 0 { return BadArgument; }
      roomJid := jid;
      status := Ok;
    }

    method SetNickname(nick: nat) returns (status: Status)
      modifies `nickname
      ensures status == if state != NotInRoom then BadState else Ok
      ensures nickname == if status == Ok then nick else old(nickname)
    {
      if state != NotInRoom { return BadState; }
      nickname := nick;
      status := Ok;
    }

    // ------------------------------------------------------------- own presence

    /** The first entry of the table for a change. */
    method FindTransition(source: RoomState, target: RoomState) returns (k: nat)
      requires source != target
      ensures k < |TRANSITIONS| && TRANSITIONS[k].source == source && TRANSITIONS[k].target == target
    {
      EveryChangeListed(source, target);
      k := 0;
      while k < |TRANSITIONS|
        invariant k <= |TRANSITIONS|
        invariant exists i :: k <= i < |TRANSITIONS| && TRANSITIONS[i].source == source && TRANSITIONS[i].target == target
      {
        if TRANSITIONS[k].source == source && TRANSITIONS[k].target == target { return; }
        k := k + 1;
      }
    }

    /** A change of the own state. If the table allows it, it is made, and told
        if it is an entry, a failed one, or an exit. */
    method ChangePresence(target: RoomState, presence: Option<Presence>, isServer: bool) returns (status: Status)
      requires Valid() && (isServer ==> presence.Some?)
      modifies `state, `log
      ensures Valid() && old(log) <= log
      ensures !isServer ==> log == old(log)
      ensures !isServer ==> var source := old(state);
                if source == target || (source, target) in {(NotInRoom, RequestedEnter), (InRoom, RequestedExit)}
                then status == Ok && state == target
                else status == BadArgument && state == source
      ensures isServer ==>
                && status == (if Answered(old(state), target) == old(state) != target then BadState else Ok)
                && state == Answered(old(state), target) && log == old(log) + Heralded(old(state), target, presence.value)
    {
      var source := state;
      if source == target { return Ok; }
      var k := FindTransition(source, target);
      TableMeans(k);
      if isServer {
        if !TRANSITIONS[k].server { return BadState; }
      } else {
        if !TRANSITIONS[k].client { return BadArgument; }
      }
      state := target;
      status := Ok;
      match TRANSITIONS[k].kind
      case EnterSuccess => Fire(Entered(EnteredSuccess), Inside(source));
      case EnterFailure => Fire(Entered(EnterFailureStatus(presence.value)), Inside(source));
      case ExitInvoluntarily => Fire(Exited(ExitFailureStatus(presence.value)), Inside(source));
      case ExitVoluntarily => Fire(Exited(ExitedRequested), Inside(source));
      case Nothing =>
    }

    /** A callback about the client itself. */
    method Fire(c: Callback, ghost inside: bool)
      requires c.Entered? || c.Exited?
      requires Told(log) == Some(inside) && Replay(log) == Some(members) && version == MemberChanges(log)
      requires c == Entered(EnteredSuccess) ==> !inside && Inside(state)
      requires c.Exited? ==> inside && !Inside(state)
      requires c != Entered(EnteredSuccess) && !c.Exited? ==> inside == Inside(state)
      modifies `log
      ensures Valid() && log == old(log) + [c]
    {
      Heard(log, c);
      log := log + [c];
    }

    method RequestEnterChatroom(engine: bool, sent: Status) returns (status: Status)
      requires Valid()
      modifies `state, `log
      ensures Valid() && log == old(log)
      ensures engine && old(state) == NotInRoom && roomJid.room != 0 && nickname != 0 && sent == Ok ==>
                status == Ok && state == RequestedEnter
      ensures engine && old(state) == NotInRoom && roomJid.room != 0 && nickname != 0 && sent != Ok ==>
                status == sent && state == old(state)
      ensures !(engine && old(state) == NotInRoom && roomJid.room != 0 && nickname != 0) ==>
                status == BadState && state == old(state)
    {
      if !engine || state != NotInRoom { return BadState; }
      if roomJid.room == 0 || nickname == 0 { return BadState; }
      if sent != Ok { return sent; }
      status := ChangePresence(RequestedEnter, None, false);
    }

    method RequestExitChatroom(engine: bool, sent: Status) returns (status: Status)
      requires Valid()
      modifies `state, `log
      ensures Valid() && log == old(log)
      ensures engine && old(state) == InRoom && sent == Ok ==> status == Ok && state == RequestedExit
      ensures engine && old(state) == InRoom && sent != Ok ==> status == sent && state == old(state)
      ensures !(engine && old(state) == InRoom) ==> status == BadState && state == old(state)
    {
      if !engine || state != InRoom { return BadState; }
      if sent != Ok { return sent; }
      status := ChangePresence(RequestedExit, None, false);
    }

    method ServerChangeMyPresence(p: Presence) returns (status: Status)
      requires Valid()
      modifies `state, `log
      ensures Valid() && old(log) <= log
      ensures var target := if p.kind.None? then InRoom else NotInRoom;
              && state == Answered(old(state), target) && log == old(log) + Heralded(old(state), target, p)
              && status == if state == target then Ok else BadState
    {
      status := ChangePresence(if p.kind.None? then InRoom else NotInRoom, Some(p), true);
    }

    // ------------------------------------------------------ presence of others

    method ServerChangedOtherPresence(p: Presence)
      requires Valid()
      modifies `members, `version, `log
      ensures Valid() && old(log) <= log
      ensures members == MembersAfter(old(members), p) && log == old(log) + MemberNews(old(members), p)
      ensures version == old(version) + |MemberNews(old(members), p)|
      ensures p.kind == Some("unavailable") ==>
        && members == old(members) - {p.from}
        && log == old(log) + if p.from in old(members) then [MemberExited(p.from, old(members)[p.from])] else []
      ensures p.kind == Some("error") ==> members == old(members) && log == old(log)
      ensures p.kind != Some("unavailable") && p.kind != Some("error") ==>
        && members == old(members)[p.from := p]
        && log == old(log) + [if p.from in old(members) then MemberChanged(p.from, p) else MemberEntered(p.from, p)]
    {
      if p.from !in members {
        if p.Availability() == IsAvailable {
          Tell(MemberEntered(p.from, p));
        }
      } else if p.Availability() == IsAvailable {
        Tell(MemberChanged(p.from, p));
      } else if p.Availability() == IsUnavailable {
        Tell(MemberExited(p.from, members[p.from]));
      }
    }

    /** A change of the map, its version and the callback. */
    method Tell(c: Callback)
      requires Valid() && IsMemberChange(c) && (c.jid in members <==> !c.MemberEntered?)
      modifies `members, `version, `log
      ensures Valid() && log == old(log) + [c] && version == old(version) + 1
      ensures members == if c.MemberExited? then old(members) - {c.jid} else old(members)[c.jid := c.p]
    {
      Heard(log, c);
      HeardMember(log, c, members);
      members := if c.MemberExited? then members - {c.jid} else members[c.jid := c.p];
      version := version + 1;
      log := log + [c];
    }

    method HandleStanza(from: Jid, stanza: Stanza) returns (handled: bool)
      requires Valid() && (stanza.PresenceStanza? ==> stanza.p.from == from)
      modifies `state, `members, `version, `log
      ensures Valid() && old(log) <= log && handled == (Jid(from.room, 0) == roomJid)
      ensures !handled || stanza.OtherStanza? ==> log == old(log)
      ensures handled && stanza.MessageStanza? ==> log == old(log) + [MessageReceived(stanza.text)]
      ensures var own := handled && stanza.PresenceStanza? && from.nick == nickname;
              if own then
                var target := if stanza.p.kind.None? then InRoom else NotInRoom;
                state == Answered(old(state), target) && log == old(log) + Heralded(old(state), target, stanza.p)
              else state == old(state)
      ensures var other := handled && stanza.PresenceStanza? && from.nick != nickname;
              if other then members == MembersAfter(old(members), stanza.p) && log == old(log) + MemberNews(old(members), stanza.p)
              else members == old(members)
    {
      hide Told, Replay, MemberChanges;
      if roomJid != Jid(from.room, 0) { return false; }
      handled := true;
      match stanza
      case PresenceStanza(p) =>
        if from == MemberJid() {
          var status := ServerChangeMyPresence(p);
        } else {
          ServerChangedOtherPresence(p);
        }
      case MessageStanza(text) =>
        Heard(log, MessageReceived(text));
        log := log + [MessageReceived(text)];
      case OtherStanza =>
    }
  }

  /** What a client asks, and what the server sends. */
  datatype Input =
    | SetRoom(jid: Jid)
    | SetNick(nick: nat)
    | RequestEnter(engine: bool, sent: Status)
    | RequestExit(engine: bool, sent: Status)
    | Incoming(from: Jid, stanza: Stanza)

  predicate Consistent(input: Input) {
    input.Incoming? && input.stanza.PresenceStanza? ==> input.stanza.p.from == input.from
  }

  /** Entered-success and exit callbacks alternate, an entry first. */
  ghost predicate Alternating(log: seq<Callback>) {
    && (forall i, j :: 0 <= i < j < |log| && log[i] == Entered(EnteredSuccess) == log[j] ==>
          exists k :: i < k < j && log[k].Exited?)
    && (forall j :: 0 <= j < |log| && log[j].Exited? ==>
          exists i :: 0 <= i < j && log[i] == Entered(EnteredSuccess) && forall k :: i < k < j ==> !log[k].Exited?)
  }

  lemma ToldAlternates(log: seq<Callback>)
    requires Told(log).Some?
    ensures Alternating(log)
  {
    hide Told;
    forall i, j | 0 <= i < j < |log| && log[i] == Entered(EnteredSuccess) == log[j]
      ensures exists k :: i < k < j && log[k].Exited?
    {
      EntriesAlternate(log, i, j);
    }
    forall j | 0 <= j < |log| && log[j].Exited?
      ensures exists i :: 0 <= i < j && log[i] == Entered(EnteredSuccess) && forall k :: i < k < j ==> !log[k].Exited?
    {
      EntryBeforeExit(log, j);
    }
  }

  /** In every run the callbacks alternate, and tell all there is to know of the
      members. */
  method Session(inputs: seq<Input>) returns (room: ChatroomModule)
    requires forall i :: 0 <= i < |inputs| ==> Consistent(inputs[i])
    ensures fresh(room) && room.Valid()
    ensures Alternating(room.log) && Replay(room.log) == Some(room.members)
  {
    hide Told, Replay, MemberChanges;
    room := new ChatroomModule();
    for n := 0 to |inputs|
      invariant fresh(room) && room.Valid()
    {
      match inputs[n] {
        case SetRoom(jid) => var status := room.SetChatroomJid(jid);
        case SetNick(nick) => var status := room.SetNickname(nick);
        case RequestEnter(engine, sent) => var status := room.RequestEnterChatroom(engine, sent);
        case RequestExit(engine, sent) => var status := room.RequestExitChatroom(engine, sent);
        case Incoming(from, stanza) => var handled := room.HandleStanza(from, stanza);
      }
    }
    ToldAlternates(room.log);
  }

  lemma TableMeans(k: nat)
    requires k < |TRANSITIONS|
    ensures var t := TRANSITIONS[k];
            && (t.server <==> (t.target == NotInRoom) || (t.source == RequestedEnter && t.target == InRoom))
            && (t.client <==> (t.source == NotInRoom && t.target == RequestedEnter) || (t.source == InRoom && t.target == RequestedExit))
            && (t.target == InRoom && t.server ==> t.kind == EnterSuccess)
            && (t.source == RequestedEnter && t.target == NotInRoom ==> t.kind == EnterFailure)
            && (t.source == RequestedExit && t.target == NotInRoom ==> t.kind == ExitVoluntarily)
            && (t.source == InRoom && t.target == NotInRoom ==> t.kind == ExitInvoluntarily)
            && (t.client ==> t.kind == Nothing)
            && t.source != t.target
  {
    assert k == 0 || k == 1 || k == 2 || k == 3 || k == 4 || k == 5 || k == 6 || k == 7 || k == 8 || k == 9 || k == 10 || k == 11;
  }

  // -------------------------------------------------------------- enumeration

  predicate Less(a: Jid, b: Jid) { a.room < b.room || (a.room == b.room && a.nick < b.nick) }

  predicate Sorted(keys: seq<Jid>) {
    forall i, j :: 0 <= i < j < |keys| ==> Less(keys[i], keys[j])
  }

  /** The keys of the map in its order. */
  ghost predicate InMapOrder(keys: seq<Jid>, members: map<Jid, Presence>) {
    Sorted(keys) && forall j :: j in keys <==> j in members
  }

  predicate Least(s: set<Jid>, m: Jid) {
    m in s && forall x :: x in s ==> x == m || Less(m, x)
  }

  lemma {:induction false} LeastExists(s: set<Jid>) returns (m: Jid)
    requires s != {}
    ensures Least(s, m)
    decreases |s|
  {
    var a :| a in s;
    if s == {a} {
      m := a;
    } else {
      var b := LeastExists(s - {a});
      m := if Less(a, b) then a else b;
      forall x | x in s
        ensures x == m || Less(m, x)
      {
        assert x == a || x in s - {a};
      }
    }
  }

  method MapOrder(members: map<Jid, Presence>) returns (keys: seq<Jid>)
    ensures InMapOrder(keys, members)
  {
    keys := [];
    var rest := members.Keys;
    while rest != {}
      invariant Sorted(keys) && (forall j :: j in members <==> j in keys || j in rest)
      invariant forall i, x :: 0 <= i < |keys| && x in rest ==> Less(keys[i], x)
      decreases |rest|
    {
      ghost var least := LeastExists(rest);
      assert Least(rest, least);
      var m :| m in rest && Least(rest, m);
      assert Least(rest, m);
      ghost var before := rest;
      keys := keys + [m];
      rest := rest - {m};
      forall x | x in rest
        ensures Less(m, x)
      {
        assert x in before && x != m;
      }
    }
  }

  /** As long as no member change was told the map is the same. */
  lemma {:induction false} UnchangedSince(start: seq<Callback>, log: seq<Callback>)
    requires start <= log
    ensures MemberChanges(log) >= MemberChanges(start)
    ensures MemberChanges(log) == MemberChanges(start) <==> forall k :: |start| <= k < |log| ==> !IsMemberChange(log[k])
    ensures MemberChanges(log) == MemberChanges(start) ==> Replay(log) == Replay(start)
    decreases |log|
  {
    if start == log {
    } else {
      var n := |log| - 1;
      UnchangedSince(start, log[..n]);
      assert log == log[..n] + [log[n]];
      Heard(log[..n], log[n]);
      assert forall k :: |start| <= k < n ==> log[..n][k] == log[k];
    }
  }

  class MemberEnumerator {
    const room: ChatroomModule
    var versionCreated: nat
    var keys: seq<Jid>
    var cursor: nat
    var beforeBeginning: bool
    ghost var logCreated: seq<Callback>

    /** What the enumerator was made from. */
    ghost predicate Valid()
      reads this, room
    {
      && room.Valid() && logCreated <= room.log && versionCreated == MemberChanges(logCreated)
      && Replay(logCreated).Some? && InMapOrder(keys, Replay(logCreated).value)
      && cursor <= |keys| && (beforeBeginning ==> cursor == 0)
    }

    constructor (chatroom: ChatroomModule)
      requires chatroom.Valid()
      ensures room == chatroom && Valid() && IsValid() && IsBeforeBeginning() && logCreated == chatroom.log
    {
      room := chatroom;
      var order := MapOrder(chatroom.members);
      versionCreated, keys, cursor, beforeBeginning := chatroom.version, order, 0, true;
      logCreated := chatroom.log;
    }

    predicate IsValid()
      reads this, room
    {
      versionCreated == room.version
    }

    predicate IsBeforeBeginning()
      reads this
    {
      beforeBeginning
    }

    predicate IsAfterEnd()
      reads this
    {
      cursor == |keys|
    }

    /** An enumerator is valid exactly while no member change was told since it
        was made, and then its keys are those of the map. */
    lemma ValidExactlyWhile()
      requires Valid()
      ensures IsValid() <==> forall k :: |logCreated| <= k < |room.log| ==> !IsMemberChange(room.log[k])
      ensures IsValid() ==> InMapOrder(keys, room.members)
    {
      UnchangedSince(logCreated, room.log);
    }

    method Current() returns (member: Option<Presence>)
      requires Valid()
      ensures member.Some? <==> IsValid() && !IsBeforeBeginning() && !IsAfterEnd()
      ensures member.Some? ==> keys[cursor] in room.members && member.value == room.members[keys[cursor]]
    {
      ValidExactlyWhile();
      if !IsValid() || IsBeforeBeginning() || IsAfterEnd() {
        member := None;
      } else {
        assert keys[cursor] in keys;
        member := Some(room.members[keys[cursor]]);
      }
    }

    /** One place on; true while there is a member. */
    method Next() returns (more: bool)
      requires Valid()
      modifies `cursor, `beforeBeginning
      ensures Valid()
      ensures !IsValid() ==> !more && cursor == old(cursor) && beforeBeginning == old(beforeBeginning)
      ensures IsValid() ==> !beforeBeginning && more == (cursor < |keys|)
      ensures IsValid() ==> cursor == if old(beforeBeginning) then 0 else if old(cursor) == |keys| then old(cursor) else old(cursor) + 1
    {
      if !IsValid() { return false; }
      if IsBeforeBeginning() {
        beforeBeginning := false;
        cursor := 0;
      } else if IsAfterEnd() {
        return false;
      } else {
        cursor := cursor + 1;
      }
      var member := Current();
      more := member.Some?;
    }

    method Prev() returns (more: bool)
      requires Valid()
      modifies `cursor, `beforeBeginning
      ensures Valid()
      ensures !IsValid() || old(beforeBeginning) ==> !more && cursor == old(cursor) && beforeBeginning == old(beforeBeginning)
      ensures IsValid() && !old(beforeBeginning) ==>
                if old(cursor) == 0 then !more && beforeBeginning && cursor == 0
                else more && !beforeBeginning && cursor == old(cursor) - 1
    {
      if !IsValid() || IsBeforeBeginning() { return false; }
      if cursor == 0 {
        beforeBeginning := true;
        return false;
      }
      cursor := cursor - 1;
      var member := Current();
      more := member.Some?;
    }
  }

  /** From the beginning, Next comes to every member once, in the order of the
      map, and then ends. */
  method Enumerate(room: ChatroomModule) returns (seen: seq<Presence>, ghost keys: seq<Jid>)
    requires room.Valid()
    ensures InMapOrder(keys, room.members) && |seen| == |keys|
    ensures forall i :: 0 <= i < |seen| ==> keys[i] in room.members && seen[i] == room.members[keys[i]]
  {
    var e := new MemberEnumerator(room);
    seen := [];
    keys := e.keys;
    var more := e.Next();
    while more
      invariant e.Valid() && e.IsValid() && e.room == room && e.keys == keys && !e.beforeBeginning
      invariant more == (e.cursor < |keys|) && |seen| == e.cursor
      invariant forall i :: 0 <= i < |seen| ==> keys[i] in room.members && seen[i] == room.members[keys[i]]
      decreases |keys| - e.cursor
    {
      var member := e.Current();
      seen := seen + [member.value];
      more := e.Next();
    }
    e.ValidExactlyWhile();
  }
}
