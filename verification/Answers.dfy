/** What every event adds to which queue and changes beside it, stated over the states before and
    after it. */
module Answers {
  import opened Wrappers
  import opened Convert
  import opened Framing
  import opened Registry
  import opened Presence

  /** One message more for one connection, and no other change to any connection. */
  ghost predicate OneReply(ss: seq<Session>, tt: seq<Session>, id: nat, out: Out) {
    && |tt| == |ss|
    && forall i :: 0 <= i < |ss| ==>
         tt[i] == Session(ss[i].id, ss[i].user, if ss[i].id == id then ss[i].outbox + [out] else ss[i].outbox)
  }

  lemma ReplyIsOneReply(s: State, me: Session, out: Out)
    ensures OneReply(s.sessions, Reply(s, me, out).sessions, me.id, out)
  {}

  /** A queue tells which reply it was. */
  lemma OneReplyIsUnique(ss: seq<Session>, tt: seq<Session>, me: Session, out: Out, other: Out)
    requires me in ss && OneReply(ss, tt, me.id, out) && OneReply(ss, tt, me.id, other)
    ensures out == other
  {
    var i :| 0 <= i < |ss| && ss[i] == me;
    assert (me.outbox + [out])[|me.outbox|] == (me.outbox + [other])[|me.outbox|];
  }

  // ----------------------------------------------------------------------- refusals

  /** Logging in and registering are for connections that are not logged in, and want the body
      encrypted with the symmetric key, which byte 10 of the header says. */
  predicate AsStranger(me: Session, message: Message) {
    me.user.None? && message.header[10] == 2
  }

  predicate AsUser(me: Session, message: Message) {
    me.user.Some? && message.header[10] == 2
  }

  function StrangerRefusal(me: Session): string {
    if me.user.Some? then "you need to logout first to do this action"
    else "the message should be encrypted with symmetric one"
  }

  function UserRefusal(me: Session): string {
    if me.user.None? then "you need to authenticate first to do this action"
    else "the message should be encrypted with symmetric one"
  }

  // -------------------------------------------------------------------- registering

  ghost predicate CanRegister(s: State, me: Session, message: Message, payload: Result<Credentials, string>) {
    AsStranger(me, message) && payload.Ok? && forall u <- s.users :: u.name != payload.value.username
  }

  function RegisterRefusal(me: Session, message: Message, payload: Result<Credentials, string>): string {
    if !AsStranger(me, message) then StrangerRefusal(me)
    else if payload.Err? then "the message you sent is malformed"
    else "you are not registered"
  }

  /** A register request makes an account under the next id when the name is new, and is told
      success exactly then. */
  ghost predicate RegisterAnswered(s: State, me: Session, message: Message, payload: Result<Credentials, string>,
                                   t: State) {
    && t == s.(sessions := t.sessions, users := t.users, nextUser := t.nextUser)
    && if CanRegister(s, me, message, payload) then
         && t.users == s.users + [Account(s.nextUser, payload.value.username, payload.value.password, [])]
         && t.nextUser == s.nextUser + 1
         && OneReply(s.sessions, t.sessions, me.id, Feedback(true, OnRegister, true, ""))
       else
         && t.users == s.users && t.nextUser == s.nextUser
         && OneReply(s.sessions, t.sessions, me.id,
                     Feedback(true, OnRegister, false, RegisterRefusal(me, message, payload)))
  }

  lemma RegisterAnswer(s: State, me: Session, message: Message, payload: Result<Credentials, string>)
    ensures RegisterAnswered(s, me, message, payload, Handle(s, me, message, Register(payload)))
  {
    hide OneReply, Tell;
    ReplyIsOneReply(s, me, Feedback(true, OnRegister, true, ""));
    ReplyIsOneReply(s, me, Feedback(true, OnRegister, false, RegisterRefusal(me, message, payload)));
  }

  /** The answer tells whether an account was made. */
  lemma RegisterAnswerTells(s: State, me: Session, message: Message, payload: Result<Credentials, string>, t: State)
    requires me in s.sessions && RegisterAnswered(s, me, message, payload, t)
    ensures t.users != s.users <==> OneReply(s.sessions, t.sessions, me.id, Feedback(true, OnRegister, true, ""))
    ensures t.users == s.users <==>
              exists text :: OneReply(s.sessions, t.sessions, me.id, Feedback(true, OnRegister, false, text))
  {
    hide OneReply;
    forall out, other | OneReply(s.sessions, t.sessions, me.id, out) && OneReply(s.sessions, t.sessions, me.id, other)
      ensures out == other
    {
      OneReplyIsUnique(s.sessions, t.sessions, me, out, other);
    }
  }

  // --------------------------------------------------------------------- logging in

  /** The account that the credentials open. */
  ghost predicate Opens(s: State, payload: Result<Credentials, string>, u: Account) {
    payload.Ok? && u in s.users && u.name == payload.value.username && u.password == payload.value.password
  }

  ghost function LoginRefusal(s: State, me: Session, message: Message, payload: Result<Credentials, string>): string {
    if !AsStranger(me, message) then StrangerRefusal(me)
    else if payload.Err? then payload.error
    else if forall u <- s.users :: u.name != payload.value.username then "you are not registered"
    else "password provided is invalid"
  }

  /** What a login as u leaves of a connection: the one that logs in becomes that user and is
      told success; connections of other users are told who came. */
  function AfterLogin(a: Session, me: Session, u: Account): Session {
    var member := Member(u.id, u.name);
    if a.id == me.id then Session(a.id, Some(member), a.outbox + [Feedback(true, OnLogin, true, "")])
    else if a.user.Some? && a.user.value.id != u.id then Session(a.id, a.user, a.outbox + [UserLogin(member)])
    else a
  }

  ghost predicate LoggedInAs(s: State, me: Session, u: Account, t: State) {
    && t == s.(sessions := t.sessions, online := t.online)
    && |t.sessions| == |s.sessions|
    && (forall i :: 0 <= i < |s.sessions| ==> t.sessions[i] == AfterLogin(s.sessions[i], me, u))
    && t.online == s.online[u.id := (if u.id in s.online then s.online[u.id] else []) + [me.id]]
  }

  /** A login request does one of two things: it logs the connection in as the account that its
      credentials open, or it changes nothing and is told why. */
  ghost predicate LoginAnswered(s: State, me: Session, message: Message, payload: Result<Credentials, string>,
                                t: State) {
    && (forall u :: AsStranger(me, message) && Opens(s, payload, u) ==> LoggedInAs(s, me, u, t))
    && (!AsStranger(me, message) || (forall u :: !Opens(s, payload, u)) ==>
          && t == s.(sessions := t.sessions)
          && OneReply(s.sessions, t.sessions, me.id,
                      Feedback(true, OnLogin, false, LoginRefusal(s, me, message, payload))))
  }

  lemma LoginAnswer(s: State, me: Session, message: Message, payload: Result<Credentials, string>)
    requires Valid(s) && me in s.sessions
    ensures LoginAnswered(s, me, message, payload, Handle(s, me, message, Login(payload)))
  {
    hide Agree, DistinctAccounts, DistinctIds, Enter, OneReply, Tell, LoggedInAs;
    var t := Handle(s, me, message, Login(payload));
    forall u | AsStranger(me, message) && Opens(s, payload, u)
      ensures LoggedInAs(s, me, u, t)
    {
      SameName(s.users, s.nextUser, u, FindName(s.users, payload.value.username).value);
      EnterAnswer(s, me, u);
    }
    if payload.Ok? && FindName(s.users, payload.value.username).Some? {
      assert !Opens(s, payload, FindName(s.users, payload.value.username).value) ==>
          FindName(s.users, payload.value.username).value.password != payload.value.password;
    }
    ReplyIsOneReply(s, me, Feedback(true, OnLogin, false, LoginRefusal(s, me, message, payload)));
  }

  lemma EnterAnswer(s: State, me: Session, u: Account)
    requires DistinctIds(s.sessions) && me in s.sessions && me.user.None?
    ensures LoggedInAs(s, me, u, Enter(s, me, Member(u.id, u.name)))
  {
    hide DistinctIds;
    EnterPointwise(s, me, Member(u.id, u.name));
    forall i | 0 <= i < |s.sessions| && s.sessions[i].id == me.id
      ensures s.sessions[i] == me
    {
      SameSession(s.sessions, s.sessions[i], me);
    }
  }

  // ------------------------------------------------------------------ who is online

  /** The list is the users of the connections of other users, in the order of the connections:
      idx tells where each entry comes from. */
  ghost predicate Lists(ss: seq<Session>, except: nat, list: seq<Member>, idx: seq<nat>) {
    && |idx| == |list|
    && (forall k, l :: 0 <= k < l < |idx| ==> idx[k] < idx[l])
    && (forall k :: 0 <= k < |idx| ==>
          idx[k] < |ss| && ss[idx[k]].user == Some(list[k]) && list[k].id != except)
    && (forall i :: 0 <= i < |ss| && ss[i].user.Some? && ss[i].user.value.id != except ==> i in idx)
  }

  lemma OnlineListLast(ss: seq<Session>, except: nat)
    requires ss != []
    ensures var n := |ss| - 1;
            OnlineList(ss, except) == OnlineList(ss[..n], except)
              + if ss[n].user.Some? && ss[n].user.value.id != except then [ss[n].user.value] else []
  {}

  lemma ListsOne(ss: seq<Session>, except: nat, list: seq<Member>, idx: seq<nat>)
    requires ss != [] && Lists(ss[..|ss| - 1], except, list, idx)
    ensures var n := |ss| - 1;
            if ss[n].user.Some? && ss[n].user.value.id != except then
              Lists(ss, except, list + [ss[n].user.value], idx + [n])
            else Lists(ss, except, list, idx)
  {
    var n := |ss| - 1;
    if ss[n].user.Some? && ss[n].user.value.id != except {
      forall i | 0 <= i < |ss| && ss[i].user.Some? && ss[i].user.value.id != except
        ensures i in idx + [n]
      {
        if i < n {
          assert ss[..n][i] == ss[i];
        }
      }
    } else {
      forall i | 0 <= i < |ss| && ss[i].user.Some? && ss[i].user.value.id != except
        ensures i in idx
      {
        assert ss[..n][i] == ss[i];
      }
    }
  }

  lemma {:induction false} OnlineListIs(ss: seq<Session>, except: nat) returns (idx: seq<nat>)
    ensures Lists(ss, except, OnlineList(ss, except), idx)
    decreases |ss|
  {
    idx := [];
    if ss != [] {
      hide OnlineList, Lists;
      var n := |ss| - 1;
      idx := OnlineListIs(ss[..n], except);
      OnlineListLast(ss, except);
      ListsOne(ss, except, OnlineList(ss[..n], except), idx);
      if ss[n].user.Some? && ss[n].user.value.id != except {
        idx := idx + [n];
      } else {
        assert OnlineList(ss[..n], except) + [] == OnlineList(ss[..n], except);
      }
    }
  }

  ghost predicate OnlineAnswered(s: State, me: Session, message: Message, t: State) {
    && t == s.(sessions := t.sessions)
    && if AsUser(me, message) then
         exists list, idx ::
           Lists(s.sessions, me.user.value.id, list, idx) && OneReply(s.sessions, t.sessions, me.id, UserOnline(list))
       else OneReply(s.sessions, t.sessions, me.id, Feedback(true, OnGetUserOnline, false, UserRefusal(me)))
  }

  lemma OnlineAnswer(s: State, me: Session, message: Message)
    ensures OnlineAnswered(s, me, message, Handle(s, me, message, GetUserOnline))
  {
    hide OneReply, Tell, Lists, OnlineList;
    ReplyIsOneReply(s, me, Feedback(true, OnGetUserOnline, false, UserRefusal(me)));
    if AsUser(me, message) {
      var list := OnlineList(s.sessions, me.user.value.id);
      var idx := OnlineListIs(s.sessions, me.user.value.id);
      ReplyIsOneReply(s, me, UserOnline(list));
      assert Lists(s.sessions, me.user.value.id, list, idx);
    }
  }

  // ------------------------------------------------------------------------ details

  ghost predicate DetailsAnswered(s: State, me: Session, message: Message, payload: Result<nat, string>, t: State) {
    && t == s.(sessions := t.sessions)
    && (forall u :: AsUser(me, message) && payload.Ok? && u in s.users && u.id == payload.value ==>
          OneReply(s.sessions, t.sessions, me.id, UserDetails(u.id, u.name, u.publicKey)))
    && (!AsUser(me, message) || payload.Err? || (forall u <- s.users :: u.id != payload.value) ==>
          OneReply(s.sessions, t.sessions, me.id,
                   Feedback(true, OnGetUserDetails, false,
                            if !AsUser(me, message) then UserRefusal(me)
                            else if payload.Err? then "the message you sent is malformed"
                            else "you are not registered")))
  }

  lemma DetailsAnswer(s: State, me: Session, message: Message, payload: Result<nat, string>)
    requires Valid(s)
    ensures DetailsAnswered(s, me, message, payload, Handle(s, me, message, GetUserDetails(payload)))
  {
    hide OneReply, Tell, Agree, DistinctIds, DistinctAccounts;
    if payload.Ok? && FindUser(s.users, payload.value).Some? {
      var found := FindUser(s.users, payload.value).value;
      forall u | u in s.users && u.id == payload.value
        ensures u == found
      {
        SameName(s.users, s.nextUser, u, found);
      }
      ReplyIsOneReply(s, me, UserDetails(found.id, found.name, found.publicKey));
    }
    ReplyIsOneReply(s, me, Feedback(true, OnGetUserDetails, false, UserRefusal(me)));
    ReplyIsOneReply(s, me, Feedback(true, OnGetUserDetails, false, "the message you sent is malformed"));
    ReplyIsOneReply(s, me, Feedback(true, OnGetUserDetails, false, "you are not registered"));
  }

  // ------------------------------------------------------------------- storing a key

  /** The key of the user who asks changes, and success is told, exactly when the request is
      acceptable. */
  ghost predicate StoreKeyAnswered(s: State, me: Session, message: Message, payload: Result<seq<byte>, string>,
                                   t: State) {
    && t == s.(sessions := t.sessions, users := t.users)
    && if AsUser(me, message) && payload.Ok? then
         && |t.users| == |s.users|
         && (forall i :: 0 <= i < |s.users| ==>
               var u := s.users[i];
               t.users[i] == Account(u.id, u.name, u.password,
                                     if u.id == me.user.value.id then payload.value else u.publicKey))
         && OneReply(s.sessions, t.sessions, me.id, Feedback(true, OnStorePublicKey, true, ""))
       else
         && t.users == s.users
         && OneReply(s.sessions, t.sessions, me.id,
                     Feedback(true, OnStorePublicKey, false,
                              if !AsUser(me, message) then UserRefusal(me) else payload.error))
  }

  lemma StoreKeyAnswer(s: State, me: Session, message: Message, payload: Result<seq<byte>, string>)
    ensures StoreKeyAnswered(s, me, message, payload, Handle(s, me, message, StorePublicKey(payload)))
  {
    hide OneReply, Tell;
    ReplyIsOneReply(s, me, Feedback(true, OnStorePublicKey, true, ""));
    ReplyIsOneReply(s, me, Feedback(true, OnStorePublicKey, false, UserRefusal(me)));
    if payload.Err? {
      ReplyIsOneReply(s, me, Feedback(true, OnStorePublicKey, false, payload.error));
    }
  }

  // -------------------------------------------------------------------------- files

  /** The user that bytes 12 and 13 of a header name. */
  function Target(message: Message): nat {
    message.header[12] as nat + 256 * message.header[13] as nat
  }

  /** A file's copy: the sender's id in bytes 12 and 13, and every other byte the same. */
  ghost predicate IsCopy(message: Message, sender: nat, copy: Message) {
    && copy.body == message.body
    && copy.header[12] as nat == sender % 256 && copy.header[13] as nat == sender / 256 % 256
    && forall i :: 0 <= i < 16 && i != 12 && i != 13 ==> copy.header[i] == message.header[i]
  }

  function FileRefused(me: Session, message: Message): Out {
    if me.user.None? then Feedback(false, OnSendFile, false, "you need to authenticate first to do this action")
    else if message.header[10] != 0 then Feedback(false, OnSendFile, false, "the message shouldn't be encrypted")
    else Feedback(true, OnSendFile, false, "User with those id is not found")
  }

  /** A file that names a user who is online goes to every connection of that user and to no
      other one, and the sender is told; any other one goes nowhere. */
  ghost predicate FileAnswered(s: State, me: Session, message: Message, t: State) {
    && t == s.(sessions := t.sessions)
    && if me.user.Some? && message.header[10] == 0 && (exists a :: a in s.sessions && Is(a, Target(message))) then
         && |t.sessions| == |s.sessions|
         && exists copy :: IsCopy(message, me.user.value.id, copy) && forall i :: 0 <= i < |s.sessions| ==>
              t.sessions[i] == WithFile(s.sessions[i], me, Target(message), copy)
       else OneReply(s.sessions, t.sessions, me.id, FileRefused(me, message))
  }

  function WithFile(a: Session, me: Session, target: nat, copy: Message): Session {
    Session(a.id, a.user, a.outbox + (if Is(a, target) then [File(copy)] else [])
                                   + (if a.id == me.id then [Feedback(true, OnSendFile, true, "")] else []))
  }

  lemma TargetIs(message: Message)
    ensures Parse(message.header).opponentId == Target(message)
  {
    var bs := message.header[12..14];
    assert bs[1..] == [bs[1]] && [bs[1]][1..] == [];
    assert LeNat([bs[1]]) == bs[1] as nat + 256 * LeNat([]);
  }

  lemma CopyIs(message: Message, sender: nat)
    ensures IsCopy(message, sender, WithOpponent(message, sender))
  {
    hide LeBytes;
    ByteOfNat(sender % 256);
    ByteOfNat(sender / 256 % 256);
    TwoBytesAre(sender);
  }

  lemma FileAnswer(s: State, me: Session, message: Message)
    requires Valid(s) && me in s.sessions
    ensures FileAnswered(s, me, message, Handle(s, me, message, SendFile))
  {
    hide OneReply, Tell, FanOut, WithOpponent, Agree, DistinctIds, DistinctAccounts, LeNat;
    TargetIs(message);
    CopyIs(message, if me.user.Some? then me.user.value.id else 0);
    OnlineIff(s, Target(message));
    ReplyIsOneReply(s, me, FileRefused(me, message));
    if Accepts(s, me, message) {
      FileFanOut(s, me, message);
      var copy := WithOpponent(message, me.user.value.id);
      forall i | 0 <= i < |s.sessions|
        ensures Handle(s, me, message, SendFile).sessions[i] == WithFile(s.sessions[i], me, Target(message), copy)
      {
      }
      assert IsCopy(message, me.user.value.id, copy);
    }
  }

  // --------------------------------------------------------------------- every event

  /** What the handling of a request must leave, whichever request it is. */
  ghost predicate IsAnswer(s: State, me: Session, message: Message, request: Request, t: State) {
    match request
    case Login(p) => LoginAnswered(s, me, message, p, t)
    case Register(p) => RegisterAnswered(s, me, message, p, t)
    case GetUserOnline => OnlineAnswered(s, me, message, t)
    case GetUserDetails(p) => DetailsAnswered(s, me, message, p, t)
    case StorePublicKey(p) => StoreKeyAnswered(s, me, message, p, t)
    case SendFile => FileAnswered(s, me, message, t)
    case Unexpected => t == s
  }

  lemma EveryAnswerIs(s: State, me: Session, message: Message, request: Request)
    requires Valid(s) && me in s.sessions
    ensures IsAnswer(s, me, message, request, Handle(s, me, message, request))
  {
    hide Valid, Handle, LoginAnswered, RegisterAnswered, OnlineAnswered, DetailsAnswered, StoreKeyAnswered,
      FileAnswered;
    match request
    case Login(p) => LoginAnswer(s, me, message, p);
    case Register(p) => RegisterAnswer(s, me, message, p);
    case GetUserOnline => OnlineAnswer(s, me, message);
    case GetUserDetails(p) => DetailsAnswer(s, me, message, p);
    case StorePublicKey(p) => StoreKeyAnswer(s, me, message, p);
    case SendFile => FileAnswer(s, me, message);
    case Unexpected => UnexpectedChangesNothing(s, me, message);
  }

  lemma UnexpectedChangesNothing(s: State, me: Session, message: Message)
    ensures Handle(s, me, message, Unexpected) == s
  {}

  // ------------------------------------------------------------------------- closing

  /** No other connection is logged in as the same user. */
  ghost predicate IsLast(s: State, me: Session) {
    me.user.Some? && forall a <- s.sessions :: a.id != me.id ==> !Is(a, me.user.value.id)
  }

  /** With the last connection of a user, connections of other users are told who left. */
  ghost function AfterClose(s: State, me: Session, a: Session): Session {
    if IsLast(s, me) && a.user.Some? && a.user.value.id != me.user.value.id then
      Session(a.id, a.user, a.outbox + [UserLogout(me.user.value.id)])
    else a
  }

  /** The connection goes, the others stay in their order, and its user goes offline with the last
      connection. */
  ghost predicate IsClosed(s: State, me: Session, t: State) {
    && t == s.(sessions := t.sessions, online := t.online)
    && (exists k :: 0 <= k < |s.sessions| && s.sessions[k] == me && Remain(s, me, k, t.sessions))
    && (forall u :: u in t.online <==> u in s.online && !(IsLast(s, me) && Is(me, u)))
    && (forall u :: u in t.online && !Is(me, u) ==> t.online[u] == s.online[u])
    && (forall u :: u in t.online && Is(me, u) ==> forall c :: c in t.online[u] <==> c in s.online[u] && c != me.id)
  }

  ghost predicate Remain(s: State, me: Session, k: nat, tt: seq<Session>)
    requires k < |s.sessions|
  {
    && |tt| == |s.sessions| - 1
    && (forall i :: 0 <= i < k ==> tt[i] == AfterClose(s, me, s.sessions[i]))
    && (forall i :: k <= i < |tt| ==> tt[i] == AfterClose(s, me, s.sessions[i + 1]))
  }

  lemma EraseLast(ss: seq<Session>, id: nat)
    requires ss != []
    ensures var n := |ss| - 1;
            && (ss[n].id == id ==> EraseSession(ss, id) == EraseSession(ss[..n], id))
            && (ss[n].id != id ==> EraseSession(ss, id) == EraseSession(ss[..n], id) + [ss[n]])
  {}

  lemma Unsplit(ss: seq<Session>)
    requires ss != []
    ensures ss == ss[..|ss| - 1] + [ss[|ss| - 1]]
  {}

  lemma {:induction false} EraseNobody(ss: seq<Session>, id: nat)
    requires forall i :: 0 <= i < |ss| ==> ss[i].id != id
    ensures EraseSession(ss, id) == ss
    decreases |ss|
  {
    if ss != [] {
      hide EraseSession;
      EraseLast(ss, id);
      EraseNobody(ss[..|ss| - 1], id);
      Unsplit(ss);
    }
  }

  /** ss without its k-th connection. */
  ghost predicate IsWithout(ss: seq<Session>, k: nat, tt: seq<Session>) {
    && |tt| == |ss| - 1
    && (forall i :: 0 <= i < k && i < |tt| ==> tt[i] == ss[i])
    && (forall i :: k <= i < |tt| ==> tt[i] == ss[i + 1])
  }

  lemma WithoutLater(ss: seq<Session>, k: nat, tt: seq<Session>)
    requires k + 1 < |ss| && IsWithout(ss[..|ss| - 1], k, tt)
    ensures IsWithout(ss, k, tt + [ss[|ss| - 1]])
  {}

  lemma WithoutLast(ss: seq<Session>)
    requires ss != []
    ensures IsWithout(ss, |ss| - 1, ss[..|ss| - 1])
  {}

  lemma {:induction false} EraseOne(ss: seq<Session>, k: nat)
    requires k < |ss| && forall i :: 0 <= i < |ss| && i != k ==> ss[i].id != ss[k].id
    ensures IsWithout(ss, k, EraseSession(ss, ss[k].id))
    decreases |ss|
  {
    hide EraseSession, IsWithout;
    var n := |ss| - 1;
    EraseLast(ss, ss[k].id);
    if k == n {
      EraseNobody(ss[..n], ss[k].id);
      WithoutLast(ss);
    } else {
      EraseOne(ss[..n], k);
      WithoutLater(ss, k, EraseSession(ss[..n], ss[k].id));
    }
  }

  lemma LastIff(s: State, me: Session)
    requires Agree(s) && DistinctIds(s.sessions) && me in s.sessions && me.user.Some?
    ensures IsLast(s, me) <==> Erase(ConnectionsOf(s.online, me.user.value.id), me.id) == []
  {
    hide DistinctIds;
    var user := me.user.value.id;
    var left := Erase(ConnectionsOf(s.online, user), me.id);
    if left != [] {
      assert left[0] in left && LoggedIn(s.sessions, left[0], user);
      var b :| b in s.sessions && b.id == left[0] && Is(b, user);
      assert b.id != me.id;
    }
    forall a | a in s.sessions && a.id != me.id && Is(a, user)
      ensures a.id in left
    {
      assert LoggedIn(s.sessions, a.id, user);
    }
  }

  lemma PartingIs(s: State, me: Session, i: nat)
    requires Agree(s) && DistinctIds(s.sessions) && me in s.sessions && i < |s.sessions|
    ensures i < |Parting(s, me)| && Parting(s, me)[i] == AfterClose(s, me, s.sessions[i])
  {
    hide Agree, DistinctIds, Erase;
    if me.user.Some? {
      LastIff(s, me);
    }
  }

  lemma OnlineAfterClose(s: State, me: Session)
    requires Agree(s) && DistinctIds(s.sessions) && me in s.sessions
    ensures var t := Close(s, me);
            && (forall u :: u in t.online <==> u in s.online && !(IsLast(s, me) && Is(me, u)))
            && (forall u :: u in t.online && !Is(me, u) ==> t.online[u] == s.online[u])
            && (forall u :: u in t.online && Is(me, u) ==>
                  forall c :: c in t.online[u] <==> c in s.online[u] && c != me.id)
  {
    hide Agree, DistinctIds, IsLast, Broadcast, EraseSession;
    if me.user.Some? {
      LastIff(s, me);
      ListedIffIs(s, me, me.user.value.id);
    }
  }

  lemma OnlyOne(ss: seq<Session>, k: nat)
    requires DistinctIds(ss) && k < |ss|
    ensures forall i :: 0 <= i < |ss| && i != k ==> ss[i].id != ss[k].id
  {}

  lemma SessionsAfterClose(s: State, me: Session, k: nat)
    requires Agree(s) && DistinctIds(s.sessions) && k < |s.sessions| && s.sessions[k] == me
    ensures Remain(s, me, k, Close(s, me).sessions)
  {
    hide Agree, DistinctIds, Close, Parting, AfterClose, EraseSession;
    var parting := Parting(s, me);
    PartingPointwise(s, me);
    DistinctKept(s.sessions, parting);
    OnlyOne(parting, k);
    EraseOne(parting, k);
    forall i | 0 <= i < |s.sessions|
      ensures parting[i] == AfterClose(s, me, s.sessions[i])
    {
      PartingIs(s, me, i);
    }
  }

  lemma CloseAnswer(s: State, me: Session)
    requires Valid(s) && me in s.sessions
    ensures IsClosed(s, me, Close(s, me))
  {
    hide Agree, DistinctAccounts, DistinctIds, Close, Remain, IsLast;
    var k :| 0 <= k < |s.sessions| && s.sessions[k] == me;
    PartingPointwise(s, me);
    SessionsAfterClose(s, me, k);
    OnlineAfterClose(s, me);
  }
}
