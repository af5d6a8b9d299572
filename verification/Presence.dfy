/** What the server's registry keeps in every run, and what clients can conclude from it. */
module Presence {
  import opened Wrappers
  import opened Convert
  import opened Framing
  import opened Registry

  // ---------------------------------------------------------------------- invariant

  predicate Is(a: Session, user: nat) {
    a.user.Some? && a.user.value.id == user
  }

  ghost predicate LoggedIn(ss: seq<Session>, id: nat, user: nat) {
    exists a :: a in ss && a.id == id && Is(a, user)
  }

  predicate NoDup(ids: seq<nat>) {
    forall i, j :: 0 <= i < j < |ids| ==> ids[i] != ids[j]
  }

  /** A user is online exactly when some connection is logged in as that user, and is then
      listed with exactly those connections, each once. */
  ghost predicate Agree(s: State) {
    && (forall u :: u in s.online ==> s.online[u] != [] && NoDup(s.online[u]))
    && (forall u: nat, c: nat :: c in ConnectionsOf(s.online, u) <==> LoggedIn(s.sessions, c, u))
  }

  ghost predicate DistinctIds(ss: seq<Session>) {
    forall i, j :: 0 <= i < j < |ss| ==> ss[i].id != ss[j].id
  }

  /** Accounts differ in id and in name, and no id is the server's. */
  ghost predicate DistinctAccounts(users: seq<Account>, next: nat) {
    && (forall u :: u in users ==> 1 <= u.id < next)
    && (forall i, j :: 0 <= i < j < |users| ==> users[i].id != users[j].id && users[i].name != users[j].name)
  }

  ghost predicate HasAccount(users: seq<Account>, m: Member) {
    exists u :: u in users && u.id == m.id && u.name == m.name
  }

  ghost predicate Valid(s: State) {
    && Agree(s)
    && DistinctIds(s.sessions)
    && (forall a :: a in s.sessions ==>
          1 <= a.id < s.nextConnection && (a.user.Some? ==> HasAccount(s.users, a.user.value)))
    && 1 <= s.nextConnection && 1 <= s.nextUser && DistinctAccounts(s.users, s.nextUser)
  }

  // ------------------------------------------------------------ presence of others

  function Apply(online: set<nat>, out: Out): set<nat> {
    match out
    case UserLogin(m) => online + {m.id}
    case UserLogout(id) => online - {id}
    case _ => online
  }

  /** The users a client takes to be online after the messages it received. */
  function Believed(online: set<nat>, outs: seq<Out>): set<nat> {
    if outs == [] then online
    else
      var n := |outs| - 1;
      Apply(Believed(online, outs[..n]), outs[n])
  }

  predicate IsSignal(out: Out) {
    out.UserLogin? || out.UserLogout?
  }

  /** The connection is the same one later on; a logged-in one is still logged in, has received
      more, and what it received tells it who is online. */
  ghost predicate Follows(a: Session, b: Session, before: set<nat>, after: set<nat>) {
    && b.id == a.id
    && (a.user.Some? ==>
          && b.user == a.user && a.outbox <= b.outbox
          && Believed(before - {a.user.value.id}, b.outbox[|a.outbox|..]) == after - {a.user.value.id})
  }

  /** Holds of every connection that is there before and after. */
  ghost predicate Faithful(s: State, t: State) {
    forall a, b :: a in s.sessions && b in t.sessions && a.id == b.id ==> Follows(a, b, s.online.Keys, t.online.Keys)
  }

  /** A connection that is there afterwards was there before or is new. */
  ghost predicate Fresh(s: State, t: State) {
    s.nextConnection <= t.nextConnection && forall b :: b in t.sessions ==>
        HasId(s.sessions, b.id) || b.id >= s.nextConnection
  }

  lemma {:induction false} BelievedConcat(online: set<nat>, d: seq<Out>, e: seq<Out>)
    ensures Believed(online, d + e) == Believed(Believed(online, d), e)
    decreases |e|
  {
    if e == [] {
      assert d + e == d;
    } else {
      var n := |e| - 1;
      BelievedConcat(online, d, e[..n]);
      assert (d + e)[..|d + e| - 1] == d + e[..n];
    }
  }

  lemma BelievedOne(online: set<nat>, outbox: seq<Out>, out: Out)
    ensures Believed(online, (outbox + [out])[|outbox|..]) == Apply(online, out)
  {
    assert (outbox + [out])[|outbox|..] == [out];
    assert Believed(online, []) == online && [out][..0] == [];
  }

  lemma BelievedNone(online: set<nat>, outbox: seq<Out>)
    ensures Believed(online, outbox[|outbox|..]) == online
  {}

  lemma FollowsFurther(a: Session, b: Session, c: Session, k0: set<nat>, k1: set<nat>, k2: set<nat>)
    requires Follows(a, b, k0, k1) && Follows(b, c, k1, k2)
    ensures Follows(a, c, k0, k2)
  {
    if a.user.Some? {
      var d, e := b.outbox[|a.outbox|..], c.outbox[|b.outbox|..];
      BelievedConcat(k0 - {a.user.value.id}, d, e);
      assert c.outbox[|a.outbox|..] == d + e;
    }
  }

  lemma HasIdOf(ss: seq<Session>, a: Session)
    requires a in ss
    ensures HasId(ss, a.id)
  {}

  lemma SessionWithId(ss: seq<Session>, id: nat) returns (a: Session)
    requires HasId(ss, id)
    ensures a in ss && a.id == id
  {
    var i :| 0 <= i < |ss| && ss[i].id == id;
    a := ss[i];
  }

  lemma FaithfulFurther(s: State, t: State, v: State)
    requires Faithful(s, t) && Fresh(s, t) && Faithful(t, v) && Fresh(t, v)
    requires forall a :: a in s.sessions ==> a.id < s.nextConnection
    ensures Faithful(s, v) && Fresh(s, v)
  {
    hide Follows;
    forall a, c | a in s.sessions && c in v.sessions && a.id == c.id
      ensures Follows(a, c, s.online.Keys, v.online.Keys)
    {
      assert HasId(t.sessions, c.id);
      var b := SessionWithId(t.sessions, c.id);
      FollowsFurther(a, b, c, s.online.Keys, t.online.Keys, v.online.Keys);
    }
    forall c | c in v.sessions
      ensures HasId(s.sessions, c.id) || c.id >= s.nextConnection
    {
      if HasId(t.sessions, c.id) {
        var b := SessionWithId(t.sessions, c.id);
      }
    }
  }

  // ------------------------------------------------------------- steps, in general

  ghost predicate SameLogins(ss: seq<Session>, tt: seq<Session>) {
    |ss| == |tt| && forall i :: 0 <= i < |ss| ==> tt[i].id == ss[i].id && tt[i].user == ss[i].user
  }

  lemma LoginsKept(ss: seq<Session>, tt: seq<Session>, id: nat, user: nat)
    requires SameLogins(ss, tt)
    ensures LoggedIn(ss, id, user) <==> LoggedIn(tt, id, user)
  {
    if LoggedIn(ss, id, user) {
      var a :| a in ss && a.id == id && Is(a, user);
      var i :| 0 <= i < |ss| && ss[i] == a;
      assert tt[i] in tt;
    }
    if LoggedIn(tt, id, user) {
      var a :| a in tt && a.id == id && Is(a, user);
      var i :| 0 <= i < |tt| && tt[i] == a;
      assert ss[i] in ss;
    }
  }

  lemma SameSession(ss: seq<Session>, a: Session, b: Session)
    requires DistinctIds(ss) && a in ss && b in ss && a.id == b.id
    ensures a == b
  {}

  /** A step that only writes to connections, each one told d[i] messages. */
  lemma FaithfulPointwise(s: State, t: State)
    requires DistinctIds(s.sessions) && |t.sessions| == |s.sessions| && t.nextConnection == s.nextConnection
    requires forall i :: 0 <= i < |s.sessions| ==> Follows(s.sessions[i], t.sessions[i], s.online.Keys, t.online.Keys)
    ensures Faithful(s, t) && Fresh(s, t)
  {
    var ss, tt := s.sessions, t.sessions;
    forall a, b | a in ss && b in tt && a.id == b.id
      ensures Follows(a, b, s.online.Keys, t.online.Keys)
    {
      var i :| 0 <= i < |ss| && ss[i] == a;
      var j :| 0 <= j < |tt| && tt[j] == b;
      assert ss[j].id == b.id;
    }
    forall b | b in tt
      ensures HasId(ss, b.id)
    {
      var j :| 0 <= j < |tt| && tt[j] == b;
      assert ss[j].id == b.id;
    }
  }

  /** A step that changes neither logins nor the registry, and gives out account data only. */
  lemma ValidQuiet(s: State, t: State)
    requires Valid(s) && SameLogins(s.sessions, t.sessions) && t.online == s.online
        && t.nextConnection == s.nextConnection
    requires 1 <= t.nextUser && DistinctAccounts(t.users, t.nextUser)
    requires forall m: Member :: HasAccount(s.users, m) ==> HasAccount(t.users, m)
    ensures Valid(t)
  {
    forall u: nat, c: nat
      ensures c in ConnectionsOf(t.online, u) <==> LoggedIn(t.sessions, c, u)
    {
      LoginsKept(s.sessions, t.sessions, c, u);
    }
    forall a | a in t.sessions
      ensures 1 <= a.id < t.nextConnection && (a.user.Some? ==> HasAccount(t.users, a.user.value))
    {
      var i :| 0 <= i < |t.sessions| && t.sessions[i] == a;
      assert s.sessions[i] in s.sessions;
    }
  }

  lemma TellIsQuiet(a: Session, id: nat, out: Out, online: set<nat>)
    requires !IsSignal(out)
    ensures Follows(a, TellOne(a, id, out), online, online)
  {
    if a.user.Some? {
      BelievedOne(online - {a.user.value.id}, a.outbox, out);
      BelievedNone(online - {a.user.value.id}, a.outbox);
    }
  }

  /** Replies keep everything: only accounts may have changed beside them. */
  lemma ReplyKeeps(s: State, t: State, me: Session, out: Out)
    requires Valid(s) && !IsSignal(out)
    requires t.sessions == s.sessions && t.online == s.online && t.nextConnection == s.nextConnection
    requires 1 <= t.nextUser && DistinctAccounts(t.users, t.nextUser)
    requires forall m: Member :: HasAccount(s.users, m) ==> HasAccount(t.users, m)
    ensures Valid(Reply(t, me, out)) && Faithful(s, Reply(t, me, out)) && Fresh(s, Reply(t, me, out))
  {
    hide Follows, Agree, HasAccount, DistinctAccounts;
    var v := Reply(t, me, out);
    forall i | 0 <= i < |s.sessions|
      ensures Follows(s.sessions[i], v.sessions[i], s.online.Keys, v.online.Keys)
    {
      TellIsQuiet(s.sessions[i], me.id, out, s.online.Keys);
    }
    ValidQuiet(s, v);
    FaithfulPointwise(s, v);
  }

  // ----------------------------------------------------------------- accounts

  lemma NewAccount(s: State, name: string, password: string)
    requires Valid(s) && FindName(s.users, name).None?
    ensures var users := s.users + [Account(s.nextUser, name, password, [])];
            && DistinctAccounts(users, s.nextUser + 1)
            && forall m: Member :: HasAccount(s.users, m) ==> HasAccount(users, m)
  {
    var users := s.users + [Account(s.nextUser, name, password, [])];
    forall m: Member | HasAccount(s.users, m)
      ensures HasAccount(users, m)
    {
      var u :| u in s.users && u.id == m.id && u.name == m.name;
      assert u in users;
    }
    forall i, j | 0 <= i < j < |users|
      ensures users[i].id != users[j].id && users[i].name != users[j].name
    {
      assert users[i] in s.users;
    }
  }

  lemma KeyKeepsAccounts(s: State, id: nat, key: seq<byte>)
    requires Valid(s)
    ensures var users := StoreKey(s.users, id, key);
            DistinctAccounts(users, s.nextUser) && forall m: Member :: HasAccount(s.users, m) ==> HasAccount(users, m)
  {
    var users := StoreKey(s.users, id, key);
    forall m: Member | HasAccount(s.users, m)
      ensures HasAccount(users, m)
    {
      var u :| u in s.users && u.id == m.id && u.name == m.name;
      var i :| 0 <= i < |s.users| && s.users[i] == u;
      assert users[i] in users;
    }
    forall u | u in users
      ensures 1 <= u.id < s.nextUser
    {
      var i :| 0 <= i < |users| && users[i] == u;
      assert s.users[i] in s.users;
    }
  }

  // ----------------------------------------------------------------- file fan-out

  lemma NoDupPrefix(ids: seq<nat>)
    requires NoDup(ids) && ids != []
    ensures NoDup(ids[..|ids| - 1]) && ids[|ids| - 1] !in ids[..|ids| - 1]
  {}

  /** Each listed connection gets one copy, and no other connection gets any. */
  lemma {:induction false} FanOutOnce(ss: seq<Session>, ids: seq<nat>, out: Out, i: nat)
    requires NoDup(ids) && i < |ss|
    ensures FanOut(ss, ids, out)[i] == if ss[i].id in ids then ss[i].(outbox := ss[i].outbox + [out]) else ss[i]
    decreases |ids|
  {
    if ids == [] {
    } else {
      var n := |ids| - 1;
      NoDupPrefix(ids);
      FanOutOnce(ss, ids[..n], out, i);
      assert ss[i].id in ids <==> ss[i].id in ids[..n] || ss[i].id == ids[n];
    }
  }

  lemma ListedIffIs(s: State, a: Session, user: nat)
    requires Agree(s) && DistinctIds(s.sessions) && a in s.sessions
    ensures a.id in ConnectionsOf(s.online, user) <==> Is(a, user)
  {
    if LoggedIn(s.sessions, a.id, user) {
      var b :| b in s.sessions && b.id == a.id && Is(b, user);
      SameSession(s.sessions, a, b);
    }
  }

  ghost predicate Accepts(s: State, me: Session, message: Message) {
    && me.user.Some? && Parse(message.header).encryption == ENCRYPTION_NONE
    && Parse(message.header).opponentId in s.online
  }

  /** What an accepted file leaves in the queue of a connection: one copy of the message when it
      is logged in as the target, and the confirmation when it is the sender's own. */
  function FileAndReply(a: Session, me: Session, message: Message): seq<Out>
    requires me.user.Some?
  {
    (if Is(a, Parse(message.header).opponentId) then [File(WithOpponent(message, me.user.value.id))] else []) +
    (if a.id == me.id then [Feedback(true, OnSendFile, true, "")] else [])
  }

  lemma FileFanOut(s: State, me: Session, message: Message)
    requires Valid(s) && me in s.sessions && Accepts(s, me, message)
    ensures var t := HandleSendFile(s, me, message);
            && t == s.(sessions := t.sessions) && |t.sessions| == |s.sessions|
            && forall i :: 0 <= i < |s.sessions| ==>
                 var a := s.sessions[i]; t.sessions[i] == a.(outbox := a.outbox + FileAndReply(a, me, message))
    ensures forall c :: c in s.online[Parse(message.header).opponentId] ==> HasId(s.sessions, c)
    ensures var copy, sender := WithOpponent(message, me.user.value.id), me.user.value.id;
            && copy.body == message.body
            && Parse(copy.header) == Parse(message.header).(opponentId := sender % 65536)
            && (sender < 65536 ==> Parse(copy.header).opponentId == sender)
  {
    hide Parse, WithOpponent;
    OnlyOpponentChanges(message, me.user.value.id);
    var target := Parse(message.header).opponentId;
    var copy := File(WithOpponent(message, me.user.value.id));
    var t := HandleSendFile(s, me, message);
    forall i | 0 <= i < |s.sessions|
      ensures t.sessions[i] == s.sessions[i].(outbox := s.sessions[i].outbox + FileAndReply(s.sessions[i], me, message))
    {
      FanOutOnce(s.sessions, s.online[target], copy, i);
      ListedIffIs(s, s.sessions[i], target);
    }
    forall c | c in s.online[target]
      ensures HasId(s.sessions, c)
    {
      assert LoggedIn(s.sessions, c, target);
      var a :| a in s.sessions && a.id == c && Is(a, target);
      HasIdOf(s.sessions, a);
    }
  }

  /** The answer to a file that is not accepted: what is wrong with the sender comes first, then
      what is wrong with the message, and only the last answer is encrypted. */
  function FileRefusal(me: Session, message: Message): Out {
    if me.user.None? then Feedback(false, OnSendFile, false, UNAUTHENTICATED_MESSAGE)
    else if Parse(message.header).encryption != ENCRYPTION_NONE then
      Feedback(false, OnSendFile, false, MESSAGE_SHOULD_NOT_ENCRYPTED)
    else Feedback(true, OnSendFile, false, USER_ID_NOT_FOUND)
  }

  ghost predicate GotFile(a: Session, b: Session) {
    exists k :: |a.outbox| <= k < |b.outbox| && b.outbox[k].File?
  }

  /** A file reaches somebody exactly when it is accepted; otherwise its refusal is all that is
      written. */
  lemma FileDeliveredIff(s: State, me: Session, message: Message)
    requires Valid(s) && me in s.sessions
    ensures var t := HandleSendFile(s, me, message);
            && |t.sessions| == |s.sessions|
            && (Accepts(s, me, message) <==> exists i :: 0 <= i < |s.sessions| && GotFile(s.sessions[i], t.sessions[i]))
            && (!Accepts(s, me, message) ==> t == Reply(s, me, FileRefusal(me, message)))
  {
    hide Parse, WithOpponent;
    var t := HandleSendFile(s, me, message);
    if Accepts(s, me, message) {
      FileFanOut(s, me, message);
      var c := s.online[Parse(message.header).opponentId][0];
      assert c in ConnectionsOf(s.online, Parse(message.header).opponentId);
      var a :| a in s.sessions && a.id == c && Is(a, Parse(message.header).opponentId);
      var i :| 0 <= i < |s.sessions| && s.sessions[i] == a;
      assert t.sessions[i].outbox[|a.outbox|] == File(WithOpponent(message, me.user.value.id));
      assert GotFile(s.sessions[i], t.sessions[i]);
    }
  }

  lemma {:induction false} NoSignals(online: set<nat>, d: seq<Out>)
    requires forall out <- d :: !IsSignal(out)
    ensures Believed(online, d) == online
    decreases |d|
  {
    if d != [] {
      NoSignals(online, d[..|d| - 1]);
      assert d[|d| - 1] in d;
    }
  }

  lemma FileIsQuiet(a: Session, me: Session, message: Message, online: set<nat>)
    requires me.user.Some?
    ensures Follows(a, a.(outbox := a.outbox + FileAndReply(a, me, message)), online, online)
  {
    hide WithOpponent, Parse;
    var d := FileAndReply(a, me, message);
    if a.user.Some? {
      assert (a.outbox + d)[|a.outbox|..] == d;
      NoSignals(online - {a.user.value.id}, d);
    }
  }

  lemma SendFileKeeps(s: State, me: Session, message: Message)
    requires Valid(s) && me in s.sessions && Accepts(s, me, message)
    ensures var t := HandleSendFile(s, me, message); Valid(t) && Faithful(s, t) && Fresh(s, t)
  {
    hide Follows, Agree, HasAccount, DistinctAccounts, HandleSendFile, FileAndReply;
    FileFanOut(s, me, message);
    var t := HandleSendFile(s, me, message);
    forall i | 0 <= i < |s.sessions|
      ensures Follows(s.sessions[i], t.sessions[i], s.online.Keys, t.online.Keys)
    {
      FileIsQuiet(s.sessions[i], me, message, s.online.Keys);
    }
    ValidSame(s);
    ValidQuiet(s, t);
    FaithfulPointwise(s, t);
  }

  lemma ValidSame(s: State)
    requires Valid(s)
    ensures DistinctAccounts(s.users, s.nextUser)
  {}

  // ----------------------------------------------------------------- entering

  function EnteredOne(a: Session, me: Session, member: Member): Session {
    var told := BroadcastOne(EnterOne(a, me.id, member), UserLogin(member), member.id);
    TellOne(told, me.id, Feedback(true, OnLogin, true, ""))
  }

  lemma EnterPointwise(s: State, me: Session, member: Member)
    ensures var t := Enter(s, me, member);
            |t.sessions| == |s.sessions| && forall i :: 0 <= i < |s.sessions| ==>
                t.sessions[i] == EnteredOne(s.sessions[i], me, member)
  {}

  lemma LoggedInAfterEnter(s: State, me: Session, member: Member, id: nat, user: nat)
    requires DistinctIds(s.sessions) && me in s.sessions && me.user.None?
    ensures LoggedIn(Enter(s, me, member).sessions, id, user) <==>
              LoggedIn(s.sessions, id, user) || (id == me.id && user == member.id)
  {
    var ss, tt := s.sessions, Enter(s, me, member).sessions;
    hide Enter;
    EnterPointwise(s, me, member);
    if LoggedIn(tt, id, user) {
      var b :| b in tt && b.id == id && Is(b, user);
      var i :| 0 <= i < |tt| && tt[i] == b;
      assert ss[i] in ss;
    }
    if LoggedIn(ss, id, user) {
      var a :| a in ss && a.id == id && Is(a, user);
      var i :| 0 <= i < |ss| && ss[i] == a;
      if a.id == me.id {
        SameSession(ss, a, me);
      }
      assert tt[i] in tt;
    }
    if id == me.id && user == member.id {
      var i :| 0 <= i < |ss| && ss[i] == me;
      assert tt[i] in tt;
    }
  }

  lemma NoDupAppend(ids: seq<nat>, id: nat)
    requires NoDup(ids) && id !in ids
    ensures NoDup(ids + [id])
  {}

  lemma EnterAgrees(s: State, me: Session, member: Member)
    requires Agree(s) && DistinctIds(s.sessions) && me in s.sessions && me.user.None?
    ensures Agree(Enter(s, me, member))
  {
    var t := Enter(s, me, member);
    assert t.online == s.online[member.id := ConnectionsOf(s.online, member.id) + [me.id]];
    hide Enter;
    ListedIffIs(s, me, member.id);
    NoDupAppend(ConnectionsOf(s.online, member.id), me.id);
    forall u: nat, c: nat
      ensures c in ConnectionsOf(t.online, u) <==> LoggedIn(t.sessions, c, u)
    {
      LoggedInAfterEnter(s, me, member, c, u);
      assert c in ConnectionsOf(s.online, u) <==> LoggedIn(s.sessions, c, u);
    }
  }

  lemma EnteredFollows(a: Session, me: Session, member: Member, online: set<nat>)
    requires a.id == me.id ==> a.user.None?
    ensures Follows(a, EnteredOne(a, me, member), online, online + {member.id})
  {
    if a.user.Some? {
      var mine := a.user.value.id;
      if mine == member.id {
        BelievedNone(online - {mine}, a.outbox);
      } else {
        BelievedOne(online - {mine}, a.outbox, UserLogin(member));
      }
    }
  }

  lemma EnterIsFaithful(s: State, me: Session, member: Member)
    requires DistinctIds(s.sessions) && me in s.sessions && me.user.None?
    ensures var t := Enter(s, me, member); Faithful(s, t) && Fresh(s, t)
  {
    hide EnteredOne, Follows;
    var ss, t := s.sessions, Enter(s, me, member);
    EnterPointwise(s, me, member);
    assert t.online.Keys == s.online.Keys + {member.id};
    forall i | 0 <= i < |ss|
      ensures Follows(ss[i], t.sessions[i], s.online.Keys, t.online.Keys)
    {
      if ss[i].id == me.id {
        SameSession(ss, ss[i], me);
      }
      EnteredFollows(ss[i], me, member, s.online.Keys);
    }
    FaithfulPointwise(s, t);
  }

  lemma EnterKeeps(s: State, me: Session, member: Member)
    requires Valid(s) && me in s.sessions && me.user.None? && HasAccount(s.users, member)
    ensures var t := Enter(s, me, member); Valid(t) && Faithful(s, t) && Fresh(s, t)
  {
    hide Agree, HasAccount, DistinctAccounts, EnteredOne, Faithful, Fresh;
    EnterAgrees(s, me, member);
    EnterIsFaithful(s, me, member);
    var ss, t := s.sessions, Enter(s, me, member);
    EnterPointwise(s, me, member);
    forall i | 0 <= i < |ss|
      ensures t.sessions[i].id == ss[i].id && (t.sessions[i].user == ss[i].user || t.sessions[i].user == Some(member))
    {
      EnteredUser(ss[i], me, member);
    }
    forall a | a in t.sessions
      ensures 1 <= a.id < t.nextConnection && (a.user.Some? ==> HasAccount(t.users, a.user.value))
    {
      var i :| 0 <= i < |t.sessions| && t.sessions[i] == a;
      assert ss[i] in ss;
    }
  }

  lemma EnteredUser(a: Session, me: Session, member: Member)
    ensures var b := EnteredOne(a, me, member); b.id == a.id && (b.user == a.user || b.user == Some(member))
  {}

  // ----------------------------------------------------------------- leaving

  lemma {:induction false} EraseNoDup(ids: seq<nat>, id: nat)
    requires NoDup(ids)
    ensures NoDup(Erase(ids, id))
    decreases |ids|
  {
    if ids != [] {
      NoDupPrefix(ids);
      EraseNoDup(ids[..|ids| - 1], id);
    }
  }

  lemma {:induction false} EraseSessionDistinct(ss: seq<Session>, id: nat)
    requires DistinctIds(ss)
    ensures DistinctIds(EraseSession(ss, id))
    decreases |ss|
  {
    if ss != [] {
      var n := |ss| - 1;
      EraseSessionDistinct(ss[..n], id);
      var front, all := EraseSession(ss[..n], id), EraseSession(ss, id);
      forall i, j | 0 <= i < j < |all|
        ensures all[i].id != all[j].id
      {
        if j == |front| {
          assert front[i] in ss[..n];
        }
      }
    }
  }

  /** What the others are told while the connection is still there. */
  function Parting(s: State, me: Session): seq<Session> {
    if me.user.Some? then Leave(s, me, me.user.value.id).sessions else s.sessions
  }

  lemma PartingPointwise(s: State, me: Session)
    ensures |Parting(s, me)| == |s.sessions| && SameLogins(s.sessions, Parting(s, me))
    ensures Close(s, me).sessions == EraseSession(Parting(s, me), me.id)
    ensures Close(s, me) == s.(sessions := Close(s, me).sessions, online := Close(s, me).online)
  {}

  lemma LoggedInAfterClose(s: State, me: Session, id: nat, user: nat)
    ensures LoggedIn(Close(s, me).sessions, id, user) <==> LoggedIn(s.sessions, id, user) && id != me.id
  {
    PartingPointwise(s, me);
    LoginsKept(s.sessions, Parting(s, me), id, user);
  }

  lemma ListAfterClose(s: State, me: Session, user: nat)
    requires Agree(s) && DistinctIds(s.sessions) && me in s.sessions
    ensures ConnectionsOf(Close(s, me).online, user) ==
            if Is(me, user) then Erase(ConnectionsOf(s.online, user), me.id) else ConnectionsOf(s.online, user)
  {}

  lemma CloseAgrees(s: State, me: Session)
    requires Agree(s) && DistinctIds(s.sessions) && me in s.sessions
    ensures Agree(Close(s, me))
  {
    var t := Close(s, me);
    hide EraseSession, Broadcast;
    forall u: nat, c: nat
      ensures c in ConnectionsOf(t.online, u) <==> LoggedIn(t.sessions, c, u)
    {
      LoggedInAfterClose(s, me, c, u);
      ListAfterClose(s, me, u);
      ListedIffIs(s, me, u);
      assert c in ConnectionsOf(s.online, u) <==> LoggedIn(s.sessions, c, u);
    }
    forall u | u in t.online
      ensures t.online[u] != [] && NoDup(t.online[u])
    {
      assert u in s.online;
      EraseNoDup(s.online[u], me.id);
    }
  }

  /** While a user's last connection leaves, the others of that user are gone. */
  lemma PartingFollows(s: State, me: Session, i: nat)
    requires Agree(s) && DistinctIds(s.sessions) && me in s.sessions && i < |s.sessions| && s.sessions[i].id != me.id
    ensures Follows(s.sessions[i], Parting(s, me)[i], s.online.Keys, Close(s, me).online.Keys)
  {
    var a, b, keys := s.sessions[i], Parting(s, me)[i], Close(s, me).online.Keys;
    assert a in s.sessions;
    if me.user.Some? {
      var u := me.user.value.id;
      ListedIffIs(s, a, u);
      ListedIffIs(s, me, u);
      assert u in s.online;
      var left := Erase(s.online[u], me.id);
      assert a.id in left <==> Is(a, u);
      if left == [] {
        assert keys == s.online.Keys - {u};
        if a.user.Some? {
          BelievedOne(s.online.Keys - {a.user.value.id}, a.outbox, UserLogout(u));
        }
      } else {
        assert keys == s.online.Keys;
      }
    }
    if a.user.Some? {
      BelievedNone(s.online.Keys - {a.user.value.id}, a.outbox);
    }
  }

  /** Every connection that stays is one that was there, after the parting words. */
  lemma StayedFrom(s: State, me: Session, b: Session) returns (i: nat)
    requires b in Close(s, me).sessions
    ensures i < |s.sessions| == |Parting(s, me)| && Parting(s, me)[i] == b && b.id != me.id
    ensures s.sessions[i].id == b.id && s.sessions[i].user == b.user && s.sessions[i] in s.sessions
  {
    hide Close, Parting;
    PartingPointwise(s, me);
    assert b in Parting(s, me);
    i :| 0 <= i < |Parting(s, me)| && Parting(s, me)[i] == b;
  }

  lemma CloseIsFaithful(s: State, me: Session)
    requires Agree(s) && DistinctIds(s.sessions) && me in s.sessions
    ensures Faithful(s, Close(s, me)) && Fresh(s, Close(s, me))
  {
    hide Agree, Follows, Close, Parting, DistinctIds;
    var t := Close(s, me);
    PartingPointwise(s, me);
    forall a, b | a in s.sessions && b in t.sessions && a.id == b.id
      ensures Follows(a, b, s.online.Keys, t.online.Keys)
    {
      var i := StayedFrom(s, me, b);
      SameSession(s.sessions, a, s.sessions[i]);
      PartingFollows(s, me, i);
    }
    forall b | b in t.sessions
      ensures HasId(s.sessions, b.id)
    {
      var i := StayedFrom(s, me, b);
    }
  }

  lemma CloseKeeps(s: State, me: Session)
    requires Valid(s) && me in s.sessions
    ensures var t := Close(s, me); Valid(t) && Faithful(s, t) && Fresh(s, t)
  {
    hide Agree, HasAccount, DistinctAccounts, DistinctIds, Faithful, Fresh, Close, Parting;
    CloseAgrees(s, me);
    CloseIsFaithful(s, me);
    PartingPointwise(s, me);
    DistinctKept(s.sessions, Parting(s, me));
    EraseSessionDistinct(Parting(s, me), me.id);
    forall b | b in Close(s, me).sessions
      ensures 1 <= b.id < s.nextConnection && (b.user.Some? ==> HasAccount(s.users, b.user.value))
    {
      var i := StayedFrom(s, me, b);
    }
  }

  lemma DistinctKept(ss: seq<Session>, tt: seq<Session>)
    requires DistinctIds(ss) && SameLogins(ss, tt)
    ensures DistinctIds(tt)
  {}

  // ----------------------------------------------------------------- accepting

  lemma AcceptAgrees(s: State)
    requires Agree(s)
    ensures Agree(Accept(s))
  {
    var t, ss := Accept(s), s.sessions;
    forall u: nat, c: nat
      ensures c in ConnectionsOf(t.online, u) <==> LoggedIn(t.sessions, c, u)
    {
      assert c in ConnectionsOf(s.online, u) <==> LoggedIn(ss, c, u);
      assert forall a :: Is(a, u) ==> (a in t.sessions <==> a in ss);
    }
  }

  lemma AcceptKeeps(s: State)
    requires Valid(s)
    ensures Valid(Accept(s)) && Faithful(s, Accept(s)) && Fresh(s, Accept(s))
  {
    hide Agree, HasAccount, DistinctAccounts, Follows;
    AcceptAgrees(s);
    var t, ss := Accept(s), s.sessions;
    forall i, j | 0 <= i < j < |t.sessions|
      ensures t.sessions[i].id != t.sessions[j].id
    {
      assert t.sessions[i] in ss;
    }
    forall a, b | a in ss && b in t.sessions && a.id == b.id
      ensures Follows(a, b, s.online.Keys, t.online.Keys)
    {
      assert b in ss;
      SameSession(ss, a, b);
      FollowsSelf(a, s.online.Keys);
    }
    forall b | b in t.sessions
      ensures HasId(ss, b.id) || b.id >= s.nextConnection
    {
      if b in ss {
        HasIdOf(ss, b);
      }
    }
  }

  lemma FollowsSelf(a: Session, online: set<nat>)
    ensures Follows(a, a, online, online)
  {
    if a.user.Some? {
      BelievedNone(online - {a.user.value.id}, a.outbox);
    }
  }

  lemma NothingKeeps(s: State)
    requires Valid(s)
    ensures Faithful(s, s) && Fresh(s, s)
  {
    hide Follows, Agree;
    forall a | a in s.sessions
      ensures Follows(a, a, s.online.Keys, s.online.Keys)
    {
      FollowsSelf(a, s.online.Keys);
    }
    FaithfulPointwise(s, s);
  }

  // ----------------------------------------------------------------- every run

  lemma LoginKeeps(s: State, me: Session, encryption: byte, payload: Result<Credentials, string>)
    requires Valid(s) && me in s.sessions
    ensures var t := HandleLogin(s, me, encryption, payload); Valid(t) && Faithful(s, t) && Fresh(s, t)
  {
    hide Agree, Faithful, Fresh, Enter, DistinctAccounts, DistinctIds, EnterAll, Reply;
    ValidSame(s);
    forall text: string {
      ReplyKeeps(s, s, me, Feedback(true, OnLogin, false, text));
    }
    if payload.Ok? && me.user.None? {
      var user := FindName(s.users, payload.value.username);
      if user.Some? {
        EnterKeeps(s, me, Member(user.value.id, user.value.name));
      }
    }
  }

  lemma RegisterKeeps(s: State, me: Session, encryption: byte, payload: Result<Credentials, string>)
    requires Valid(s) && me in s.sessions
    ensures var t := HandleRegister(s, me, encryption, payload); Valid(t) && Faithful(s, t) && Fresh(s, t)
  {
    hide Agree, Faithful, Fresh, DistinctAccounts, DistinctIds, HasAccount, Reply;
    ValidSame(s);
    forall text: string {
      ReplyKeeps(s, s, me, Feedback(true, OnRegister, false, text));
    }
    if payload.Ok? && FindName(s.users, payload.value.username).None? {
      NewAccount(s, payload.value.username, payload.value.password);
      var user := Account(s.nextUser, payload.value.username, payload.value.password, []);
      ReplyKeeps(s, s.(users := s.users + [user], nextUser := s.nextUser + 1), me,
                 Feedback(true, OnRegister, true, ""));
    }
  }

  lemma StoreKeyKeeps(s: State, me: Session, encryption: byte, payload: Result<seq<byte>, string>)
    requires Valid(s) && me in s.sessions
    ensures var t := HandleStorePublicKey(s, me, encryption, payload); Valid(t) && Faithful(s, t) && Fresh(s, t)
  {
    hide Agree, Faithful, Fresh, DistinctAccounts, DistinctIds, HasAccount, Reply, StoreKey;
    ValidSame(s);
    forall text: string {
      ReplyKeeps(s, s, me, Feedback(true, OnStorePublicKey, false, text));
    }
    if payload.Ok? && me.user.Some? {
      KeyKeepsAccounts(s, me.user.value.id, payload.value);
      ReplyKeeps(s, s.(users := StoreKey(s.users, me.user.value.id, payload.value)), me,
                 Feedback(true, OnStorePublicKey, true, ""));
    }
  }

  lemma HandleKeeps(s: State, me: Session, message: Message, request: Request)
    requires Valid(s) && me in s.sessions
    ensures var t := Handle(s, me, message, request); Valid(t) && Faithful(s, t) && Fresh(s, t)
  {
    hide Valid, Faithful, Fresh, Reply, Parse, HandleLogin, HandleRegister, HandleStorePublicKey, WithOpponent, FanOut;
    var encryption := Parse(message.header).encryption;
    QuietReplies(s, me);
    match request
    case Login(p) => LoginKeeps(s, me, encryption, p);
    case Register(p) => RegisterKeeps(s, me, encryption, p);
    case GetUserOnline =>
    case GetUserDetails(p) =>
    case StorePublicKey(p) => StoreKeyKeeps(s, me, encryption, p);
    case SendFile =>
      if Accepts(s, me, message) {
        SendFileKeeps(s, me, message);
      }
    case Unexpected => NothingKeeps(s);
  }

  lemma QuietReplies(s: State, me: Session)
    requires Valid(s)
    ensures forall out :: !IsSignal(out) ==>
              Valid(Reply(s, me, out)) && Faithful(s, Reply(s, me, out)) && Fresh(s, Reply(s, me, out))
  {
    hide Agree, Faithful, Fresh, DistinctAccounts, DistinctIds, HasAccount, Reply;
    ValidSame(s);
    forall out | !IsSignal(out)
      ensures Valid(Reply(s, me, out)) && Faithful(s, Reply(s, me, out)) && Fresh(s, Reply(s, me, out))
    {
      ReplyKeeps(s, s, me, out);
    }
  }

  lemma StepKeeps(s: State, e: Event)
    requires Valid(s)
    ensures Valid(StepOn(s, e)) && Faithful(s, StepOn(s, e)) && Fresh(s, StepOn(s, e))
  {
    hide Valid, Faithful, Fresh, Handle, Close, Accept;
    NothingKeeps(s);
    match e
    case Accepted => AcceptKeeps(s);
    case Received(id, message, request) =>
      match FindSession(s.sessions, id) {
        case None =>
        case Some(me) => HandleKeeps(s, me, message, request);
      }
    case Closed(id) =>
      match FindSession(s.sessions, id) {
        case None =>
        case Some(me) => CloseKeeps(s, me);
      }
  }

  lemma {:induction false} RunKeeps(s: State, events: seq<Event>)
    requires Valid(s)
    ensures Valid(Run(s, events)) && Faithful(s, Run(s, events)) && Fresh(s, Run(s, events))
    decreases |events|
  {
    hide Agree, Faithful, Fresh, StepOn, DistinctAccounts, DistinctIds, HasAccount;
    if events == [] {
      NothingKeeps(s);
    } else {
      var t := StepOn(s, events[0]);
      StepKeeps(s, events[0]);
      RunKeeps(t, events[1..]);
      FaithfulFurther(s, t, Run(t, events[1..]));
    }
  }

  /** In every run of the server the registry agrees with the connections, and from any point
      of it on every connection that is logged in there learns from its own messages exactly
      which other users are online, for as long as it stays. */
  lemma PresenceStreamsAreFaithful(before: seq<Event>, since: seq<Event>)
    ensures var s := Run(INITIAL, before); var t := Run(s, since);
            Valid(s) && Valid(t) && Faithful(s, t)
  {
    hide Faithful, Fresh, StepOn, Run;
    InitialIsValid();
    RunKeeps(INITIAL, before);
    RunKeeps(Run(INITIAL, before), since);
  }

  lemma InitialIsValid()
    ensures Valid(INITIAL)
  {}

  // ------------------------------------------------------------- what clients are told

  lemma {:induction false} OnlineListHas(ss: seq<Session>, except: nat, id: nat)
    ensures (exists m :: m in OnlineList(ss, except) && m.id == id) <==>
        id != except && exists a :: a in ss && Is(a, id)
    decreases |ss|
  {
    if ss != [] {
      var n := |ss| - 1;
      OnlineListHas(ss[..n], except, id);
      assert ss == ss[..n] + [ss[n]];
      if Is(ss[n], id) && id != except {
        assert ss[n].user.value in OnlineList(ss, except);
      }
      assert forall m :: m in OnlineList(ss[..n], except) ==> m in OnlineList(ss, except);
    }
  }

  /** A key of the registry is a user that some connection is logged in as. */
  lemma OnlineIff(s: State, user: nat)
    requires Agree(s)
    ensures user in s.online <==> exists a :: a in s.sessions && Is(a, user)
  {
    if user in s.online {
      var c := s.online[user][0];
      assert c in ConnectionsOf(s.online, user);
      assert LoggedIn(s.sessions, c, user);
    }
    if a :| a in s.sessions && Is(a, user) {
      assert LoggedIn(s.sessions, a.id, user);
      assert a.id in ConnectionsOf(s.online, user);
    }
  }

  /** The answer to "who is online" names exactly the other users of the registry, so that a
      client can go on from it with the signals it receives. */
  lemma OnlineListIsRegistry(s: State, except: nat)
    requires Valid(s)
    ensures (set m | m in OnlineList(s.sessions, except) :: m.id) == s.online.Keys - {except}
  {
    hide Valid, OnlineList;
    var listed := set m | m in OnlineList(s.sessions, except) :: m.id;
    ValidAgrees(s);
    forall id: nat
      ensures id in listed <==> id in s.online.Keys - {except}
    {
      OnlineListHas(s.sessions, except, id);
      OnlineIff(s, id);
    }
  }

  /** In every run, a client that asks who is online and then follows the signals it receives
      knows exactly who else is online, for as long as it stays. */
  lemma ClientsKnowWhoIsOnline(before: seq<Event>, me: Session, since: seq<Event>, now: Session)
    requires me in Run(INITIAL, before).sessions && me.user.Some?
    requires now in Run(HandleGetUserOnline(Run(INITIAL, before), me, ENCRYPTION_SYMMETRIC), since).sessions
        && now.id == me.id
    ensures var s := Run(INITIAL, before);
            var v := Run(HandleGetUserOnline(s, me, ENCRYPTION_SYMMETRIC), since);
            var own, list := me.user.value.id, OnlineList(s.sessions, me.user.value.id);
            && now.user == me.user && me.outbox + [UserOnline(list)] <= now.outbox
            && Believed(set m | m in list :: m.id, now.outbox[|me.outbox| + 1..]) == v.online.Keys - {own}
  {
    hide Run, Valid, Faithful, Fresh, OnlineList, Believed;
    var s := Run(INITIAL, before);
    var out := UserOnline(OnlineList(s.sessions, me.user.value.id));
    var t, asked := Reply(s, me, out), TellOne(me, me.id, out);
    InitialIsValid();
    RunKeeps(INITIAL, before);
    QuietReplies(s, me);
    RunKeeps(t, since);
    OnlineListIsRegistry(s, me.user.value.id);
    TellReaches(s, me, out);
    FaithfulAt(t, Run(t, since), asked, now);
  }

  lemma TellReaches(s: State, me: Session, out: Out)
    requires me in s.sessions
    ensures TellOne(me, me.id, out) in Reply(s, me, out).sessions && Reply(s, me, out).online == s.online
  {
    var i :| 0 <= i < |s.sessions| && s.sessions[i] == me;
    assert Reply(s, me, out).sessions[i] == TellOne(me, me.id, out);
  }

  lemma FaithfulAt(s: State, t: State, a: Session, b: Session)
    requires Faithful(s, t) && a in s.sessions && b in t.sessions && a.id == b.id
    ensures Follows(a, b, s.online.Keys, t.online.Keys)
  {}

  lemma ValidAgrees(s: State)
    requires Valid(s)
    ensures Agree(s)
  {}

  /** A connection becomes logged in as a user exactly when the request is acceptable and names
      an account with its password. */
  lemma LoginIff(s: State, me: Session, encryption: byte, payload: Result<Credentials, string>, user: nat)
    requires Valid(s) && me in s.sessions && me.user.None?
    ensures LoggedIn(HandleLogin(s, me, encryption, payload).sessions, me.id, user) <==>
              && encryption == ENCRYPTION_SYMMETRIC && payload.Ok?
              && exists u :: u in s.users && u.id == user && u.name == payload.value.username
                  && u.password == payload.value.password
  {
    hide Enter, Reply;
    assert !LoggedIn(s.sessions, me.id, user) by {
      if LoggedIn(s.sessions, me.id, user) {
        var a :| a in s.sessions && a.id == me.id && Is(a, user);
        SameSession(s.sessions, a, me);
      }
    }
    forall text: string {
      RepliesKeepLogins(s, me, Feedback(true, OnLogin, false, text), me.id, user);
    }
    if payload.Ok? {
      var found := FindName(s.users, payload.value.username);
      if found.Some? {
        LoggedInAfterEnter(s, me, Member(found.value.id, found.value.name), me.id, user);
        forall u | u in s.users && u.name == payload.value.username
          ensures u == found.value
        {
          SameName(s.users, s.nextUser, u, found.value);
        }
      }
    }
  }

  lemma RepliesKeepLogins(s: State, me: Session, out: Out, id: nat, user: nat)
    ensures LoggedIn(Reply(s, me, out).sessions, id, user) <==> LoggedIn(s.sessions, id, user)
  {
    LoginsKept(s.sessions, Reply(s, me, out).sessions, id, user);
  }

  lemma SameName(users: seq<Account>, next: nat, u: Account, v: Account)
    requires DistinctAccounts(users, next) && u in users && v in users && (u.name == v.name || u.id == v.id)
    ensures u == v
  {}

  /** The event makes the server store a key for the user. */
  ghost predicate StoresKey(s: State, e: Event, user: nat) {
    && e.Received? && e.request.StorePublicKey? && e.request.key.Ok?
    && Parse(e.message.header).encryption == ENCRYPTION_SYMMETRIC
    && FindSession(s.sessions, e.connection).Some? && Is(FindSession(s.sessions, e.connection).value, user)
  }

  ghost function KeyAfter(s: State, e: Event, user: nat, key: seq<byte>): seq<byte> {
    if StoresKey(s, e, user) then e.request.key.value else key
  }

  /** The key stored last in the course of a run, or the one before it. */
  ghost function LastKey(s: State, events: seq<Event>, user: nat, key: seq<byte>): seq<byte>
    decreases |events|
  {
    if events == [] then key
    else
      LastKey(StepOn(s, events[0]), events[1..], user, KeyAfter(s, events[0], user, key))
  }

  ghost predicate HoldsKey(users: seq<Account>, m: Member, key: seq<byte>) {
    exists u :: u in users && u.id == m.id && u.name == m.name && u.publicKey == key
  }

  lemma KeyAfterStore(users: seq<Account>, m: Member, key: seq<byte>, id: nat, stored: seq<byte>)
    requires HoldsKey(users, m, key)
    ensures HoldsKey(StoreKey(users, id, stored), m, if id == m.id then stored else key)
  {
    var u :| u in users && u.id == m.id && u.name == m.name && u.publicKey == key;
    var i :| 0 <= i < |users| && users[i] == u;
    assert StoreKey(users, id, stored)[i] in StoreKey(users, id, stored);
  }

  lemma KeyAfterAppend(users: seq<Account>, m: Member, key: seq<byte>, more: seq<Account>)
    requires HoldsKey(users, m, key)
    ensures HoldsKey(users + more, m, key)
  {
    var u :| u in users && u.id == m.id && u.name == m.name && u.publicKey == key;
    assert u in users + more;
  }

  lemma StepKeepsKey(s: State, e: Event, m: Member, key: seq<byte>)
    requires HoldsKey(s.users, m, key)
    ensures HoldsKey(StepOn(s, e).users, m, KeyAfter(s, e, m.id, key))
  {
    hide HoldsKey, Parse, FindSession, FindName, FindUser, Tell, Broadcast, EnterAll, FanOut, StoreKey, WithOpponent;
    if e.Received? && FindSession(s.sessions, e.connection).Some? {
      var me := FindSession(s.sessions, e.connection).value;
      match e.request
      case Register(p) =>
        if p.Ok? {
          KeyAfterAppend(s.users, m, key, [Account(s.nextUser, p.value.username, p.value.password, [])]);
        }
      case StorePublicKey(p) =>
        if me.user.Some? && p.Ok? {
          KeyAfterStore(s.users, m, key, me.user.value.id, p.value);
        }
      case _ =>
    }
  }

  lemma {:induction false} RunKeepsLastKey(s: State, events: seq<Event>, m: Member, key: seq<byte>)
    requires HoldsKey(s.users, m, key)
    ensures HoldsKey(Run(s, events).users, m, LastKey(s, events, m.id, key))
    decreases |events|
  {
    hide HoldsKey, StepOn, KeyAfter;
    if events != [] {
      StepKeepsKey(s, events[0], m, key);
      RunKeepsLastKey(StepOn(s, events[0]), events[1..], m, KeyAfter(s, events[0], m.id, key));
    }
  }

  /** From a stored key on, in every run, everyone asking for that user's details is given the
      key that the user stored last. */
  lemma StoredKeyIsServed(s: State, me: Session, key: seq<byte>, since: seq<Event>, other: Session)
    requires Valid(s) && me in s.sessions && me.user.Some? && other.user.Some?
    ensures var user := me.user.value;
            var stored := HandleStorePublicKey(s, me, ENCRYPTION_SYMMETRIC, Ok(key));
            var t := Run(stored, since);
            HandleGetUserDetails(t, other, ENCRYPTION_SYMMETRIC, Ok(user.id)) ==
              Reply(t, other, UserDetails(user.id, user.name, LastKey(stored, since, user.id, key)))
  {
    hide Agree, Faithful, Fresh, StoreKey, Run, Tell, FindUser, LastKey, DistinctIds;
    var user, stored := me.user.value, HandleStorePublicKey(s, me, ENCRYPTION_SYMMETRIC, Ok(key));
    var u :| u in s.users && u.id == user.id && u.name == user.name;
    KeyAfterStore(s.users, user, u.publicKey, user.id, key);
    StoreKeyKeeps(s, me, ENCRYPTION_SYMMETRIC, Ok(key));
    RunKeepsLastKey(stored, since, user, key);
    RunKeeps(stored, since);
    KeyIsFound(Run(stored, since), user, LastKey(stored, since, user.id, key));
  }

  lemma KeyIsFound(t: State, m: Member, key: seq<byte>)
    requires DistinctAccounts(t.users, t.nextUser) && HoldsKey(t.users, m, key)
    ensures FindUser(t.users, m.id).Some?
    ensures var found := FindUser(t.users, m.id).value;
            found.id == m.id && found.name == m.name && found.publicKey == key
  {
    var u :| u in t.users && u.id == m.id && u.name == m.name && u.publicKey == key;
    SameName(t.users, t.nextUser, u, FindUser(t.users, m.id).value);
  }

  /** Registering makes exactly one account, under a new id, when the name is new, and its
      credentials then log any other connection in as that account. */
  lemma RegisterThenLogin(s: State, me: Session, credentials: Credentials, other: Session)
    requires Valid(s) && me in s.sessions && me.user.None?
    ensures var t := HandleRegister(s, me, ENCRYPTION_SYMMETRIC, Ok(credentials));
            && t.users == (if FindName(s.users, credentials.username).Some? then s.users
                           else s.users + [Account(s.nextUser, credentials.username, credentials.password, [])])
            && (FindName(s.users, credentials.username).None? && other in t.sessions && other.user.None? ==>
                  LoggedIn(HandleLogin(t, other, ENCRYPTION_SYMMETRIC, Ok(credentials)).sessions, other.id, s.nextUser))
  {
    hide Valid, HandleLogin, LoggedIn;
    var t := HandleRegister(s, me, ENCRYPTION_SYMMETRIC, Ok(credentials));
    RegisterKeeps(s, me, ENCRYPTION_SYMMETRIC, Ok(credentials));
    if FindName(s.users, credentials.username).None? && other in t.sessions && other.user.None? {
      LoginIff(t, other, ENCRYPTION_SYMMETRIC, Ok(credentials), s.nextUser);
      assert Account(s.nextUser, credentials.username, credentials.password, []) in t.users;
    }
  }

  // ------------------------------------------------------------- who is answered

  predicate IsReply(out: Out) {
    out.Feedback? || out.UserOnline? || out.UserDetails?
  }

  /** What a request added to a queue: one reply, as the last message, on the connection that
      asked; signals and files alone on any other. */
  ghost predicate Answered(a: Session, b: Session, asked: bool) {
    && b.id == a.id && a.outbox <= b.outbox
    && var d := b.outbox[|a.outbox|..];
       if asked then d != [] && IsReply(d[|d| - 1]) && forall i :: 0 <= i < |d| - 1 ==> !IsReply(d[i])
       else forall i :: 0 <= i < |d| ==> !IsReply(d[i])
  }

  ghost predicate SenderAnswered(s: State, t: State, me: Session) {
    && |t.sessions| == |s.sessions|
    && forall i :: 0 <= i < |s.sessions| ==> Answered(s.sessions[i], t.sessions[i], s.sessions[i].id == me.id)
  }

  lemma AddedIs(a: Session, b: Session, d: seq<Out>, asked: bool)
    requires b.id == a.id && b.outbox == a.outbox + d
    requires if asked then d != [] && IsReply(d[|d| - 1]) && forall i :: 0 <= i < |d| - 1 ==> !IsReply(d[i])
             else forall i :: 0 <= i < |d| ==> !IsReply(d[i])
    ensures Answered(a, b, asked)
  {
    assert b.outbox[|a.outbox|..] == d;
  }

  lemma RepliesAnswer(s: State, me: Session)
    ensures forall out, t: State :: IsReply(out) && t.sessions == s.sessions ==>
        SenderAnswered(s, Reply(t, me, out), me)
  {
    forall out, t: State, i | IsReply(out) && t.sessions == s.sessions && 0 <= i < |s.sessions|
      ensures Answered(s.sessions[i], Reply(t, me, out).sessions[i], s.sessions[i].id == me.id)
    {
      var a := s.sessions[i];
      AddedIs(a, TellOne(a, me.id, out), if a.id == me.id then [out] else [], a.id == me.id);
    }
  }

  lemma EnterAnswers(s: State, me: Session, member: Member)
    requires me in s.sessions && me.user.None? && DistinctIds(s.sessions)
    ensures SenderAnswered(s, Enter(s, me, member), me)
  {
    hide Enter, Answered;
    EnterPointwise(s, me, member);
    forall i | 0 <= i < |s.sessions|
      ensures Answered(s.sessions[i], EnteredOne(s.sessions[i], me, member), s.sessions[i].id == me.id)
    {
      var a := s.sessions[i];
      var others := a.user.Some? && a.user.value.id != member.id;
      if a.id == me.id {
        SameSession(s.sessions, a, me);
        AddedIs(a, EnteredOne(a, me, member), [Feedback(true, OnLogin, true, "")], true);
      } else {
        AddedIs(a, EnteredOne(a, me, member), if others then [UserLogin(member)] else [], false);
      }
    }
  }

  lemma SendFileAnswers(s: State, me: Session, message: Message)
    requires Valid(s) && me in s.sessions && Accepts(s, me, message)
    ensures SenderAnswered(s, HandleSendFile(s, me, message), me)
  {
    hide Valid, HandleSendFile, Answered, WithOpponent, Parse;
    FileFanOut(s, me, message);
    var t := HandleSendFile(s, me, message);
    forall i | 0 <= i < |s.sessions|
      ensures Answered(s.sessions[i], t.sessions[i], s.sessions[i].id == me.id)
    {
      AddedIs(s.sessions[i], t.sessions[i], FileAndReply(s.sessions[i], me, message), s.sessions[i].id == me.id);
    }
  }

  /** Every request is answered exactly once, to the connection it came from; all that any
      other connection may get is a presence signal or a file. */
  lemma EveryRequestIsAnswered(s: State, me: Session, message: Message, request: Request)
    requires Valid(s) && me in s.sessions && !request.Unexpected?
    ensures SenderAnswered(s, Handle(s, me, message, request), me)
  {
    RepliesAnswer(s, me);
    hide Agree, DistinctAccounts, DistinctIds, SenderAnswered, Reply, Enter, Parse, WithOpponent, FanOut;
    match request
    case Login(p) =>
      if me.user.None? && p.Ok? && FindName(s.users, p.value.username).Some? {
        var user := FindName(s.users, p.value.username).value;
        EnterAnswers(s, me, Member(user.id, user.name));
      }
    case SendFile =>
      if Accepts(s, me, message) {
        SendFileAnswers(s, me, message);
      }
    case _ =>
  }
}
