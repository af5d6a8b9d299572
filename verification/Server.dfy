/** The server's objects and its handlers, each of which does to them what the registry's
    transition function says. */
module Server {
  import opened Wrappers
  import opened Convert
  import opened Framing
  import opened Registry
  import opened Presence
  import opened Answers

  class User {
    const id: nat
    const name: string
    const password: string
    var publicKey: seq<byte>

    constructor (id: nat, name: string, password: string)
      ensures AccountOf(this) == Account(id, name, password, [])
    {
      this.id, this.name, this.password, publicKey := id, name, password, [];
    }
  }

  class Connection {
    const id: nat
    var user: User?
    var outbox: seq<Out>

    constructor (id: nat)
      ensures ViewOf(this) == Session(id, None, [])
    {
      this.id, user, outbox := id, null, [];
    }

    method Write(out: Out)
      modifies this`outbox
      ensures outbox == old(outbox) + [out]
    {
      outbox := outbox + [out];
    }
  }

  function AccountOf(u: User): Account
    reads u
  {
    Account(u.id, u.name, u.password, u.publicKey)
  }

  function MemberOf(u: User): Member {
    Member(u.id, u.name)
  }

  function ViewOf(c: Connection): Session
    reads c
  {
    Session(c.id, if c.user == null then None else Some(MemberOf(c.user)), c.outbox)
  }

  ghost function Views(cs: seq<Connection>): (r: seq<Session>)
    reads cs
    ensures |r| == |cs| && forall i :: 0 <= i < |cs| ==> r[i] == ViewOf(cs[i])
  {
    seq(|cs|, i requires 0 <= i < |cs| reads cs => ViewOf(cs[i]))
  }

  ghost function Accounts(us: seq<User>): (r: seq<Account>)
    reads us
    ensures |r| == |us| && forall i :: 0 <= i < |us| ==> r[i] == AccountOf(us[i])
  {
    seq(|us|, i requires 0 <= i < |us| reads us => AccountOf(us[i]))
  }

  class Server {
    var connections: seq<Connection>
    var userConnections: map<nat, seq<nat>>
    var users: seq<User>
    var nextUser: nat
    var nextConnection: nat

    constructor ()
      ensures Snapshot() == INITIAL && Linked()
    {
      connections, userConnections, users, nextUser, nextConnection := [], map[], [], 1, 1;
    }

    ghost function Snapshot(): State
      reads this, connections, users
    {
      State(Views(connections), userConnections, Accounts(users), nextUser, nextConnection)
    }

    /** No two connections and no two users share an id, and users that connections point to
        are registered. */
    ghost predicate Linked()
      reads this, connections, users
    {
      && DistinctIds(Views(connections))
      && DistinctAccounts(Accounts(users), nextUser)
      && forall i :: 0 <= i < |connections| && connections[i].user != null ==> connections[i].user in users
    }

    // ------------------------------------------------------------------- sending

    method SendMessage(conn: Connection, out: Out)
      requires Linked() && conn in connections
      modifies conn`outbox
      ensures Linked() && Snapshot() == Reply(old(Snapshot()), old(ViewOf(conn)), out)
      ensures conn.outbox == old(conn.outbox) + [out]
    {
      hide DistinctAccounts;
      conn.Write(out);
      assert Views(connections) == Tell(old(Views(connections)), conn.id, out) by {
        forall i | 0 <= i < |connections|
          ensures Views(connections)[i] == TellOne(old(Views(connections))[i], conn.id, out)
        {
          assert old(Views(connections))[i] == old(ViewOf(connections[i]));
        }
      }
    }

    method SendFeedback(conn: Connection, encrypted: bool, topic: Topic, response: bool, text: string)
      requires Linked() && conn in connections
      modifies conn`outbox
      ensures Linked()
      ensures Snapshot() == Reply(old(Snapshot()), old(ViewOf(conn)), Feedback(encrypted, topic, response, text))
    {
      SendMessage(conn, Feedback(encrypted, topic, response, text));
    }

    /** To every authenticated connection but those of one user. */
    method BroadcastMessage(out: Out, except: nat)
      requires Linked()
      modifies connections`outbox
      ensures Linked()
      ensures Snapshot() == old(Snapshot()).(sessions := Broadcast(old(Snapshot()).sessions, out, except))
    {
      hide DistinctAccounts;
      for k := 0 to |connections|
        invariant forall i :: k <= i < |connections| ==> ViewOf(connections[i]) == old(ViewOf(connections[i]))
        invariant forall i :: 0 <= i < k ==>
            ViewOf(connections[i]) == BroadcastOne(old(ViewOf(connections[i])), out, except)
      {
        var conn := connections[k];
        forall i | 0 <= i < |connections| && i != k
          ensures connections[i] != conn
        {
          assert old(Views(connections))[i].id != old(Views(connections))[k].id;
        }
        if conn.user == null || conn.user.id == except {
          continue;
        }
        conn.Write(out);
      }
      assert Views(connections) == Broadcast(old(Views(connections)), out, except);
    }

    // ------------------------------------------------------------------- checks

    method ExpectAuth(conn: Connection, encrypted: bool, wanted: bool, topic: Topic) returns (ok: bool)
      requires Linked() && conn in connections
      modifies conn`outbox
      ensures Linked() && (ok <==> (conn.user != null) == wanted)
      ensures ok ==> Snapshot() == old(Snapshot()) && ViewOf(conn) == old(ViewOf(conn))
      ensures !ok ==> Snapshot() == Reply(old(Snapshot()), old(ViewOf(conn)),
                Feedback(encrypted, topic, false, if wanted then UNAUTHENTICATED_MESSAGE else AUTHENTICATED_MESSAGE))
    {
      ok := (conn.user != null) == wanted;
      if !ok {
        SendFeedback(conn, encrypted, topic, false, if wanted then UNAUTHENTICATED_MESSAGE else AUTHENTICATED_MESSAGE);
      }
    }

    method ExpectEncryption(conn: Connection, encrypted: bool, wanted: byte, header: Header, topic: Topic)
      returns (ok: bool)
      requires Linked() && conn in connections
      modifies conn`outbox
      ensures Linked() && (ok <==> header.encryption == wanted)
      ensures ok ==> Snapshot() == old(Snapshot()) && ViewOf(conn) == old(ViewOf(conn))
      ensures !ok ==> Snapshot() == Reply(old(Snapshot()), old(ViewOf(conn)),
                Feedback(encrypted, topic, false,
                         if wanted == ENCRYPTION_NONE then MESSAGE_SHOULD_NOT_ENCRYPTED
                         else MESSAGE_ENCRYPTION_IS_NOT_SYMMETRIC))
    {
      ok := header.encryption == wanted;
      if !ok {
        SendFeedback(conn, encrypted, topic, false,
          if wanted == ENCRYPTION_NONE then MESSAGE_SHOULD_NOT_ENCRYPTED else MESSAGE_ENCRYPTION_IS_NOT_SYMMETRIC);
      }
    }

    method ExpectPrologue(conn: Connection, encrypted: bool, auth: bool, wanted: byte, header: Header, topic: Topic)
      returns (ok: bool)
      requires Linked() && conn in connections
      modifies conn`outbox
      ensures Linked() && (ok <==> Refusal(old(ViewOf(conn)), auth, wanted, header.encryption).None?)
      ensures ok ==> Snapshot() == old(Snapshot()) && ViewOf(conn) == old(ViewOf(conn))
      ensures !ok ==> Snapshot() == Reply(old(Snapshot()), old(ViewOf(conn)),
                Feedback(encrypted, topic, false, Refusal(old(ViewOf(conn)), auth, wanted, header.encryption).value))
    {
      hide DistinctAccounts, DistinctIds;
      ok := ExpectAuth(conn, encrypted, auth, topic);
      if ok {
        ok := ExpectEncryption(conn, encrypted, wanted, header, topic);
      }
    }

    // ------------------------------------------------------------------- look-ups

    method FindByName(name: string) returns (user: User?)
      ensures user == null <==> FindName(Accounts(users), name).None?
      ensures user != null ==> user in users && FindName(Accounts(users), name) == Some(AccountOf(user))
    {
      ghost var all := Accounts(users);
      var i := 0;
      while i < |users|
        invariant i <= |users| && FindName(all, name) == FindName(all[i..], name)
        decreases |users| - i
      {
        assert all[i..][1..] == all[i + 1..];
        if users[i].name == name {
          return users[i];
        }
        i := i + 1;
      }
      user := null;
    }

    method FindById(id: nat) returns (user: User?)
      ensures user == null <==> FindUser(Accounts(users), id).None?
      ensures user != null ==> user in users && FindUser(Accounts(users), id) == Some(AccountOf(user))
    {
      ghost var all := Accounts(users);
      var i := 0;
      while i < |users|
        invariant i <= |users| && FindUser(all, id) == FindUser(all[i..], id)
        decreases |users| - i
      {
        assert all[i..][1..] == all[i + 1..];
        if users[i].id == id {
          return users[i];
        }
        i := i + 1;
      }
      user := null;
    }

    method FindConnection(id: nat) returns (conn: Connection?)
      ensures conn == null <==> !HasId(Views(connections), id)
      ensures conn != null ==> conn in connections && conn.id == id
    {
      ghost var all := Views(connections);
      var i := 0;
      while i < |connections|
        invariant i <= |connections| && forall j :: 0 <= j < i ==> all[j].id != id
        decreases |connections| - i
      {
        if connections[i].id == id {
          assert all[i].id == id;
          return connections[i];
        }
        i := i + 1;
      }
      conn := null;
    }

    // ------------------------------------------------------------------- handlers

    method SetUser(conn: Connection, user: User)
      requires Linked() && conn in connections && user in users
      modifies conn`user
      ensures Linked() && conn.user == user
      ensures Snapshot() == old(Snapshot()).(sessions := EnterAll(old(Snapshot()).sessions, conn.id, MemberOf(user)))
    {
      hide DistinctAccounts;
      conn.user := user;
      forall i | 0 <= i < |connections|
        ensures Views(connections)[i] == EnterOne(old(Views(connections))[i], conn.id, MemberOf(user))
      {
        assert old(Views(connections))[i] == old(ViewOf(connections[i]));
      }
      assert Views(connections) == EnterAll(old(Views(connections)), conn.id, MemberOf(user));
    }

    method EnterAs(conn: Connection, user: User)
      requires Linked() && conn in connections && user in users
      modifies this`userConnections, conn`user, connections`outbox
      ensures Linked() && Snapshot() == Enter(old(Snapshot()), old(ViewOf(conn)), MemberOf(user))
    {
      hide DistinctAccounts, DistinctIds, Broadcast, EnterAll, Tell;
      var ids := if user.id in userConnections then userConnections[user.id] else [];
      userConnections := userConnections[user.id := ids + [conn.id]];
      SetUser(conn, user);
      BroadcastMessage(UserLogin(MemberOf(user)), user.id);
      SendFeedback(conn, true, OnLogin, true, "");
    }

    method LoginMessageHandler(conn: Connection, header: Header, payload: Result<Credentials, string>)
      requires Linked() && conn in connections
      modifies this`userConnections, conn`user, connections`outbox
      ensures Linked() && Snapshot() == HandleLogin(old(Snapshot()), old(ViewOf(conn)), header.encryption, payload)
    {
      hide DistinctAccounts, DistinctIds, Enter, Reply, Views, Accounts, Refusal, FindName;
      var ok := ExpectPrologue(conn, true, false, ENCRYPTION_SYMMETRIC, header, OnLogin);
      if !ok {
        return;
      }
      if payload.Err? {
        SendFeedback(conn, true, OnLogin, false, payload.error);
        return;
      }
      var user := FindByName(payload.value.username);
      if user == null {
        SendFeedback(conn, true, OnLogin, false, USER_NOT_FOUND);
        return;
      }
      if user.password != payload.value.password {
        SendFeedback(conn, true, OnLogin, false, PASSWORD_INVALID);
        return;
      }
      EnterAs(conn, user);
    }

    method AddUser(name: string, password: string)
      requires Linked() && FindName(Accounts(users), name).None? && 1 <= nextUser
      modifies this`users, this`nextUser
      ensures Linked() && connections == old(connections)
      ensures var user := Account(old(nextUser), name, password, []);
              Snapshot() == old(Snapshot()).(users := old(Snapshot()).users + [user], nextUser := old(nextUser) + 1)
    {
      hide DistinctIds, DistinctAccounts, FindName;
      ghost var was := Accounts(users);
      AccountAdded(was, nextUser, name, password);
      var user := new User(nextUser, name, password);
      nextUser := nextUser + 1;
      users := users + [user];
      assert Accounts(users) == was + [AccountOf(user)];
    }

    method RegisterMessageHandler(conn: Connection, header: Header, payload: Result<Credentials, string>)
      requires Linked() && conn in connections && 1 <= nextUser
      modifies this`users, this`nextUser, conn`outbox
      ensures Linked() && Snapshot() == HandleRegister(old(Snapshot()), old(ViewOf(conn)), header.encryption, payload)
    {
      hide DistinctAccounts, DistinctIds, Reply, Views, Accounts, Refusal, FindName;
      var ok := ExpectPrologue(conn, true, false, ENCRYPTION_SYMMETRIC, header, OnRegister);
      if !ok {
        return;
      }
      if payload.Err? {
        SendFeedback(conn, true, OnRegister, false, MESSAGE_MALFORMED);
        return;
      }
      var user := FindByName(payload.value.username);
      if user != null {
        SendFeedback(conn, true, OnRegister, false, USER_NOT_FOUND);
        return;
      }
      AddUser(payload.value.username, payload.value.password);
      SendFeedback(conn, true, OnRegister, true, "");
    }

    method ListOnline(except: nat) returns (list: seq<Member>)
      ensures list == OnlineList(Views(connections), except)
    {
      ghost var all := Views(connections);
      list := [];
      for k := 0 to |connections|
        invariant list == OnlineList(all[..k], except)
      {
        var con := connections[k];
        assert all[..k + 1][..k] == all[..k];
        if con.user == null || con.user.id == except {
          continue;
        }
        list := list + [MemberOf(con.user)];
      }
      assert all[..|connections|] == all;
    }

    method GetUserOnlineHandler(conn: Connection, header: Header)
      requires Linked() && conn in connections
      modifies conn`outbox
      ensures Linked() && Snapshot() == HandleGetUserOnline(old(Snapshot()), old(ViewOf(conn)), header.encryption)
    {
      hide DistinctAccounts, DistinctIds, Reply, Views, Accounts, OnlineList;
      var ok := ExpectPrologue(conn, true, true, ENCRYPTION_SYMMETRIC, header, OnGetUserOnline);
      if !ok {
        return;
      }
      var list := ListOnline(conn.user.id);
      SendMessage(conn, UserOnline(list));
    }

    method GetUserDetailsHandler(conn: Connection, header: Header, payload: Result<nat, string>)
      requires Linked() && conn in connections
      modifies conn`outbox
      ensures Linked()
      ensures Snapshot() == HandleGetUserDetails(old(Snapshot()), old(ViewOf(conn)), header.encryption, payload)
    {
      hide DistinctAccounts, DistinctIds, Reply, Views, Accounts, FindUser, Refusal;
      var ok := ExpectPrologue(conn, true, true, ENCRYPTION_SYMMETRIC, header, OnGetUserDetails);
      if !ok {
        return;
      }
      if payload.Err? {
        SendFeedback(conn, true, OnGetUserDetails, false, MESSAGE_MALFORMED);
        return;
      }
      var user := FindById(payload.value);
      if user == null {
        SendFeedback(conn, true, OnGetUserDetails, false, USER_NOT_FOUND);
        return;
      }
      SendMessage(conn, UserDetails(user.id, user.name, user.publicKey));
    }

    method SetPublicKey(user: User, key: seq<byte>)
      requires Linked() && user in users
      modifies user`publicKey
      ensures Linked()
      ensures Snapshot() == old(Snapshot()).(users := StoreKey(old(Snapshot()).users, user.id, key))
    {
      hide DistinctIds;
      user.publicKey := key;
      forall i | 0 <= i < |users|
        ensures Accounts(users)[i] == StoreKeyOne(old(Accounts(users))[i], user.id, key)
      {
        assert old(Accounts(users))[i] == old(AccountOf(users[i]));
      }
      assert Accounts(users) == StoreKey(old(Accounts(users)), user.id, key);
      forall u | u in Accounts(users)
        ensures 1 <= u.id < nextUser
      {
        var i :| 0 <= i < |users| && Accounts(users)[i] == u;
        assert old(Accounts(users))[i] in old(Accounts(users));
      }
    }

    method StorePublicKeyHandler(conn: Connection, header: Header, payload: Result<seq<byte>, string>)
      requires Linked() && conn in connections
      modifies conn`outbox, users`publicKey
      ensures Linked()
      ensures Snapshot() == HandleStorePublicKey(old(Snapshot()), old(ViewOf(conn)), header.encryption, payload)
    {
      hide DistinctAccounts, DistinctIds, Reply, Views, Accounts, StoreKey;
      Registered(conn);
      var ok := ExpectPrologue(conn, true, true, ENCRYPTION_SYMMETRIC, header, OnStorePublicKey);
      if !ok {
        return;
      }
      if payload.Err? {
        SendFeedback(conn, true, OnStorePublicKey, false, payload.error);
        return;
      }
      SetPublicKey(conn.user, payload.value);
      SendFeedback(conn, true, OnStorePublicKey, true, "");
    }

    lemma Registered(conn: Connection)
      requires Linked() && conn in connections
      ensures conn.user != null ==> conn.user in users
    {}

    /** One copy to every listed connection; an id that no connection has is skipped. */
    method CopyToAll(ids: seq<nat>, out: Out)
      requires Linked()
      modifies connections`outbox
      ensures Linked()
      ensures Snapshot() == old(Snapshot()).(sessions := FanOut(old(Snapshot()).sessions, ids, out))
    {
      hide DistinctAccounts, DistinctIds, Views, Accounts, Tell;
      for k := 0 to |ids|
        invariant Linked()
        invariant Snapshot() == old(Snapshot()).(sessions := FanOut(old(Snapshot()).sessions, ids[..k], out))
      {
        ghost var was := Snapshot();
        var con := FindConnection(ids[k]);
        assert ids[..k + 1][..k] == ids[..k];
        if con == null {
          TellNobody(was.sessions, ids[k], out);
          continue;
        }
        SendMessage(con, out);
      }
      assert ids[..|ids|] == ids;
    }

    method SendFileHandler(conn: Connection, message: Message)
      requires Linked() && conn in connections
      modifies connections`outbox
      ensures Linked() && Snapshot() == HandleSendFile(old(Snapshot()), old(ViewOf(conn)), message)
    {
      hide DistinctAccounts, DistinctIds, Tell, Views, Accounts, FanOut, Parse, WithOpponent;
      var header := Parse(message.header);
      var ok := ExpectPrologue(conn, false, true, ENCRYPTION_NONE, header, OnSendFile);
      if !ok {
        return;
      }
      if header.opponentId !in userConnections {
        SendFeedback(conn, true, OnSendFile, false, USER_ID_NOT_FOUND);
        return;
      }
      CopyToAll(userConnections[header.opponentId], File(WithOpponent(message, conn.user.id)));
      SendFeedback(conn, true, OnSendFile, true, "");
    }

    method Admit() returns (conn: Connection)
      requires Linked() && forall i :: 0 <= i < |connections| ==> connections[i].id < nextConnection
      modifies this`connections, this`nextConnection
      ensures Linked() && fresh(conn) && connections == old(connections) + [conn]
      ensures Snapshot() == Accept(old(Snapshot()))
    {
      hide DistinctAccounts, DistinctIds, Views, Accounts;
      ghost var was, others := Views(connections), connections;
      conn := new Connection(nextConnection);
      nextConnection := nextConnection + 1;
      conn.Write(ServerDetails);
      assert ViewOf(conn) == Session(conn.id, None, [ServerDetails]);
      connections := connections + [conn];
      ViewsAppend(others, conn);
      NewIdIsDistinct(others, conn);
    }

    /** A new connection is sent the server's details and joins the others. */
    method ConnectionAcceptor() returns (conn: Connection)
      requires Linked() && Valid(Snapshot())
      modifies this`connections, this`nextConnection
      ensures Linked() && fresh(conn) && connections == old(connections) + [conn]
      ensures Snapshot() == StepOn(old(Snapshot()), Accepted)
      ensures Snapshot() == old(Snapshot()).(
                sessions := old(Snapshot()).sessions + [Session(old(nextConnection), None, [ServerDetails])],
                nextConnection := old(nextConnection) + 1)
      ensures Valid(Snapshot()) && Faithful(old(Snapshot()), Snapshot())
    {
      hide DistinctAccounts, DistinctIds, Agree, Faithful, Views, Accounts;
      AcceptKeeps(Snapshot());
      IdsBelow();
      conn := Admit();
    }

    lemma IdsBelow()
      requires Valid(Snapshot())
      ensures 1 <= nextUser && forall i :: 0 <= i < |connections| ==> connections[i].id < nextConnection
    {
      forall i | 0 <= i < |connections|
        ensures connections[i].id < nextConnection
      {
        assert Views(connections)[i] in Snapshot().sessions;
      }
    }

    /** The connections with any other id. */
    method WithoutConnection(id: nat) returns (kept: seq<Connection>)
      ensures Views(kept) == EraseSession(Views(connections), id) && Among(kept, connections)
    {
      hide Views, EraseSession, Among;
      kept := [];
      NoneKept(connections, id);
      for k := 0 to |connections|
        invariant Views(kept) == EraseSession(Views(connections[..k]), id) && Among(kept, connections)
      {
        KeptStep(connections, k, kept, id);
        if connections[k].id != id {
          kept := kept + [connections[k]];
        }
      }
      AllOf(connections);
    }

    method LeaveUser(conn: Connection)
      requires Linked() && conn in connections && conn.user != null
      modifies this`userConnections, connections`outbox
      ensures Linked() && Snapshot() == Leave(old(Snapshot()), old(ViewOf(conn)), conn.user.id)
    {
      hide DistinctAccounts, DistinctIds, Views, Accounts, Broadcast;
      var userId := conn.user.id;
      var ids := if userId in userConnections then userConnections[userId] else [];
      var left := Erase(ids, conn.id);
      ghost var was := userConnections;
      userConnections := userConnections[userId := left];
      if left == [] {
        userConnections := userConnections - {userId};
        assert userConnections == was - {userId};
        BroadcastMessage(UserLogout(userId), userId);
      }
    }

    method EraseConnection(id: nat)
      requires Linked()
      modifies this`connections
      ensures Linked() && Snapshot() == old(Snapshot()).(sessions := EraseSession(old(Snapshot()).sessions, id))
      ensures forall c <- connections :: c in old(connections)
    {
      hide DistinctAccounts, DistinctIds, EraseSession, Views;
      var kept := WithoutConnection(id);
      EraseSessionDistinct(Views(connections), id);
      forall i | 0 <= i < |kept| && kept[i].user != null
        ensures kept[i].user in users
      {
        assert kept[i] in connections;
      }
      connections := kept;
    }

    /** The last connection of a user takes that user offline. */
    method OnConnectionClosed(conn: Connection)
      requires Linked() && Valid(Snapshot()) && conn in connections
      modifies this`userConnections, this`connections, connections`outbox
      ensures Linked() && Snapshot() == StepOn(old(Snapshot()), Closed(conn.id))
      ensures Valid(Snapshot()) && Faithful(old(Snapshot()), Snapshot())
      ensures IsClosed(old(Snapshot()), old(ViewOf(conn)), Snapshot())
    {
      hide DistinctAccounts, DistinctIds, Agree, Close, Faithful, Views, Accounts, IsClosed;
      InSessions(conn);
      CloseKeeps(Snapshot(), ViewOf(conn));
      CloseAnswer(Snapshot(), ViewOf(conn));
      Disconnect(conn);
    }

    method Disconnect(conn: Connection)
      requires Linked() && conn in connections
      modifies this`userConnections, this`connections, connections`outbox
      ensures Linked() && Snapshot() == Close(old(Snapshot()), old(ViewOf(conn)))
    {
      hide DistinctAccounts, DistinctIds, Views, Accounts, Leave, EraseSession;
      if conn.user != null {
        LeaveUser(conn);
      }
      EraseConnection(conn.id);
    }

    /** The switch on the message type; request is what decrypting and parsing the body gave. */
    method Dispatch(conn: Connection, message: Message, request: Request)
      requires Linked() && conn in connections && 1 <= nextUser
      requires TypeMatches(request, Parse(message.header).messageType)
      modifies this`userConnections, this`users, this`nextUser, conn`user, connections`outbox, users`publicKey
      ensures Linked() && Snapshot() == Handle(old(Snapshot()), old(ViewOf(conn)), message, request)
    {
      hide DistinctAccounts, DistinctIds, Views, Accounts, HandleLogin, HandleRegister, HandleGetUserOnline,
        HandleGetUserDetails, HandleStorePublicKey, HandleSendFile, Parse, WithOpponent;
      var header := Parse(message.header);
      if header.messageType == TYPE_LOGIN {
        LoginMessageHandler(conn, header, request.payload);
      } else if header.messageType == TYPE_REGISTER {
        RegisterMessageHandler(conn, header, request.payload);
      } else if header.messageType == TYPE_GET_USER_ONLINE {
        GetUserOnlineHandler(conn, header);
      } else if header.messageType == TYPE_GET_USER_DETAILS {
        GetUserDetailsHandler(conn, header, request.user);
      } else if header.messageType == TYPE_STORE_PUBLIC_KEY {
        StorePublicKeyHandler(conn, header, request.key);
      } else if header.messageType == TYPE_SEND_FILE {
        SendFileHandler(conn, message);
      }
    }

    /** Every message leaves the server in a valid state, in which every connection still knows
        who is online. */
    method OnMessageIn(conn: Connection, message: Message, request: Request)
      requires Linked() && Valid(Snapshot()) && conn in connections
      requires TypeMatches(request, Parse(message.header).messageType)
      modifies this`userConnections, this`users, this`nextUser, conn`user, connections`outbox, users`publicKey
      ensures Linked() && Snapshot() == StepOn(old(Snapshot()), Received(conn.id, message, request))
      ensures Valid(Snapshot()) && Faithful(old(Snapshot()), Snapshot())
      ensures IsAnswer(old(Snapshot()), old(ViewOf(conn)), message, request, Snapshot())
    {
      hide DistinctAccounts, DistinctIds, Agree, Handle, Faithful, Views, Accounts, IsAnswer;
      InSessions(conn);
      EveryAnswerIs(Snapshot(), ViewOf(conn), message, request);
      HandleKeeps(Snapshot(), ViewOf(conn), message, request);
      Dispatch(conn, message, request);
    }

    lemma InSessions(conn: Connection)
      requires conn in connections
      requires DistinctIds(Views(connections))
      ensures ViewOf(conn) in Snapshot().sessions && FindSession(Snapshot().sessions, conn.id) == Some(ViewOf(conn))
    {
      var i :| 0 <= i < |connections| && connections[i] == conn;
      assert Views(connections)[i] == ViewOf(conn);
      SameSession(Views(connections), FindSession(Snapshot().sessions, conn.id).value, ViewOf(conn));
    }
  }

  lemma NoneKept(cs: seq<Connection>, id: nat)
    ensures Views([]) == EraseSession(Views(cs[..0]), id) && Among([], cs)
  {}

  lemma AllOf(cs: seq<Connection>)
    ensures cs[..|cs|] == cs
  {}

  lemma ViewsAppend(cs: seq<Connection>, c: Connection)
    ensures Views(cs + [c]) == Views(cs) + [ViewOf(c)]
  {}

  lemma EraseSessionAppend(ss: seq<Session>, a: Session, id: nat)
    ensures EraseSession(ss + [a], id) == if a.id == id then EraseSession(ss, id) else EraseSession(ss, id) + [a]
  {
    assert (ss + [a])[..|ss|] == ss;
  }

  ghost predicate Among(kept: seq<Connection>, cs: seq<Connection>) {
    forall i :: 0 <= i < |kept| ==> kept[i] in cs
  }

  lemma KeptStep(cs: seq<Connection>, k: nat, kept: seq<Connection>, id: nat)
    requires k < |cs| && Views(kept) == EraseSession(Views(cs[..k]), id) && Among(kept, cs)
    ensures Among(if cs[k].id != id then kept + [cs[k]] else kept, cs)
    ensures Views(if cs[k].id != id then kept + [cs[k]] else kept) == EraseSession(Views(cs[..k + 1]), id)
  {
    hide Views, EraseSession;
    ViewsAppend(cs[..k], cs[k]);
    assert cs[..k + 1] == cs[..k] + [cs[k]];
    EraseSessionAppend(Views(cs[..k]), ViewOf(cs[k]), id);
    ViewsAppend(kept, cs[k]);
  }

  lemma NewIdIsDistinct(cs: seq<Connection>, c: Connection)
    requires DistinctIds(Views(cs)) && forall i :: 0 <= i < |cs| ==> cs[i].id < c.id
    ensures DistinctIds(Views(cs + [c]))
  {
    forall i, j | 0 <= i < j < |cs| + 1
      ensures Views(cs + [c])[i].id != Views(cs + [c])[j].id
    {
      assert Views(cs)[i].id == cs[i].id;
    }
  }

  lemma AccountAdded(users: seq<Account>, next: nat, name: string, password: string)
    requires DistinctAccounts(users, next) && FindName(users, name).None? && 1 <= next
    ensures DistinctAccounts(users + [Account(next, name, password, [])], next + 1)
  {
    assert forall i :: 0 <= i < |users| ==> users[i] in users;
  }

  lemma TellNobody(ss: seq<Session>, id: nat, out: Out)
    requires !HasId(ss, id)
    ensures Tell(ss, id, out) == ss
  {}
}
