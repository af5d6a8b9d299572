/** What each handler of the server does to its registry and to the messages that go out. */
module Registry {
  import opened Wrappers
  import opened Convert
  import opened Framing

  // ------------------------------------------------------------------------- values

  datatype Account = Account(id: nat, name: string, password: string, publicKey: seq<byte>)

  /** The user a connection is logged in as. */
  datatype Member = Member(id: nat, name: string)

  datatype Topic = OnLogin | OnRegister | OnGetUserOnline | OnGetUserDetails | OnStorePublicKey | OnSendFile

  datatype Out =
    | ServerDetails
    | Feedback(encrypted: bool, topic: Topic, response: bool, text: string)
    | UserLogin(member: Member)
    | UserLogout(id: nat)
    | UserOnline(users: seq<Member>)
    | UserDetails(id: nat, username: string, publicKey: seq<byte>)
    | File(message: Message)

  /** A connection: everything ever put into its write queue is kept. */
  datatype Session = Session(id: nat, user: Option<Member>, outbox: seq<Out>)

  datatype State = State(sessions: seq<Session>, online: map<nat, seq<nat>>, users: seq<Account>,
                         nextUser: nat, nextConnection: nat)

  datatype Credentials = Credentials(username: string, password: string)

  /** The type of a message, with what decrypting and parsing its body gives. */
  datatype Request =
    | Login(payload: Result<Credentials, string>)
    | Register(payload: Result<Credentials, string>)
    | GetUserOnline
    | GetUserDetails(user: Result<nat, string>)
    | StorePublicKey(key: Result<seq<byte>, string>)
    | SendFile
    | Unexpected

  const TYPE_LOGIN: byte := 0
  const TYPE_REGISTER: byte := 1
  const TYPE_STORE_PUBLIC_KEY: byte := 2
  const TYPE_GET_USER_ONLINE: byte := 4
  const TYPE_GET_USER_DETAILS: byte := 5
  const TYPE_SEND_FILE: byte := 7

  /** The message type of a header that goes with a request. Types 3 and 6 belong to the exchange
      of keys, and those from 8 on are for clients or unknown. */
  predicate TypeMatches(request: Request, messageType: byte) {
    match request
    case Login(_) => messageType == 0
    case Register(_) => messageType == 1
    case StorePublicKey(_) => messageType == 2
    case GetUserOnline => messageType == 4
    case GetUserDetails(_) => messageType == 5
    case SendFile => messageType == 7
    case Unexpected => messageType >= 8
  }

  datatype Event =
    | Accepted
    | Received(connection: nat, message: Message, request: Request)
    | Closed(connection: nat)

  const UNAUTHENTICATED_MESSAGE := "you need to authenticate first to do this action"
  const AUTHENTICATED_MESSAGE := "you need to logout first to do this action"
  const MESSAGE_ENCRYPTION_IS_NOT_SYMMETRIC := "the message should be encrypted with symmetric one"
  const MESSAGE_SHOULD_NOT_ENCRYPTED := "the message shouldn't be encrypted"
  const MESSAGE_MALFORMED := "the message you sent is malformed"
  const USER_NOT_FOUND := "you are not registered"
  const USER_ID_NOT_FOUND := "User with those id is not found"
  const PASSWORD_INVALID := "password provided is invalid"

  /** Ids are given from 1 on; id 0 stands for the server. */
  const INITIAL := State([], map[], [], 1, 1)

  // ------------------------------------------------------------------------ sending

  function TellOne(a: Session, id: nat, out: Out): Session {
    if a.id == id then a.(outbox := a.outbox + [out]) else a
  }

  /** One message to one connection. */
  function Tell(ss: seq<Session>, id: nat, out: Out): (r: seq<Session>)
    ensures |r| == |ss| && forall i :: 0 <= i < |ss| ==> r[i] == TellOne(ss[i], id, out)
  {
    seq(|ss|, i requires 0 <= i < |ss| => TellOne(ss[i], id, out))
  }

  function BroadcastOne(a: Session, out: Out, except: nat): Session {
    if a.user == None || a.user.value.id == except then a else a.(outbox := a.outbox + [out])
  }

  /** One message to every authenticated connection of any other user. */
  function Broadcast(ss: seq<Session>, out: Out, except: nat): (r: seq<Session>)
    ensures |r| == |ss| && forall i :: 0 <= i < |ss| ==> r[i] == BroadcastOne(ss[i], out, except)
  {
    seq(|ss|, i requires 0 <= i < |ss| => BroadcastOne(ss[i], out, except))
  }

  predicate HasId(ss: seq<Session>, id: nat) {
    exists i :: 0 <= i < |ss| && ss[i].id == id
  }

  /** One message to each listed connection; ids of no connection are skipped. */
  function FanOut(ss: seq<Session>, ids: seq<nat>, out: Out): (r: seq<Session>)
    ensures |r| == |ss|
  {
    if ids == [] then ss
    else
      var n := |ids| - 1;
      Tell(FanOut(ss, ids[..n], out), ids[n], out)
  }

  // ----------------------------------------------------------------------- handlers

  function Reply(s: State, me: Session, out: Out): State {
    s.(sessions := Tell(s.sessions, me.id, out))
  }

  function Bad(s: State, me: Session, topic: Topic, text: string): State {
    Reply(s, me, Feedback(true, topic, false, text))
  }

  function Good(s: State, me: Session, topic: Topic): State {
    Reply(s, me, Feedback(true, topic, true, ""))
  }

  /** Why a request is turned away before it is looked at: the wrong authentication state first,
      then the wrong encryption. */
  function Refusal(me: Session, auth: bool, expected: byte, encryption: byte): Option<string> {
    if me.user.Some? != auth then Some(if auth then UNAUTHENTICATED_MESSAGE else AUTHENTICATED_MESSAGE)
    else if encryption != expected then
      Some(if expected == ENCRYPTION_NONE then MESSAGE_SHOULD_NOT_ENCRYPTED else MESSAGE_ENCRYPTION_IS_NOT_SYMMETRIC)
    else None
  }

  function FindName(users: seq<Account>, name: string): (r: Option<Account>)
    ensures r.Some? ==> r.value in users && r.value.name == name
    ensures r.None? <==> forall u <- users :: u.name != name
  {
    if users == [] then None
    else if users[0].name == name then Some(users[0])
    else FindName(users[1..], name)
  }

  function FindUser(users: seq<Account>, id: nat): (r: Option<Account>)
    ensures r.Some? ==> r.value in users && r.value.id == id
    ensures r.None? <==> forall u <- users :: u.id != id
  {
    if users == [] then None
    else if users[0].id == id then Some(users[0])
    else FindUser(users[1..], id)
  }

  function EnterOne(a: Session, id: nat, member: Member): Session {
    if a.id == id then a.(user := Some(member)) else a
  }

  function EnterAll(ss: seq<Session>, id: nat, member: Member): (r: seq<Session>)
    ensures |r| == |ss| && forall i :: 0 <= i < |ss| ==> r[i] == EnterOne(ss[i], id, member)
  {
    seq(|ss|, i requires 0 <= i < |ss| => EnterOne(ss[i], id, member))
  }

  function ConnectionsOf(online: map<nat, seq<nat>>, user: nat): seq<nat> {
    if user in online then online[user] else []
  }

  /** A connection enters as a user: it joins the user's list, every other user is told, and
      then the connection itself. */
  function Enter(s: State, me: Session, member: Member): State {
    var entered := EnterAll(s.sessions, me.id, member);
    var told := Broadcast(entered, UserLogin(member), member.id);
    s.(sessions := Tell(told, me.id, Feedback(true, OnLogin, true, "")),
       online := s.online[member.id := ConnectionsOf(s.online, member.id) + [me.id]])
  }

  function HandleLogin(s: State, me: Session, encryption: byte, payload: Result<Credentials, string>): State {
    var refusal := Refusal(me, false, ENCRYPTION_SYMMETRIC, encryption);
    if refusal.Some? then Bad(s, me, OnLogin, refusal.value)
    else if payload.Err? then Bad(s, me, OnLogin, payload.error)
    else
      var user := FindName(s.users, payload.value.username);
      if user.None? then Bad(s, me, OnLogin, USER_NOT_FOUND)
      else if user.value.password != payload.value.password then Bad(s, me, OnLogin, PASSWORD_INVALID)
      else Enter(s, me, Member(user.value.id, user.value.name))
  }

  function HandleRegister(s: State, me: Session, encryption: byte, payload: Result<Credentials, string>): State {
    var refusal := Refusal(me, false, ENCRYPTION_SYMMETRIC, encryption);
    if refusal.Some? then Bad(s, me, OnRegister, refusal.value)
    else if payload.Err? then Bad(s, me, OnRegister, MESSAGE_MALFORMED)
    else if FindName(s.users, payload.value.username).Some? then Bad(s, me, OnRegister, USER_NOT_FOUND)
    else
      var user := Account(s.nextUser, payload.value.username, payload.value.password, []);
      Good(s.(users := s.users + [user], nextUser := s.nextUser + 1), me, OnRegister)
  }

  /** The users of the other connections, in the order of the connections; a user with several
      connections comes up several times. */
  function OnlineList(ss: seq<Session>, except: nat): seq<Member> {
    if ss == [] then []
    else
      var n := |ss| - 1;
      OnlineList(ss[..n], except) +
        if ss[n].user == None || ss[n].user.value.id == except then [] else [ss[n].user.value]
  }

  function HandleGetUserOnline(s: State, me: Session, encryption: byte): State {
    var refusal := Refusal(me, true, ENCRYPTION_SYMMETRIC, encryption);
    if refusal.Some? then Bad(s, me, OnGetUserOnline, refusal.value)
    else Reply(s, me, UserOnline(OnlineList(s.sessions, me.user.value.id)))
  }

  function HandleGetUserDetails(s: State, me: Session, encryption: byte, payload: Result<nat, string>): State {
    var refusal := Refusal(me, true, ENCRYPTION_SYMMETRIC, encryption);
    if refusal.Some? then Bad(s, me, OnGetUserDetails, refusal.value)
    else if payload.Err? then Bad(s, me, OnGetUserDetails, MESSAGE_MALFORMED)
    else
      var user := FindUser(s.users, payload.value);
      if user.None? then Bad(s, me, OnGetUserDetails, USER_NOT_FOUND)
      else Reply(s, me, UserDetails(user.value.id, user.value.name, user.value.publicKey))
  }

  function StoreKeyOne(u: Account, id: nat, key: seq<byte>): Account {
    if u.id == id then u.(publicKey := key) else u
  }

  function StoreKey(users: seq<Account>, id: nat, key: seq<byte>): (r: seq<Account>)
    ensures |r| == |users| && forall i :: 0 <= i < |users| ==> r[i] == StoreKeyOne(users[i], id, key)
  {
    seq(|users|, i requires 0 <= i < |users| => StoreKeyOne(users[i], id, key))
  }

  function HandleStorePublicKey(s: State, me: Session, encryption: byte, payload: Result<seq<byte>, string>): State {
    var refusal := Refusal(me, true, ENCRYPTION_SYMMETRIC, encryption);
    if refusal.Some? then Bad(s, me, OnStorePublicKey, refusal.value)
    else if payload.Err? then Bad(s, me, OnStorePublicKey, payload.error)
    else Good(s.(users := StoreKey(s.users, me.user.value.id, payload.value)), me, OnStorePublicKey)
  }

  /** A file goes to every connection of the user that its header names, with the sender's id in
      place of that user's; refusals before that are not encrypted. */
  function HandleSendFile(s: State, me: Session, message: Message): State {
    var refusal := Refusal(me, true, ENCRYPTION_NONE, Parse(message.header).encryption);
    if refusal.Some? then Reply(s, me, Feedback(false, OnSendFile, false, refusal.value))
    else
      var target := Parse(message.header).opponentId;
      if target !in s.online then Bad(s, me, OnSendFile, USER_ID_NOT_FOUND)
      else
        var copy := File(WithOpponent(message, me.user.value.id));
        Good(s.(sessions := FanOut(s.sessions, s.online[target], copy)), me, OnSendFile)
  }

  function Handle(s: State, me: Session, message: Message, request: Request): State {
    var encryption := Parse(message.header).encryption;
    match request
    case Login(p) => HandleLogin(s, me, encryption, p)
    case Register(p) => HandleRegister(s, me, encryption, p)
    case GetUserOnline => HandleGetUserOnline(s, me, encryption)
    case GetUserDetails(p) => HandleGetUserDetails(s, me, encryption, p)
    case StorePublicKey(p) => HandleStorePublicKey(s, me, encryption, p)
    case SendFile => HandleSendFile(s, me, message)
    case Unexpected => s
  }

  function Accept(s: State): State {
    s.(sessions := s.sessions + [Session(s.nextConnection, None, [ServerDetails])],
        nextConnection := s.nextConnection + 1)
  }

  function Erase(ids: seq<nat>, id: nat): (r: seq<nat>)
    ensures forall c :: c in r <==> c in ids && c != id
    ensures |r| <= |ids|
  {
    if ids == [] then []
    else
      var n := |ids| - 1;
      Erase(ids[..n], id) + if ids[n] == id then [] else [ids[n]]
  }

  function EraseSession(ss: seq<Session>, id: nat): (r: seq<Session>)
    ensures forall a :: a in r <==> a in ss && a.id != id
    ensures |r| <= |ss|
  {
    if ss == [] then []
    else
      var n := |ss| - 1;
      EraseSession(ss[..n], id) + if ss[n].id == id then [] else [ss[n]]
  }

  /** A connection of a user goes; with the last one the user goes offline, and the other users
      are told. */
  function Leave(s: State, me: Session, user: nat): State {
    var left := Erase(ConnectionsOf(s.online, user), me.id);
    if left == [] then
      s.(online := s.online - {user}, sessions := Broadcast(s.sessions, UserLogout(user), user))
    else s.(online := s.online[user := left])
  }

  function Close(s: State, me: Session): State {
    var left := if me.user.Some? then Leave(s, me, me.user.value.id) else s;
    left.(sessions := EraseSession(left.sessions, me.id))
  }

  function FindSession(ss: seq<Session>, id: nat): (r: Option<Session>)
    ensures r.Some? ==> r.value in ss && r.value.id == id
    ensures r.None? <==> !HasId(ss, id)
  {
    if ss == [] then None
    else if ss[0].id == id then Some(ss[0])
    else
      assert forall i :: 0 < i < |ss| ==> ss[i] == ss[1..][i - 1];
      assert forall i :: 0 <= i < |ss| - 1 ==> ss[1..][i] == ss[i + 1];
      FindSession(ss[1..], id)
  }

  /** One event; events of connections that are gone do not happen. */
  function StepOn(s: State, e: Event): State {
    match e
    case Accepted => Accept(s)
    case Received(id, message, request) =>
      (match FindSession(s.sessions, id) case None => s case Some(me) => Handle(s, me, message, request))
    case Closed(id) =>
      (match FindSession(s.sessions, id) case None => s case Some(me) => Close(s, me))
  }

  function Run(s: State, events: seq<Event>): State
    decreases |events|
  {
    if events == [] then s else Run(StepOn(s, events[0]), events[1..])
  }
}
