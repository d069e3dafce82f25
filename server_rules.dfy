/** The request rules of the HTTP server that compute rather than change state:
    the CORS origin decision, the conversation query, the request guards of
    register, login and `POST /messages`, the chat list, the field rules of a
    partial profile update, and what deleting a user removes. */
module ServerRules {
  import opened Base
  import opened Text
  import opened UserSchema

  /** The HTTP failures the handlers answer with (400, 404, 500). */
  datatype HttpError = BadRequest(message: string) | NotFound(message: string) | ServerError

  // ---------------------------------------------------------------- CORS

  const FixedOrigins: seq<string> :=
    ["http://localhost:3000", "http://localhost:5000", "http://127.0.0.1:3000", "http://127.0.0.1:5000"]

  /** The allowed-origin list: the four local origins and `FRONTEND_URL`, from
      which `.filter(Boolean)` drops a missing or empty value. */
  function AllowedOrigins(frontendUrl: Option<string>): (list: seq<string>)
    ensures forall o :: o in list <==>
      o in FixedOrigins || (frontendUrl.Some? && frontendUrl.value != "" && o == frontendUrl.value)
    ensures "" !in list
  {
    FixedOrigins + (if frontendUrl.Some? && frontendUrl.value != "" then [frontendUrl.value] else [])
  }

  /** The origin callback of the CORS options: `true` for `callback(null, true)`,
      `false` for the "Not allowed by CORS" error. A missing Origin header and an
      empty one are both falsy. */
  function CorsAllows(origin: Option<string>, frontendUrl: Option<string>, nodeEnv: Option<string>): (allowed: bool)
    ensures origin == None || origin == Some("") ==> allowed
    ensures origin.Some? && StartsWith(origin.value, "http://192.168.") ==> allowed
    ensures nodeEnv != Some("production") ==> allowed
    ensures nodeEnv == Some("production") && origin.Some? && origin.value != ""
      && !StartsWith(origin.value, "http://192.168.")
      ==> (allowed <==> origin.value in FixedOrigins || Some(origin.value) == frontendUrl)
  {
    if origin.None? || origin.value == "" then true
    else if StartsWith(origin.value, "http://192.168.") then true
    else origin.value in AllowedOrigins(frontendUrl) || nodeEnv != Some("production")
  }

  // ------------------------------------------------------ GET /messages

  /** The messages exchanged between `a` and `b`, in store order. */
  function ExchangedBetween(store: seq<Message>, a: UserId, b: UserId): (r: seq<Message>)
    ensures forall m :: m in r <==> m in store && Between(m, a, b)
    ensures |r| <= |store|
  {
    if store == [] then []
    else (if Between(store[0], a, b) then [store[0]] else []) + ExchangedBetween(store[1..], a, b)
  }

  /** The selection keeps every message between the two as often as it is
      stored, and no other message. */
  lemma {:induction false} ExchangedBetweenCounts(store: seq<Message>, a: UserId, b: UserId)
    ensures forall m ::
      multiset(ExchangedBetween(store, a, b))[m] == if Between(m, a, b) then multiset(store)[m] else 0
  {
    if store != [] {
      ExchangedBetweenCounts(store[1..], a, b);
      assert store == [store[0]] + store[1..];
    }
  }

  lemma {:induction false} ExchangedBetweenSymmetric(store: seq<Message>, a: UserId, b: UserId)
    ensures ExchangedBetween(store, a, b) == ExchangedBetween(store, b, a)
  {
    if store != [] {
      ExchangedBetweenSymmetric(store[1..], a, b);
    }
  }

  predicate SortedByTime(ms: seq<Message>) {
    forall i, j :: 0 <= i < j < |ms| ==> ms[i].timestamp <= ms[j].timestamp
  }

  /** Putting an older message in front of a sorted list that already holds
      `m` keeps it sorted and adds that message once. */
  lemma ConsOlder(x: Message, m: Message, rest: seq<Message>, tail: seq<Message>)
    requires SortedByTime(rest) && SortedByTime([x] + tail)
    requires x.timestamp < m.timestamp
    requires multiset(rest) == multiset(tail) + multiset{m}
    ensures SortedByTime([x] + rest)
    ensures multiset([x] + rest) == multiset([x] + tail) + multiset{m}
  {
    forall y | y in rest ensures x.timestamp <= y.timestamp {
      assert y in multiset(rest);
      if y != m {
        assert y in multiset(tail);
        var j :| 0 <= j < |tail| && tail[j] == y;
        assert ([x] + tail)[0] == x && ([x] + tail)[j + 1] == y;
      }
    }
    var r := [x] + rest;
    forall i, j | 0 <= i < j < |r| ensures r[i].timestamp <= r[j].timestamp {
      if i == 0 { assert r[j] in rest; } else { assert r[i] == rest[i - 1] && r[j] == rest[j - 1]; }
    }
  }

  /** Puts `m` before the first message that is not older than it. */
  function InsertByTime(m: Message, sorted: seq<Message>): (r: seq<Message>)
    requires SortedByTime(sorted)
    ensures SortedByTime(r)
    ensures multiset(r) == multiset(sorted) + multiset{m}
  {
    if sorted == [] || m.timestamp <= sorted[0].timestamp then
      [m] + sorted
    else
      var rest := InsertByTime(m, sorted[1..]);
      assert sorted == [sorted[0]] + sorted[1..];
      ConsOlder(sorted[0], m, rest, sorted[1..]);
      [sorted[0]] + rest
  }

  /** `.sort({ timestamp: 1 })`: ascending by time. The query fixes no order
      among messages with equal times; this one keeps their store order. */
  function SortByTime(ms: seq<Message>): (r: seq<Message>)
    ensures SortedByTime(r)
    ensures multiset(r) == multiset(ms)
  {
    if ms == [] then []
    else
      assert ms == [ms[0]] + ms[1..];
      InsertByTime(ms[0], SortByTime(ms[1..]))
  }

  /** `GET /messages?userId=&otherUserId=`: both ids are required; the answer is
      every message between the two, each exactly as often as it is stored, in
      ascending time order. */
  function Conversation(store: seq<Message>, userId: string, otherUserId: string): (r: Result<seq<Message>, HttpError>)
    ensures r.Err? <==> userId == "" || otherUserId == ""
    ensures r.Err? ==> r.error == BadRequest("userId and otherUserId are required")
    ensures r.Ok? ==> SortedByTime(r.value)
    ensures r.Ok? ==> multiset(r.value) == multiset(ExchangedBetween(store, userId, otherUserId))
    ensures r.Ok? ==> forall m :: m in r.value <==> m in store && Between(m, userId, otherUserId)
  {
    if userId == "" || otherUserId == "" then Err(BadRequest("userId and otherUserId are required"))
    else
      var r := SortByTime(ExchangedBetween(store, userId, otherUserId));
      assert forall m :: m in r <==> m in multiset(r);
      Ok(r)
  }

  /** Asking for the conversation of (u, o) or of (o, u) gives the same answer. */
  lemma ConversationSymmetric(store: seq<Message>, u: string, o: string)
    ensures Conversation(store, u, o) == Conversation(store, o, u)
  {
    ExchangedBetweenSymmetric(store, u, o);
  }

  /** A stored message between two users is in the answer to either of them. */
  lemma StoredMessageListed(store: seq<Message>, m: Message)
    requires m in store && m.senderId != "" && m.receiverId != ""
    ensures m in Conversation(store, m.senderId, m.receiverId).value
    ensures m in Conversation(store, m.receiverId, m.senderId).value
  {
  }

  // ----------------------------------------------------- POST /messages

  /** The guard of `POST /messages`: all three fields must be non-empty. */
  function PostMessageError(senderId: string, receiverId: string, text: string): (e: Option<HttpError>)
    ensures e.None? <==> senderId != "" && receiverId != "" && text != ""
    ensures e.Some? ==> e.value == BadRequest("senderId, receiverId, and text are required")
  {
    if senderId == "" || receiverId == "" || text == "" then
      Some(BadRequest("senderId, receiverId, and text are required"))
    else None
  }

  // -------------------------------------------------- register and login

  /** The guards of `POST /register`, in their order: the three fields, then a
      phone number nobody has registered. */
  function RegisterError(users: seq<User>, fullName: string, phone: string, password: string): (e: Option<HttpError>)
    ensures fullName == "" || phone == "" || password == "" ==> e == Some(BadRequest("All fields are required"))
    ensures fullName != "" && phone != "" && password != "" ==>
      (e.Some? <==> exists i :: 0 <= i < |users| && users[i].phone == phone)
    ensures fullName != "" && phone != "" && password != "" && e.Some? ==>
      e == Some(BadRequest("Phone number already registered"))
  {
    if fullName == "" || phone == "" || password == "" then Some(BadRequest("All fields are required"))
    else if FindByPhone(users, phone).Some? then Some(BadRequest("Phone number already registered"))
    else None
  }

  /** The claims of the session token `/login` signs. */
  datatype Session = Session(userId: UserId, phone: string)

  /** `POST /login`; `matches(password, hash)` stands for the password-hash
      comparison. */
  function Login(users: seq<User>, phone: string, password: string, matches: (string, string) -> bool): (r: Result<Session, HttpError>)
    ensures phone == "" || password == "" ==> r == Err(BadRequest("Phone and password are required"))
    ensures phone != "" && password != "" && (forall i :: 0 <= i < |users| ==> users[i].phone != phone)
      ==> r == Err(BadRequest("Phone number does not exist"))
    ensures r.Ok? ==> exists i :: (0 <= i < |users| && users[i].id == r.value.userId
      && users[i].phone == phone && r.value.phone == phone && matches(password, users[i].password))
    ensures UniquePhones(users) && phone != "" && password != ""
      && (exists i :: 0 <= i < |users| && users[i].phone == phone && matches(password, users[i].password))
      ==> r.Ok?
    ensures r == Err(BadRequest("Phone number does not exist"))
      <==> phone != "" && password != "" && FindByPhone(users, phone).None?
    ensures phone != "" && password != "" && FindByPhone(users, phone).Some?
      && !matches(password, users[FindByPhone(users, phone).value].password)
      ==> r == Err(BadRequest("Password does not match"))
    ensures (r.Err? && r.error != BadRequest("Phone and password are required")
      && r.error != BadRequest("Phone number does not exist")) ==> r.error == BadRequest("Password does not match")
  {
    if phone == "" || password == "" then Err(BadRequest("Phone and password are required"))
    else match FindByPhone(users, phone)
      case None => Err(BadRequest("Phone number does not exist"))
      case Some(i) =>
        if !matches(password, users[i].password) then Err(BadRequest("Password does not match"))
        else Ok(Session(users[i].id, users[i].phone))
  }

  /** Once registration has passed its guards and stored the new user with the
      hash of its password, logging in with that phone and password opens a
      session for exactly that user. */
  lemma RegisterThenLogin(users: seq<User>, id: UserId, fullName: string, phone: string, password: string,
                          hash: string, matches: (string, string) -> bool)
    requires CollectionValid(users)
    requires RegisterError(users, fullName, phone, password).None?
    requires Insert(users, NewUser(id, fullName, phone, hash)).Ok?
    requires matches(password, hash)
    ensures Login(Insert(users, NewUser(id, fullName, phone, hash)).value, phone, password, matches)
         == Ok(Session(id, phone))
  {
    var us := Insert(users, NewUser(id, fullName, phone, hash)).value;
    var n := |users|;
    assert us[n] == NewUser(id, fullName, phone, hash);
    var r := Login(us, phone, password, matches);
    assert r.Ok?;
    var i :| 0 <= i < |us| && us[i].id == r.value.userId && us[i].phone == phone
      && r.value.phone == phone && matches(password, us[i].password);
    assert i == n;
  }

  // ------------------------------------------------------ PATCH /users/:id

  /** The fields a `PATCH /users/:id` body sets: only those that are defined. */
  function Patched(u: User, fullName: Option<string>, about: Option<string>): (v: User)
    ensures v.fullName == (if fullName.Some? then fullName.value else u.fullName)
    ensures v.about == (if about.Some? then about.value else u.about)
    ensures v.id == u.id && v.phone == u.phone && v.password == u.password
    ensures v.profilePhoto == u.profilePhoto && v.contacts == u.contacts
  {
    var u1 := if fullName.Some? then u.(fullName := fullName.value) else u;
    if about.Some? then u1.(about := about.value) else u1
  }

  // ------------------------------------------------ GET /users/:id/chats

  /** Users `u` has sent a message to. */
  function SentTo(store: seq<Message>, u: UserId): (r: set<UserId>)
    ensures forall v :: v in r <==> exists m :: m in store && m.senderId == u && m.receiverId == v
  {
    set m | m in store && m.senderId == u :: m.receiverId
  }

  /** Users who have sent `u` a message. */
  function ReceivedFrom(store: seq<Message>, u: UserId): (r: set<UserId>)
    ensures forall v :: v in r <==> exists m :: m in store && m.receiverId == u && m.senderId == v
  {
    set m | m in store && m.receiverId == u :: m.senderId
  }

  /** `User.find({ _id: { $in: ids }, phone: { $ne: 'admin' } })`, in store order. */
  function FindListed(users: seq<User>, ids: set<UserId>): (r: seq<User>)
    ensures forall v :: v in r <==> v in users && v.id in ids && v.phone != "admin"
    ensures UniqueIds(users) ==> UniqueIds(r)
  {
    if users == [] then []
    else
      var rest := FindListed(users[1..], ids);
      if users[0].id in ids && users[0].phone != "admin" then
        assert UniqueIds(users) ==> forall v :: v in rest ==> v.id != users[0].id by {
          if UniqueIds(users) {
            forall v | v in rest ensures v.id != users[0].id {
              var j :| 0 <= j < |users[1..]| && users[1..][j] == v;
              assert users[j + 1] == v;
            }
          }
        }
        [users[0]] + rest
      else rest
  }

  /** The chat partners of `userId`: its contacts and everyone it has exchanged a
      message with, without itself and without any user whose phone is `admin`. */
  function ChatList(users: seq<User>, store: seq<Message>, userId: UserId): (r: Result<seq<User>, HttpError>)
    ensures r.Err? <==> forall j :: 0 <= j < |users| ==> users[j].id != userId
    ensures r.Err? ==> r.error == NotFound("User not found")
    ensures r.Ok? ==> var owner := users[FindById(users, userId).value];
      forall v :: v in r.value <==>
        && v in users
        && v.id != userId
        && v.phone != "admin"
        && (v.id in owner.contacts || exists m :: m in store && Between(m, userId, v.id))
    ensures r.Ok? && UniqueIds(users) ==> UniqueIds(r.value)
  {
    match FindById(users, userId)
    case None => Err(NotFound("User not found"))
    case Some(i) =>
      var messaged := SentTo(store, userId) + ReceivedFrom(store, userId);
      var all := (set c | c in users[i].contacts) + messaged;
      var r := FindListed(users, all - {userId});
      assert forall v :: v in r ==> (v.id in messaged <==> exists m :: m in store && Between(m, userId, v.id));
      Ok(r)
  }

  // ----------------------------------------------------- DELETE /users/:id

  /** The messages that survive deleting `userId`: those it neither sent nor received. */
  function WithoutUser(store: seq<Message>, userId: UserId): (r: seq<Message>)
    ensures forall m :: m in r <==> m in store && m.senderId != userId && m.receiverId != userId
    ensures |r| <= |store|
  {
    if store == [] then []
    else
      (if store[0].senderId != userId && store[0].receiverId != userId then [store[0]] else [])
      + WithoutUser(store[1..], userId)
  }

  /** The messages that survive a user's deletion keep distinct ids. */
  lemma {:induction false} WithoutUserKeepsUniqueIds(store: seq<Message>, userId: UserId)
    requires UniqueMessageIds(store)
    ensures UniqueMessageIds(WithoutUser(store, userId))
  {
    if store != [] {
      WithoutUserKeepsUniqueIds(store[1..], userId);
      var rest := WithoutUser(store[1..], userId);
      if store[0].senderId != userId && store[0].receiverId != userId {
        var w := [store[0]] + rest;
        forall i, j | 0 <= i < j < |w| ensures w[i].id != w[j].id {
          if i == 0 {
            var m := rest[j - 1];
            assert m in store[1..];
            var k :| 0 <= k < |store[1..]| && store[1..][k] == m;
            assert store[k + 1] == m;
          } else {
            assert w[i] == rest[i - 1] && w[j] == rest[j - 1];
          }
        }
      }
    }
  }

  /** Deleting a user leaves no conversation of it behind, and every
      conversation between two other users is untouched, order included. */
  lemma {:induction false} DeleteCascade(store: seq<Message>, x: UserId, a: UserId, b: UserId)
    ensures a == x || b == x ==> ExchangedBetween(WithoutUser(store, x), a, b) == []
    ensures a != x && b != x ==> ExchangedBetween(WithoutUser(store, x), a, b) == ExchangedBetween(store, a, b)
  {
    if store != [] {
      DeleteCascade(store[1..], x, a, b);
      var w := WithoutUser(store, x);
      var rest := WithoutUser(store[1..], x);
      if store[0].senderId != x && store[0].receiverId != x {
        assert w == [store[0]] + rest && w[1..] == rest;
      } else {
        assert w == rest;
      }
    }
  }

  /** The file name of a stored profile photo: for a URL, the text after its
      last `/`; otherwise the stored value itself. */
  function PhotoFilename(profilePhoto: string): (name: string)
    ensures !StartsWith(profilePhoto, "http") ==> name == profilePhoto
    ensures StartsWith(profilePhoto, "http") ==>
      && '/' !in name
      && |name| <= |profilePhoto|
      && name == profilePhoto[|profilePhoto| - |name|..]
      && ('/' in profilePhoto ==> profilePhoto[|profilePhoto| - |name| - 1] == '/')
      && ('/' !in profilePhoto ==> name == profilePhoto)
  {
    if StartsWith(profilePhoto, "http") then
      var parts := Split(profilePhoto, '/');
      var k := AfterLast(profilePhoto, '/');
      SplitEnds(profilePhoto, '/');
      assert parts[|parts| - 1] == profilePhoto[k..] && |profilePhoto[k..]| == |profilePhoto| - k;
      parts[|parts| - 1]
    else profilePhoto
  }
}
