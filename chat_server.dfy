/** The server's in-memory state and the handlers that change it: the
    user-to-socket registry and the socket events (`identify`, `send-message`,
    `join-room`, `disconnect`), and the HTTP handlers that write to the user
    and message collections (register, add contact, profile update, user
    deletion, `POST /messages`). */
module ChatServer {
  import opened Base
  import opened UserSchema
  import opened ServerRules

  /** One `io.to(socket).emit(event, message)`. */
  datatype Emit = Emit(socket: SocketId, event: string, message: Message)

  /** The delivery `send-message` makes to one party: one `receive-message` to
      the party's registered socket, none when the registry has no (truthy)
      socket for it. */
  function DeliverTo(socketOf: map<UserId, SocketId>, userId: UserId, m: Message): (out: seq<Emit>)
    ensures |out| <= 1
    ensures out != [] <==> userId in socketOf && socketOf[userId] != ""
    ensures out != [] ==> out[0] == Emit(socketOf[userId], "receive-message", m)
  {
    if userId in socketOf && socketOf[userId] != "" then [Emit(socketOf[userId], "receive-message", m)] else []
  }

  predicate Distinct<T(==)>(s: seq<T>) {
    forall i, j :: 0 <= i < j < |s| ==> s[i] != s[j]
  }

  /** The position, in key order, of the first user registered with socket `sock`. */
  function FirstWithSocket(order: seq<UserId>, socketOf: map<UserId, SocketId>, sock: SocketId): (r: Option<nat>)
    requires forall u :: u in order ==> u in socketOf
    ensures r.Some? ==> r.value < |order| && socketOf[order[r.value]] == sock
    ensures r.Some? ==> forall j :: 0 <= j < r.value ==> socketOf[order[j]] != sock
    ensures r.None? <==> forall j :: 0 <= j < |order| ==> socketOf[order[j]] != sock
  {
    if order == [] then None
    else if socketOf[order[0]] == sock then Some(0)
    else match FirstWithSocket(order[1..], socketOf, sock)
      case None => None
      case Some(k) => Some(k + 1)
  }

  /** The first match is the only position that matches with no match before it. */
  lemma FirstWithSocketAt(order: seq<UserId>, socketOf: map<UserId, SocketId>, sock: SocketId, i: nat)
    requires forall u :: u in order ==> u in socketOf
    requires i < |order| && socketOf[order[i]] == sock
    requires forall j :: 0 <= j < i ==> socketOf[order[j]] != sock
    ensures FirstWithSocket(order, socketOf, sock) == Some(i)
  {
  }

  /** Taking one key out of a duplicate-free key order leaves the other keys. */
  lemma RemoveKey(order: seq<UserId>, i: nat)
    requires Distinct(order) && i < |order|
    ensures var o := order[..i] + order[i + 1..];
      && Distinct(o)
      && forall v :: v in o <==> v in order && v != order[i]
  {
    var o := order[..i] + order[i + 1..];
    forall v ensures v in o <==> v in order && v != order[i] {
      if v in order {
        var j :| 0 <= j < |order| && order[j] == v;
        if j < i { assert o[j] == v; }
        else if j > i { assert o[j - 1] == v; }
      }
    }
    forall a, b | 0 <= a < b < |o| ensures o[a] != o[b] {
      var a' := if a < i then a else a + 1;
      var b' := if b < i then b else b + 1;
      assert o[a] == order[a'] && o[b] == order[b'];
    }
  }

  /** Removing the entry at position `i` from a registry and its key order
      keeps the key order duplicate-free and listing exactly the entries. */
  lemma RegistryWithout(order: seq<UserId>, socketOf: map<UserId, SocketId>, i: nat)
    requires Distinct(order) && i < |order|
    requires forall u :: u in order <==> u in socketOf
    ensures var o := order[..i] + order[i + 1..];
      && Distinct(o)
      && forall v :: v in o <==> v in socketOf - {order[i]}
  {
    RemoveKey(order, i);
  }

  /** When a socket is registered for two users, closing it unregisters only the
      one registered first; the later one keeps pointing at the closed socket. */
  lemma DisconnectKeepsLaterAlias(order: seq<UserId>, socketOf: map<UserId, SocketId>, sock: SocketId, i: nat, j: nat)
    requires forall u :: u in order ==> u in socketOf
    requires Distinct(order)
    requires i < j < |order| && socketOf[order[i]] == sock && socketOf[order[j]] == sock
    ensures var k := FirstWithSocket(order, socketOf, sock);
      && k.Some? && k.value <= i
      && order[j] in socketOf - {order[k.value]}
      && (socketOf - {order[k.value]})[order[j]] == sock
  {
    var k := FirstWithSocket(order, socketOf, sock);
    assert k.Some?;
    assert k.value <= i;
  }

  /** The process-wide server state. `socketOf` and `keyOrder` are together
      the `userSocketMap` object: its entries, and the order in which its keys
      were first assigned, which is the order `Object.entries` lists them in. */
  class Server {
    var users: seq<User>
    var messages: seq<Message>
    var nextMessageId: nat
    var socketOf: map<UserId, SocketId>
    var keyOrder: seq<UserId>
    var rooms: set<(SocketId, string)>

    ghost predicate Valid()
      reads this
    {
      && CollectionValid(users)
      && (forall i :: 0 <= i < |users| ==> Distinct(users[i].contacts))
      && (forall i :: 0 <= i < |messages| ==> messages[i].id < nextMessageId)
      && UniqueMessageIds(messages)
      && Distinct(keyOrder)
      && (forall u :: u in keyOrder <==> u in socketOf)
    }

    constructor ()
      ensures Valid()
      ensures users == [] && messages == [] && socketOf == map[] && keyOrder == [] && rooms == {}
    {
      users, messages, nextMessageId := [], [], 0;
      socketOf, keyOrder, rooms := map[], [], {};
    }

    /** `identify`: the socket becomes the user's socket, replacing any earlier one. */
    method Identify(userId: UserId, sock: SocketId)
      requires Valid()
      modifies this`socketOf, this`keyOrder
      ensures Valid()
      ensures socketOf == old(socketOf)[userId := sock]
      ensures keyOrder == if userId in old(socketOf) then old(keyOrder) else old(keyOrder) + [userId]
    {
      if userId !in socketOf {
        keyOrder := keyOrder + [userId];
      }
      socketOf := socketOf[userId := sock];
    }

    /** `disconnect`: scans the registry in key order and removes the first entry
      whose socket is the closing one, and only that entry. */
    method Disconnect(sock: SocketId) returns (removed: Option<UserId>)
      requires Valid()
      modifies this`socketOf, this`keyOrder
      ensures Valid()
      ensures var k := FirstWithSocket(old(keyOrder), old(socketOf), sock);
        && (k.None? ==> removed.None? && socketOf == old(socketOf) && keyOrder == old(keyOrder))
        && (k.Some? ==>
          && removed == Some(old(keyOrder)[k.value])
          && socketOf == old(socketOf) - {old(keyOrder)[k.value]}
          && keyOrder == old(keyOrder)[..k.value] + old(keyOrder)[k.value + 1..])
    {
      removed := None;
      var i := 0;
      while i < |keyOrder|
        invariant 0 <= i <= |keyOrder|
        invariant keyOrder == old(keyOrder) && socketOf == old(socketOf)
        invariant forall j :: 0 <= j < i ==> socketOf[keyOrder[j]] != sock
      {
        var u := keyOrder[i];
        if socketOf[u] == sock {
          RegistryWithout(keyOrder, socketOf, i);
          FirstWithSocketAt(keyOrder, socketOf, sock, i);
          socketOf, keyOrder := socketOf - {u}, keyOrder[..i] + keyOrder[i + 1..];
          return Some(u);
        }
        i := i + 1;
      }
    }

    /** `join-room`: the socket joins the room; nothing is ever sent to a room. */
    method JoinRoom(sock: SocketId, roomId: string)
      requires Valid()
      modifies this`rooms
      ensures Valid()
      ensures rooms == old(rooms) + {(sock, roomId)}
    {
      rooms := rooms + {(sock, roomId)};
    }

    /** `send-message`: stores the message under a fresh id with the server's
      time (the client's timestamp is ignored), then emits it to the sender's
      socket and then to the receiver's, skipping a party with no socket. When
      the store fails nothing is stored and nothing is emitted. */
    method SendMessage(senderId: UserId, receiverId: UserId, text: string, clientTimestamp: int, now: int, storeAvailable: bool)
      returns (emits: seq<Emit>)
      requires Valid()
      modifies this`messages, this`nextMessageId
      ensures Valid()
      ensures !storeAvailable ==> emits == [] && messages == old(messages)
      ensures storeAvailable ==>
        var saved := Message(old(nextMessageId), senderId, receiverId, text, now);
        && messages == old(messages) + [saved]
        && emits == DeliverTo(socketOf, senderId, saved) + DeliverTo(socketOf, receiverId, saved)
      ensures forall e :: e in emits ==> e.message in messages && e.message !in old(messages)
    {
      if !storeAvailable {
        return [];
      }
      var saved := Message(nextMessageId, senderId, receiverId, text, now);
      messages := messages + [saved];
      nextMessageId := nextMessageId + 1;
      emits := [];
      if senderId in socketOf && socketOf[senderId] != "" {
        emits := emits + [Emit(socketOf[senderId], "receive-message", saved)];
      }
      if receiverId in socketOf && socketOf[receiverId] != "" {
        emits := emits + [Emit(socketOf[receiverId], "receive-message", saved)];
      }
    }

    /** `POST /messages`: 400 unless sender, receiver and text are all given;
      otherwise exactly one new message is stored and returned. */
    method PostMessage(senderId: string, receiverId: string, text: string, now: int, storeAvailable: bool)
      returns (r: Result<Message, HttpError>)
      requires Valid()
      modifies this`messages, this`nextMessageId
      ensures Valid()
      ensures PostMessageError(senderId, receiverId, text).Some? ==>
        r == Err(PostMessageError(senderId, receiverId, text).value)
      ensures PostMessageError(senderId, receiverId, text).None? ==> (r.Ok? <==> storeAvailable)
      ensures PostMessageError(senderId, receiverId, text).None? && !storeAvailable ==> r == Err(ServerError)
      ensures r.Err? ==> messages == old(messages)
      ensures r.Ok? ==>
        && r.value == Message(old(nextMessageId), senderId, receiverId, text, now)
        && r.value !in old(messages)
        && messages == old(messages) + [r.value]
    {
      var e := PostMessageError(senderId, receiverId, text);
      if e.Some? {
        return Err(e.value);
      }
      if !storeAvailable {
        return Err(ServerError);
      }
      var saved := Message(nextMessageId, senderId, receiverId, text, now);
      messages := messages + [saved];
      nextMessageId := nextMessageId + 1;
      r := Ok(saved);
    }

    /** `POST /register`: the guards in order, then a new user with the schema
      defaults and the password hash `passwordHash`; `newId` is the id the
      database assigns. */
    method Register(fullName: string, phone: string, password: string, passwordHash: string, newId: UserId)
      returns (r: Result<User, HttpError>)
      requires Valid()
      modifies this`users
      ensures Valid()
      ensures RegisterError(old(users), fullName, phone, password).Some? ==>
        r == Err(RegisterError(old(users), fullName, phone, password).value)
      ensures (RegisterError(old(users), fullName, phone, password).None? && passwordHash != ""
        && (forall i :: 0 <= i < |old(users)| ==> old(users)[i].id != newId))
        ==> r.Ok?
      ensures RegisterError(old(users), fullName, phone, password).None? && r.Err? ==> r == Err(ServerError)
      ensures r.Err? ==> users == old(users)
      ensures r.Ok? ==>
        && r.value == NewUser(newId, fullName, phone, passwordHash)
        && users == old(users) + [r.value]
    {
      var e := RegisterError(users, fullName, phone, password);
      if e.Some? {
        return Err(e.value);
      }
      var u := NewUser(newId, fullName, phone, passwordHash);
      match Insert(users, u)
      case Err(_) =>
        r := Err(ServerError);
      case Ok(us) =>
        users := us;
        r := Ok(u);
    }

    /** `POST /users/:id/contacts`: 400 without a contact id, 404 for an unknown
      user, 400 for a contact already present; otherwise the id is appended. */
    method AddContact(userId: UserId, contactId: UserId) returns (r: Result<seq<UserId>, HttpError>)
      requires Valid()
      modifies this`users
      ensures Valid()
      ensures contactId == "" ==> r == Err(BadRequest("contactId is required"))
      ensures contactId != "" && FindById(old(users), userId).None? ==> r == Err(NotFound("User not found"))
      ensures contactId != "" && FindById(old(users), userId).Some? ==>
        var i := FindById(old(users), userId).value;
        var u := old(users)[i];
        if contactId in u.contacts then r == Err(BadRequest("User already in contacts"))
        else
          && r == Ok(u.contacts + [contactId])
          && users == old(users)[i := u.(contacts := u.contacts + [contactId])]
      ensures r.Err? ==> users == old(users)
    {
      if contactId == "" {
        return Err(BadRequest("contactId is required"));
      }
      var found := FindById(users, userId);
      if found.None? {
        return Err(NotFound("User not found"));
      }
      var i := found.value;
      var u := users[i];
      if contactId in u.contacts {
        return Err(BadRequest("User already in contacts"));
      }
      var v := u.(contacts := u.contacts + [contactId]);
      match Replace(users, i, v)
      case Err(_) =>
        r := Err(ServerError);
      case Ok(us) =>
        users := us;
        r := Ok(v.contacts);
    }

    /** `PATCH /users/:id`: 404 for an unknown user; otherwise the defined fields
      are set and the user saved, which fails (500) when it empties the name. */
    method PatchUser(userId: UserId, fullName: Option<string>, about: Option<string>) returns (r: Result<User, HttpError>)
      requires Valid()
      modifies this`users
      ensures Valid()
      ensures FindById(old(users), userId).None? ==> r == Err(NotFound("User not found"))
      ensures FindById(old(users), userId).Some? ==>
        var i := FindById(old(users), userId).value;
        var v := Patched(old(users)[i], fullName, about);
        if v.fullName == "" then r == Err(ServerError)
        else r == Ok(v) && users == old(users)[i := v]
      ensures r.Err? ==> users == old(users)
    {
      var found := FindById(users, userId);
      if found.None? {
        return Err(NotFound("User not found"));
      }
      var i := found.value;
      var v := Patched(users[i], fullName, about);
      match Replace(users, i, v)
      case Err(_) =>
        r := Err(ServerError);
      case Ok(us) =>
        users := us;
        r := Ok(v);
    }

    /** `DELETE /users/:id`: 404 for an unknown user; otherwise the user and every
      message it sent or received are removed, and the answer names the photo
      file to unlink, if the user had a photo. */
    method DeleteUser(userId: UserId) returns (r: Result<Option<string>, HttpError>)
      requires Valid()
      modifies this`users, this`messages
      ensures Valid()
      ensures FindById(old(users), userId).None? ==>
        r == Err(NotFound("User not found")) && users == old(users) && messages == old(messages)
      ensures FindById(old(users), userId).Some? ==>
        var i := FindById(old(users), userId).value;
        var u := old(users)[i];
        && users == old(users)[..i] + old(users)[i + 1..]
        && messages == WithoutUser(old(messages), userId)
        && r == Ok(if u.profilePhoto != "" then Some(PhotoFilename(u.profilePhoto)) else None)
    {
      var found := FindById(users, userId);
      if found.None? {
        return Err(NotFound("User not found"));
      }
      var i := found.value;
      var u := users[i];
      users := RemoveAt(users, i);
      var photo := if u.profilePhoto != "" then Some(PhotoFilename(u.profilePhoto)) else None;
      WithoutUserKeepsUniqueIds(messages, userId);
      messages := WithoutUser(messages, userId);
      r := Ok(photo);
    }
  }
}
