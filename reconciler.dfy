/** The chat screens' message list: loading a conversation's history, the
    `receive-message` handler that appends live messages without duplicates,
    the room key a conversation joins, and the message a send produces. The
    two screens differ only in where the peer comes from: the selected user's
    id on the wide screen, the route's user id on the narrow one. */
module Reconciler {
  import opened Base
  import opened Text
  import opened ServerRules

  /** A message object as the client holds it. `id` is `None` when `_id` is
      missing or falsy. */
  datatype Record = Record(id: Option<MessageId>, senderId: UserId, receiverId: UserId, text: string, timestamp: int)

  /** The JSON form of a stored message, as the server sends it. */
  function Wire(m: Message): (r: Record)
    ensures r.id == Some(m.id) && r.senderId == m.senderId && r.receiverId == m.receiverId
    ensures r.text == m.text && r.timestamp == m.timestamp
  {
    Record(Some(m.id), m.senderId, m.receiverId, m.text, m.timestamp)
  }

  /** The ids of the records, as `new Set(msgs.map(m => m._id))` holds them
      (a falsy id can never be looked up by the handler, so it is not kept). */
  function IdsOf(rs: seq<Record>): (ids: set<MessageId>)
    ensures forall id :: id in ids <==> exists i :: 0 <= i < |rs| && rs[i].id == Some(id)
  {
    if rs == [] then {}
    else
      var last := rs[|rs| - 1];
      var init := IdsOf(rs[..|rs| - 1]);
      assert forall i :: 0 <= i < |rs| - 1 ==> rs[..|rs| - 1][i] == rs[i];
      init + (if last.id.Some? then {last.id.value} else {})
  }

  /** No id occurs twice in the list. */
  predicate DistinctIds(rs: seq<Record>) {
    forall i, j :: 0 <= i < j < |rs| && rs[i].id.Some? ==> rs[i].id != rs[j].id
  }

  /** The record is between `me` and `peer`, in either direction. An absent
      user (`currentUser?._id` of a null user) matches no record. */
  predicate InConversation(me: Option<UserId>, peer: Option<UserId>, r: Record) {
    || (Some(r.senderId) == me && Some(r.receiverId) == peer)
    || (Some(r.senderId) == peer && Some(r.receiverId) == me)
  }

  /** The handler's test: a truthy id not seen before, and the open conversation. */
  predicate Accepts(seen: set<MessageId>, me: Option<UserId>, peer: Option<UserId>, r: Record) {
    r.id.Some? && r.id.value !in seen && InConversation(me, peer, r)
  }

  /** The visible list and the seen-id set. */
  datatype View = View(messages: seq<Record>, seen: set<MessageId>)

  /** The handler's effect on the view. */
  function Receive(v: View, me: Option<UserId>, peer: Option<UserId>, r: Record): (w: View)
    ensures w != v <==> Accepts(v.seen, me, peer, r)
    ensures |v.messages| <= |w.messages| <= |v.messages| + 1 && w.messages[..|v.messages|] == v.messages
    ensures w.seen - v.seen <= (if r.id.Some? then {r.id.value} else {})
  {
    if Accepts(v.seen, me, peer, r) then View(v.messages + [r], v.seen + {r.id.value}) else v
  }

  /** A stream of live events, handled one after another. */
  function ReceiveAll(v: View, me: Option<UserId>, peer: Option<UserId>, events: seq<Record>): (w: View)
    ensures v.seen <= w.seen
    ensures |v.messages| <= |w.messages| && w.messages[..|v.messages|] == v.messages
    decreases |events|
  {
    if events == [] then v else ReceiveAll(Receive(v, me, peer, events[0]), me, peer, events[1..])
  }

  /** The view after the history fetch: the fetched list, and its ids as seen. */
  function Loaded(fetched: seq<Record>): (v: View)
    ensures v.messages == fetched
    ensures forall id :: id in v.seen <==> exists i :: 0 <= i < |fetched| && fetched[i].id == Some(id)
  {
    View(fetched, IdsOf(fetched))
  }

  /** The seen set is exactly the ids of the visible list. */
  predicate Synced(v: View) {
    v.seen == IdsOf(v.messages)
  }

  lemma IdsOfAppend(rs: seq<Record>, r: Record)
    ensures IdsOf(rs + [r]) == IdsOf(rs) + (if r.id.Some? then {r.id.value} else {})
  {
    assert (rs + [r])[..|rs|] == rs;
  }

  /** An event changes nothing unless its id is truthy and unseen, and nothing
      unless it belongs to the open conversation; an accepted event is appended
      after the untouched earlier messages and its id recorded. */
  lemma ReceiveEffect(v: View, me: Option<UserId>, peer: Option<UserId>, r: Record)
    ensures r.id.None? || r.id.value in v.seen ==> Receive(v, me, peer, r) == v
    ensures !InConversation(me, peer, r) ==> Receive(v, me, peer, r) == v
    ensures Accepts(v.seen, me, peer, r) ==>
      var w := Receive(v, me, peer, r);
      && |w.messages| == |v.messages| + 1
      && w.messages[..|v.messages|] == v.messages
      && w.messages[|v.messages|] == r
      && w.seen == v.seen + {r.id.value}
  {
  }

  /** Handling the same event twice is the same as handling it once. */
  lemma ReceiveIdempotent(v: View, me: Option<UserId>, peer: Option<UserId>, r: Record)
    ensures Receive(Receive(v, me, peer, r), me, peer, r) == Receive(v, me, peer, r)
  {
  }

  /** Handling an event keeps the seen set equal to the list's ids, and keeps
      the list free of repeated ids. */
  lemma ReceiveKeepsSynced(v: View, me: Option<UserId>, peer: Option<UserId>, r: Record)
    requires Synced(v)
    ensures Synced(Receive(v, me, peer, r))
    ensures DistinctIds(v.messages) ==> DistinctIds(Receive(v, me, peer, r).messages)
  {
    IdsOfAppend(v.messages, r);
  }

  lemma {:induction false} ReceiveAllAppend(v: View, me: Option<UserId>, peer: Option<UserId>, a: seq<Record>, b: seq<Record>)
    ensures ReceiveAll(v, me, peer, a + b) == ReceiveAll(ReceiveAll(v, me, peer, a), me, peer, b)
    decreases |a|
  {
    if a != [] {
      assert (a + b)[0] == a[0] && (a + b)[1..] == a[1..] + b;
      ReceiveAllAppend(Receive(v, me, peer, a[0]), me, peer, a[1..], b);
    } else {
      assert a + b == b;
    }
  }

  /** After a stream has been handled, no event of it would be accepted again. */
  lemma {:induction false} ReceiveAllSettles(v: View, me: Option<UserId>, peer: Option<UserId>, events: seq<Record>)
    ensures forall r :: r in events ==> !Accepts(ReceiveAll(v, me, peer, events).seen, me, peer, r)
    decreases |events|
  {
    if events != [] {
      var v1 := Receive(v, me, peer, events[0]);
      ReceiveAllSettles(v1, me, peer, events[1..]);
      var w := ReceiveAll(v, me, peer, events);
      assert v1.seen <= w.seen;
      forall r | r in events ensures !Accepts(w.seen, me, peer, r) {
        if r != events[0] {
          assert r in events[1..];
        }
      }
    }
  }

  /** A stream none of whose events is acceptable leaves the view as it is. */
  lemma {:induction false} ReceiveAllNoneAccepted(v: View, me: Option<UserId>, peer: Option<UserId>, events: seq<Record>)
    requires forall r :: r in events ==> !Accepts(v.seen, me, peer, r)
    ensures ReceiveAll(v, me, peer, events) == v
    decreases |events|
  {
    if events != [] {
      assert events[0] in events;
      ReceiveAllNoneAccepted(v, me, peer, events[1..]);
    }
  }

  /** Duplicate suppression: a stream delivered twice over (a reconnect, a
      message reaching both of the user's sockets) shows as delivered once. */
  lemma ReceiveAllTwice(v: View, me: Option<UserId>, peer: Option<UserId>, events: seq<Record>)
    ensures ReceiveAll(v, me, peer, events + events) == ReceiveAll(v, me, peer, events)
  {
    ReceiveAllAppend(v, me, peer, events, events);
    ReceiveAllSettles(v, me, peer, events);
    ReceiveAllNoneAccepted(ReceiveAll(v, me, peer, events), me, peer, events);
  }

  /** Everything the conversation query returns for (`me`, `peer`) belongs to
      the view's conversation, so loading it and then handling the same
      messages live adds nothing. */
  lemma HistoryBelongs(store: seq<Message>, me: UserId, peer: UserId)
    requires me != "" && peer != ""
    ensures Conversation(store, me, peer).Ok?
    ensures var h := Conversation(store, me, peer).value;
      && (forall m :: m in h ==> InConversation(Some(me), Some(peer), Wire(m)))
      && (forall m :: m in h ==> Receive(Loaded(seq(|h|, i requires 0 <= i < |h| => Wire(h[i]))), Some(me), Some(peer), Wire(m))
                                  == Loaded(seq(|h|, i requires 0 <= i < |h| => Wire(h[i]))))
  {
    var h := Conversation(store, me, peer).value;
    var ws := seq(|h|, i requires 0 <= i < |h| => Wire(h[i]));
    forall m | m in h ensures m.id in IdsOf(ws) {
      var i :| 0 <= i < |h| && h[i] == m;
      assert ws[i].id == Some(m.id);
    }
  }

  /** The room a conversation joins: the two ids in string order, joined by ':'. */
  function RoomKey(a: UserId, b: UserId): (key: string)
    ensures (LexLessEq(a, b) && key == a + ":" + b) || (LexLessEq(b, a) && key == b + ":" + a)
    ensures |key| == |a| + |b| + 1
  {
    LexTotal(a, b);
    if LexLessEq(a, b) then a + ":" + b else b + ":" + a
  }

  /** Both parties of a conversation join the same room. */
  lemma RoomKeySymmetric(a: UserId, b: UserId)
    ensures RoomKey(a, b) == RoomKey(b, a)
  {
    LexTotal(a, b);
    if LexLessEq(a, b) && LexLessEq(b, a) {
      LexAntisymmetric(a, b);
    }
  }

  /** The `join-room` a screen emits: only with a socket, a current user and a
      peer, and then for the room of the two. */
  function JoinRoomRequest(hasSocket: bool, me: Option<UserId>, peer: Option<UserId>): (room: Option<string>)
    ensures room.Some? <==> hasSocket && me.Some? && peer.Some?
    ensures room.Some? ==> room.value == RoomKey(me.value, peer.value)
  {
    if !hasSocket || peer.None? || me.None? then None else Some(RoomKey(me.value, peer.value))
  }

  /** The two parties of a conversation, each on its own screen, ask to join
      the same room. */
  lemma JoinRoomShared(a: UserId, b: UserId)
    ensures JoinRoomRequest(true, Some(a), Some(b)) == JoinRoomRequest(true, Some(b), Some(a)) != None
  {
    RoomKeySymmetric(a, b);
  }

  /** The `send-message` payload; the server ignores `timestamp`. */
  datatype SendRequest = SendRequest(senderId: UserId, receiverId: UserId, text: string, timestamp: int)

  /** `handleSend` on the wide screen: nothing without both users; otherwise
      one message from the current user to the selected one. */
  function ComposeFromChat(current: Option<UserId>, selected: Option<UserId>, text: string, now: int): (req: Option<SendRequest>)
    ensures req.Some? <==> current.Some? && selected.Some?
    ensures req.Some? ==> req.value == SendRequest(current.value, selected.value, text, now)
  {
    if selected.None? || current.None? then None
    else Some(SendRequest(current.value, selected.value, text, now))
  }

  /** `handleSend` on the narrow screen: it waits for the fetched profile of the
      peer, but addresses the message to the route's user id. */
  function ComposeFromChatPage(current: Option<UserId>, selectedLoaded: Option<UserId>, routeUserId: UserId, text: string, now: int)
    : (req: Option<SendRequest>)
    ensures req.Some? <==> current.Some? && selectedLoaded.Some?
    ensures req.Some? ==> req.value.senderId == current.value && req.value.receiverId == routeUserId
    ensures req.Some? ==> req.value.text == text
  {
    if selectedLoaded.None? || current.None? then None
    else Some(SendRequest(current.value, routeUserId, text, now))
  }

  /** The two screens send the same message once the loaded profile is the
      route's user. */
  lemma ComposeAgree(current: Option<UserId>, routeUserId: UserId, text: string, now: int)
    ensures ComposeFromChatPage(current, Some(routeUserId), routeUserId, text, now)
         == ComposeFromChat(current, Some(routeUserId), text, now)
  {
  }

  /** The relay's echo of a sent message: once stored under a fresh id, it is
      accepted by the sender's view of the conversation and by the receiver's. */
  lemma EchoAccepted(me: UserId, peer: UserId, text: string, t: int, id: MessageId, now: int,
                     seenMine: set<MessageId>, seenTheirs: set<MessageId>)
    requires id !in seenMine && id !in seenTheirs
    ensures var req := ComposeFromChat(Some(me), Some(peer), text, t).value;
      var echo := Wire(Message(id, req.senderId, req.receiverId, req.text, now));
      && Accepts(seenMine, Some(me), Some(peer), echo)
      && Accepts(seenTheirs, Some(peer), Some(me), echo)
  {
  }

  /** The open conversation of one screen: `me` is the current user, `peer` the
      selected (or routed) user, `messages` the visible list and `seen` the
      `messageIds` set. */
  class ConversationView {
    var me: Option<UserId>
    var peer: Option<UserId>
    var messages: seq<Record>
    var seen: set<MessageId>

    ghost predicate Valid()
      reads this
    {
      Synced(View(messages, seen))
    }

    constructor (me: Option<UserId>, peer: Option<UserId>)
      ensures Valid()
      ensures this.me == me && this.peer == peer && messages == [] && seen == {}
    {
      this.me, this.peer := me, peer;
      messages, seen := [], {};
    }

    /** The history fetch resolving: the list is replaced and the seen set
      reset to the fetched ids. */
    method LoadHistory(fetched: seq<Record>)
      modifies this`messages, this`seen
      ensures Valid()
      ensures View(messages, seen) == Loaded(fetched)
    {
      var ids: set<MessageId> := {};
      var i := 0;
      while i < |fetched|
        invariant 0 <= i <= |fetched|
        invariant ids == IdsOf(fetched[..i])
      {
        assert fetched[..i + 1] == fetched[..i] + [fetched[i]];
        IdsOfAppend(fetched[..i], fetched[i]);
        if fetched[i].id.Some? {
          ids := ids + {fetched[i].id.value};
        }
        i := i + 1;
      }
      assert fetched[..i] == fetched;
      messages, seen := fetched, ids;
    }

    /** `handleReceive`. */
    method HandleReceive(data: Record)
      requires Valid()
      modifies this`messages, this`seen
      ensures Valid()
      ensures View(messages, seen) == Receive(old(View(messages, seen)), me, peer, data)
      ensures DistinctIds(old(messages)) ==> DistinctIds(messages)
    {
      ReceiveKeepsSynced(View(messages, seen), me, peer, data);
      if data.id.Some? && data.id.value !in seen {
        if InConversation(me, peer, data) {
          seen := seen + {data.id.value};
          messages := messages + [data];
        }
      }
    }

    /** Picking another user: the peer changes at once, the list only when the
      new history arrives. */
    method SelectPeer(p: UserId)
      requires Valid()
      modifies this`peer
      ensures Valid()
      ensures peer == Some(p)
    {
      peer := Some(p);
    }
  }
}
