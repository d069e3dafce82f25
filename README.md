# Chatr in Dafny

Chatr is a one-to-one chat application. It has two parts:

- An Express and Socket.IO server keeps the users and messages in MongoDB. It relays each new message to the sockets of its sender and receiver.
- A React client shows each user's chat list and the open conversation, and sends messages over the socket.

This project models the logic of both parts and proves properties of it.

**Server.** The server's state is the class `ChatServer.Server`. Its fields are:

- the users collection;
- the messages collection;
- the `userSocketMap` registry, which is an entry map plus the order in which its keys were first assigned;
- the rooms that sockets have joined.

These handlers are methods that change that state: the socket events `identify`, `send-message`, `join-room` and `disconnect`, and the HTTP routes that write (register, add contact, profile update, user deletion, `POST /messages`).

The routes that only compute are functions in `ServerRules`: the CORS origin callback, the conversation query, the login and request guards, and the chat list. The User document and what saving it checks are in `UserSchema`.

**Client.** The client is modelled screen by screen:

- `Reconciler` covers the conversation list. It has the history load, the `receive-message` handler that appends live messages without duplicates, the room key and the message a send produces. The class `ConversationView` holds the list and its seen-id set.
- `MessageList` is the narrow screen's date grouping and bubble alignment loop.
- `Sidebar` is the chat list: photo or initials badge, image-error fallback and click navigation.
- `MessageInput` is the message box (class `Input`).
- `ApiBase` is the choice of the API base URL.
- `Avatar` has the `getInitials` and `stringToColor` helpers. Each client screen carries its own identical copy of them; they are defined once here.
- `Text` gives the JavaScript string operations these rely on: `trim`, `split(' ')`, `startsWith`, `includes`, the default string order of `sort()`, and upper-casing.

**Notable behaviour the model keeps:**

- `disconnect` removes only the first registry entry, in key order, whose socket is the closing one. A later alias keeps pointing at the closed socket.
- `getInitials` throws (`Err(TypeError)`) on a name that is non-empty but blank.
- The colour hue is the string hash (whose `<< 5` step wraps to 32 bits) reduced with JavaScript's truncating `%`, so it can be negative.
- Deleting a user removes its messages but leaves its id in other users' contact lists.

## Model

| member | source | states |
|---|---|---|
| UserSchema.NewUser | server/User.js:3-10 | A new document has the given name, phone and password, an empty photo, the about text "Available" and no contacts |
| UserSchema.Insert | server/User.js:3-10 | Saving fails with a validation error when a required field is empty, and with a duplicate key when the id or phone is taken; otherwise the document is appended and the collection stays valid (unique ids, unique phones, required fields) |
| UserSchema.Replace | server/User.js:3-10 | Re-saving a changed document fails validation when a required field is empty; with the same phone it succeeds and replaces exactly that position; a success keeps the collection valid |
| UserSchema.RemoveAt | server/server.js:169 | `findByIdAndDelete` removes exactly one document, keeps the others in order, and keeps the collection valid |
| UserSchema.FindById | server/server.js:153 | The result is the first position holding the id, and it is absent exactly when no document has the id |
| UserSchema.FindByPhone | server/server.js:74 | The result holds the phone, and it is absent exactly when no document has the phone |
| ServerRules.AllowedOrigins | server/server.js:24-30 | The allowed list is exactly the four local origins plus a non-empty `FRONTEND_URL`; it never contains "" |
| ServerRules.CorsAllows | server/server.js:19-42 | A missing or empty origin is allowed, as are `http://192.168.` origins and every origin outside production; in production any other origin is allowed iff it is a fixed local origin or `FRONTEND_URL` |
| ServerRules.ExchangedBetween | server/server.js:226-230 | The selected messages are exactly the stored ones between the two users, in either direction |
| ServerRules.ExchangedBetweenCounts | server/server.js:226-230 | Each message between the two is selected as often as it is stored, and no other message is selected |
| ServerRules.ExchangedBetweenSymmetric | server/server.js:227-230 | The `$or` filter selects the same messages whichever user is named first |
| ServerRules.InsertByTime | server/server.js:231 | Inserting into a time-sorted list keeps it sorted and adds exactly that message |
| ServerRules.SortByTime | server/server.js:231 | The result is sorted by ascending timestamp and is a permutation of the input |
| ServerRules.Conversation | server/server.js:220-236 | 400 "userId and otherUserId are required" iff an id is empty; otherwise the answer is sorted by time and holds every stored message between the two, as often as it is stored |
| ServerRules.ConversationSymmetric | server/server.js:226-231 | Both participants receive the same conversation |
| ServerRules.StoredMessageListed | server/server.js:226-231 | Every stored message between two users appears in the conversation query of either of them |
| ServerRules.PostMessageError | server/server.js:239-242 | The request passes iff sender, receiver and text are all non-empty; otherwise it is the 400 with the source's message |
| ServerRules.RegisterError | server/server.js:69-77 | An empty field gives "All fields are required"; otherwise the request is refused iff the phone is already registered, with "Phone number already registered" |
| ServerRules.Login | server/server.js:96-123 | The three 400 answers come in the source's order. A session is only issued to a user holding that phone whose hash matches the password. With unique phones, a matching user always gets one |
| ServerRules.RegisterThenLogin | server/server.js:68-123 | After a successful registration stores the password's hash, logging in with that phone and password opens a session for exactly the new user |
| ServerRules.Patched | server/server.js:155-156 | Only the defined fields change, and every other field is kept |
| ServerRules.SentTo | server/server.js:359 | The ids the user has sent a message to, exactly |
| ServerRules.ReceivedFrom | server/server.js:360 | The ids that have sent the user a message, exactly |
| ServerRules.FindListed | server/server.js:371 | The users with a listed id and a phone other than "admin", exactly, and without repeats when the collection has unique ids |
| ServerRules.ChatList | server/server.js:351-376 | 404 iff the user does not exist. Otherwise the list is exactly the other, non-admin users who are contacts or have exchanged a message with the user, without duplicates |
| ServerRules.WithoutUser | server/server.js:199 | The surviving messages are exactly those the user neither sent nor received |
| ServerRules.WithoutUserKeepsUniqueIds | server/server.js:199 | Removing a user's messages keeps the remaining message ids distinct |
| ServerRules.DeleteCascade | server/server.js:199 | After deletion the user's conversations are empty and every conversation between two other users is unchanged, order included |
| ServerRules.PhotoFilename | server/server.js:175-184 | A non-URL photo value is the file name itself; for a URL the name is the slash-free text after its last '/' |
| ChatServer.DeliverTo | server/server.js:405-410 | One `receive-message` to the party's socket iff the registry has a non-empty socket for it, none otherwise |
| ChatServer.FirstWithSocket | server/server.js:423-427 | The first position in key order whose socket is the given one; absent iff none matches |
| ChatServer.DisconnectKeepsLaterAlias | server/server.js:423-428 | When two users share a socket, disconnecting removes an earlier entry and the later user stays registered to the closed socket |
| ChatServer.Server.constructor | server/server.js:389 | The registry and stores start empty and valid |
| ChatServer.Server.Identify | server/server.js:395-397 | The user's socket becomes the given one; a new key is appended to the key order; the registry invariant is kept |
| ChatServer.Server.Disconnect | server/server.js:420-429 | Removes exactly the first entry in key order whose socket is the closing one, or nothing when none matches; the key order stays duplicate-free and in step with the map |
| ChatServer.Server.JoinRoom | server/server.js:416-418 | The socket is added to the room; nothing else changes |
| ChatServer.Server.SendMessage | server/server.js:399-414 | With the store available, one message with a fresh id and the server's time is stored, then emitted to the sender's socket and then the receiver's, each only if registered. A failed save stores and emits nothing. Every emitted message is the new one |
| ChatServer.Server.PostMessage | server/server.js:238-250 | A failed guard gives its 400 and changes nothing; otherwise exactly one new message is stored and returned, or 500 when the store fails |
| ChatServer.Server.Register | server/server.js:68-94 | A failed guard gives its 400 and changes nothing. A success appends the new user with the schema defaults and the password hash, and a save failure is a 500. The collection stays valid |
| ChatServer.Server.AddContact | server/server.js:272-288 | The three error answers come in the source's order and change nothing; otherwise the contact id is appended to that user's contacts alone, and the new list is returned |
| ChatServer.Server.PatchUser | server/server.js:151-163 | 404 for an unknown user. A patch that empties the name fails the save (500) and changes nothing. Otherwise the patched user replaces the old one and is returned |
| ChatServer.Server.DeleteUser | server/server.js:165-205 | 404 and no change for an unknown user. Otherwise the user and every message it sent or received are removed. The answer names the photo file to unlink when the user had a photo |
| Reconciler.Wire | server/server.js:406 | The client-side record of an emitted message carries its id, parties, text and time |
| Reconciler.IdsOf | client/src/pages/Chat.jsx:89 | The seen set holds exactly the truthy ids of the listed messages |
| Reconciler.Loaded | client/src/pages/ChatPage.jsx:74-78 | After the history fetch the list is the fetched messages and the seen set is exactly their ids |
| Reconciler.ReceiveAll | client/src/pages/Chat.jsx:94-117 | Handling a stream of events only appends: the earlier list is kept as a prefix and the seen set only grows |
| Reconciler.Receive | client/src/pages/Chat.jsx:96-106 | The handler changes the view exactly when it accepts the event. It only appends, at most one record, and records no id but the event's |
| Reconciler.ReceiveEffect | client/src/pages/Chat.jsx:96-106 | An event with a falsy or seen id, or outside the open conversation, changes nothing; an accepted one is appended once and its id recorded |
| Reconciler.ReceiveIdempotent | client/src/pages/Chat.jsx:98-105 | Handling the same event twice is the same as handling it once |
| Reconciler.ReceiveKeepsSynced | client/src/pages/ChatPage.jsx:91-98 | The seen set stays exactly the ids of the list, and the list never holds a repeated id |
| Reconciler.ReceiveAllSettles | client/src/pages/ChatPage.jsx:91-98 | After a stream is handled, no event of it would be accepted again |
| Reconciler.ReceiveAllTwice | client/src/pages/Chat.jsx:96-106 | A stream delivered twice over shows exactly as if delivered once |
| Reconciler.HistoryBelongs | client/src/pages/Chat.jsx:82-106 | Every message of the fetched history belongs to the open conversation, and receiving it live afterwards changes nothing |
| Reconciler.RoomKey | client/src/pages/Chat.jsx:121 | The room id is the two user ids joined by ':', the one that sorts first in front |
| Reconciler.RoomKeySymmetric | client/src/pages/Chat.jsx:121 | Both parties of a conversation compute the same room id |
| Reconciler.JoinRoomRequest | client/src/pages/ChatPage.jsx:81-85 | A room is joined iff there is a socket, a current user and a peer, and the room joined is the room key of the two users |
| Reconciler.JoinRoomShared | client/src/pages/Chat.jsx:119-123 | The two parties of a conversation, each on their own screen, ask to join the same room |
| Reconciler.ComposeFromChat | client/src/pages/Chat.jsx:131-140 | A message is sent iff both users are known; it goes from the current user to the selected one with the given text |
| Reconciler.ComposeFromChatPage | client/src/pages/ChatPage.jsx:118-127 | A message is sent iff the current user and the peer's profile are known; it is addressed to the route's user id |
| Reconciler.ComposeAgree | client/src/pages/ChatPage.jsx:118-127 | Once the loaded profile is the route's user, both screens send the same message |
| Reconciler.EchoAccepted | client/src/pages/Chat.jsx:98-104 | The relay's echo of a sent message, stored under a fresh id, is accepted by both the sender's and the receiver's open conversation |
| Reconciler.ConversationView.constructor | client/src/pages/Chat.jsx:34-45 | A screen starts with an empty list and an empty seen set |
| Reconciler.ConversationView.LoadHistory | client/src/pages/Chat.jsx:86-90 | The loop collects the fetched ids; the view becomes exactly the loaded history and stays synced |
| Reconciler.ConversationView.HandleReceive | client/src/pages/Chat.jsx:96-106 | The view changes exactly as the receive rule says; it stays synced and free of repeated ids |
| Reconciler.ConversationView.SelectPeer | client/src/pages/Chat.jsx:82-92 | The peer changes at once; the list and the seen set are kept until the new history arrives |
| Avatar.CharAt0 | client/src/pages/Chat.jsx:28 | `s[0]` as an operand of `+`: the first character, or the text "undefined" for an empty piece |
| Avatar.InitialsOfPieces | client/src/pages/Chat.jsx:27-28 | One empty piece throws; otherwise the initial of the only piece, or of the first and last pieces when both are non-empty |
| Avatar.Initials | client/src/pages/Chat.jsx:24-29 | "" for an empty name; a TypeError for a blank one; else the upper-cased first character of the trimmed name, followed by that of its last word when it has several |
| Avatar.InitialsThrowsIffBlank | client/src/components/Sidebar.jsx:15-20 | `getInitials` throws exactly on names that are non-empty and all whitespace |
| Avatar.CodeUnits | client/src/pages/Chat.jsx:17-18 | `charCodeAt` yields 16-bit code units. A string of characters below U+10000 gives each character's code. A character above gives its high and low surrogates, in the ranges D800-DBFF and DC00-DFFF |
| Avatar.CharUnits | client/src/pages/Chat.jsx:17-18 | A character below U+10000 is one code unit, its own code. A character above is a high surrogate in D800-DBFF followed by a low surrogate in DC00-DFFF |
| Avatar.CodeUnitsAppend | client/src/pages/Chat.jsx:17-18 | The code units of a concatenation are those of its parts in order, so the per-character cases fix the units of every string |
| Avatar.ToInt32 | client/src/pages/Chat.jsx:18 | The result is a signed 32-bit integer congruent to the input modulo 2^32 |
| Avatar.ShiftLeft5 | client/src/pages/Chat.jsx:18 | `hash << 5` is a signed 32-bit integer congruent to 32 times the hash modulo 2^32 |
| Avatar.Hash | client/src/pages/Chat.jsx:16-19 | The loop's value is congruent modulo 2^32 to the polynomial hash `31 * hash + code` (`Poly31`); only the `<< 5` step wraps, and the size of the value is bounded by `Avatar.HashBound` |
| Avatar.HashBound | client/src/pages/Chat.jsx:16-19 | The hash grows by at most 2^31 + 2^16 per code unit, so it stays within ±2^53 for names under 2^21 code units |
| Avatar.Hue | client/src/pages/Chat.jsx:20 | `hash % 360` lies strictly between -360 and 360, has the hash's sign, and is congruent to it modulo 360 |
| Avatar.ColorOf | client/src/components/Sidebar.jsx:6-14 | The colour has saturation 70 and lightness 85, and a hue in (-360, 360) congruent to the name's hash and with the hash's sign, as JavaScript's truncating `%` gives |
| Avatar.StringToColor | client/src/pages/ChatPage.jsx:8-15 | The hashing loop yields exactly the colour of the name |
| MessageList.RenderRows | client/src/pages/ChatPage.jsx:175-190 | One row per message in order; a separator exactly before the first message and each change of day; right alignment exactly for the current user's messages |
| MessageList.SeparatorMarksFirstOfDay | client/src/pages/ChatPage.jsx:176-180 | On a time-ordered list, a message gets a separator iff no earlier message falls on its day |
| Sidebar.BadgeFor | client/src/components/Sidebar.jsx:52-63 | A photo is shown iff the user has one that has not failed, at `<api>/uploads/<photo>`; otherwise the name's initials and colour |
| Sidebar.Render | client/src/components/Sidebar.jsx:45 | One badge per listed user, in order; nothing when `users` is not an array |
| Sidebar.ImageErrors.constructor | client/src/components/Sidebar.jsx:24 | No photo has failed at first |
| Sidebar.ImageErrors.HandleImgError | client/src/components/Sidebar.jsx:28-30 | The user is added to the failed set, and nothing else changes |
| Sidebar.ImgErrorFallsBack | client/src/components/Sidebar.jsx:52-57 | After a user's photo fails, that user shows initials and every other user's badge is unchanged |
| Sidebar.HandleUserClick | client/src/components/Sidebar.jsx:32-40 | Below 768 pixels the click navigates to `/chat/<id>`; otherwise it selects the user, or does nothing without a callback |
| Sidebar.ChatRouteParam | client/src/App.js:38 | A matched path is `/chat/`, in any ASCII case, then the parameter and then only slashes. The parameter is non-empty and has no '/' |
| Sidebar.ChatRouteParamMatches | client/src/App.js:38 | Every such path, with any number of trailing slashes, matches, and its parameter is the segment |
| Sidebar.ClickOpensChatOfUser | client/src/components/Sidebar.jsx:33-35 | On a narrow window the click opens the chat route whose parameter is the clicked user's id |
| MessageInput.Submitted | client/src/components/MessageInput.jsx:6-12 | A submit sends iff the draft is not blank, and sends the draft untrimmed |
| MessageInput.SendEnabled | client/src/components/MessageInput.jsx:27 | The button is enabled iff the box is enabled and the draft is not blank |
| MessageInput.ButtonSendsIffSubmitSends | client/src/components/MessageInput.jsx:8-27 | An enabled box's button is enabled exactly when a submit would send, and then it sends the draft |
| MessageInput.Input.constructor | client/src/components/MessageInput.jsx:4 | The draft starts empty |
| MessageInput.Input.Change | client/src/components/MessageInput.jsx:21 | The draft becomes the input's value |
| MessageInput.Input.Submit | client/src/components/MessageInput.jsx:6-12 | It sends what the submit rule says; a sent draft is cleared, a blank one kept |
| ApiBase.Port | client/src/apiBase.js:3 | The port is the variable when it is set and non-empty, else 3020 |
| ApiBase.GetApiBase | client/src/apiBase.js:1-17 | On railway.app, the page's protocol and host with no port. On localhost, 127.0.0.1 or 192.168.*, plain http with the port. Otherwise the page's protocol, host and port |
| ApiBase.ApiBaseShape | client/src/apiBase.js:6-16 | Every base URL is a scheme, `//`, the host and a suffix. The suffix is empty exactly on railway.app. The scheme is `http:` on a local network and the page's own protocol everywhere else |
| Text.TrimShape | client/src/pages/Chat.jsx:26 | `trim` keeps a contiguous piece of the string and cuts only whitespace around it |
| Text.Trim | client/src/pages/Chat.jsx:26 | `trim` gives a string no longer than its input, whose ends, if any, are not whitespace |
| Text.TrimEmptyIffBlank | client/src/components/MessageInput.jsx:8 | `!s.trim()` holds exactly for strings made entirely of whitespace |
| Text.SplitJoin | server/server.js:181 | Joining the pieces of `split` with the separator gives back the string |
| Text.SplitEnds | server/server.js:181-182 | The last piece of `split` is the text after the last separator; the first starts with the text's first character unless that is a separator; there is one piece iff the separator does not occur |
| Text.Split | client/src/pages/Chat.jsx:26 | `split` gives at least one piece, and no piece holds the separator |
| Text.UpperCase | client/src/pages/Chat.jsx:27-28 | Upper-casing keeps the length and maps each character through `ToUpper` |
| Text.ToUpper | client/src/pages/Chat.jsx:27-28 | A lower-case ASCII letter becomes its capital; every other character is kept |
| Text.StartsWith | client/src/apiBase.js:11 | `startsWith` holds exactly when the string is the prefix followed by some rest |
| Text.IndexFrom | client/src/apiBase.js:6 | The search returns the first position at or after the start where the needle occurs, or -1 exactly when there is none |
| Text.Includes | client/src/apiBase.js:6 | `includes` holds exactly when the needle occurs at some position |
| Text.ToLower | client/src/App.js:38 | A capital ASCII letter becomes lower case; every other character is kept |
| Text.LexLessEq | client/src/pages/Chat.jsx:121 | `a` sorts no later than `b` exactly when `a` is a prefix of `b` or, at the first position where they differ, `a` has the smaller character |
| Text.LexTotal | client/src/pages/Chat.jsx:121 | The default `sort()` order compares any two ids |
| Text.LexAntisymmetric | client/src/pages/Chat.jsx:121 | Two ids that each sort no later than the other are equal |

## Left out

- **I/O and infrastructure.** HTTP transport, status-code plumbing, MongoDB queries and Socket.IO transport are not modelled; the collections are sequences held by `ChatServer.Server`. Reconnects and the socket context are not modelled either.
- **Database failures.** Only a message save can fail for reasons outside the model; that is the `storeAvailable` parameter. A user save fails only on validation or a duplicate key. Failures of the queries themselves (`findOne`, `findById`, the chat-list queries, `deleteMany`) are not modelled.
- **Password hashing.** bcrypt is not modelled: the password hash is a parameter of `Register`, and the hash comparison is the `matches` parameter of `Login`.
- **Login answer.** The token's signature and one-hour expiry are not modelled. Only its claims (`Session`) are.
- **Generated values.** The id the database assigns to a new user is a parameter. The server's clock is the `now` parameter.
- **Message schema.** server/Message.js is not part of this model. A message is assumed to carry a server-assigned numeric id and a server-assigned timestamp.
- **Id casting.** An id that is not a valid ObjectId makes the source's `findById` throw (a 500). The model treats it as an unknown id instead (a 404).
- `ChatServer.Server.AddContact`: a `contactId` that is not a valid ObjectId fails the cast in `contacts.push` and the save (a 500) in the source. The model appends it and answers with the new list. Contact ids are plain strings here.
- **Photo deletion.** The file-system check and `unlinkSync` are not modelled. `ChatServer.Server.DeleteUser` returns the file name it would unlink.
- **Other routes.** These are not part of the core: `GET /users`, `GET /users/:id`, `GET /users/phone/:phone`, `GET /users/:id/contacts`, `DELETE /users`, the photo upload and removal routes, and the test route. The fields the register, login and patch answers echo back are not modelled either.
- **Rooms.** `ChatServer.Server.JoinRoom`: Socket.IO's automatic leaving of rooms on disconnect is not modelled; the model keeps memberships. Nothing is ever emitted to a room.
- **Registry keys.** `ChatServer.Server.Identify`: JavaScript's coercion of a non-string `userId` to an object key (`undefined` becoming "undefined") is not modelled; ids are strings.
- **Conversation order.** `ServerRules.SortByTime`: the database query leaves the order of equal timestamps unspecified. The model fixes one order (store order) and proves only sortedness and permutation.
- **Null fields in a patch.** `ServerRules.Patched`: a body field sent as `null` (as opposed to absent) is not modelled separately.
- **Chat-list refresh.** The refresh of the chat list after every received message (client/src/pages/Chat.jsx:107-113) is not modelled, and neither are the fetches that load the user lists. So are React's asynchronous state updates: events are handled one at a time in order.
- **Calendar days.** Local time and `getDateLabel`'s wording are not modelled. The calendar day of a timestamp is the parameter `dayOf` of `MessageList.RenderRows`.
- **Colour format.** The CSS text `hsl(h, 70%, 85%)` is represented by the `Color` value it is formatted from.
- **Duplicate helpers.** The copies of `getInitials` and `stringToColor` in client/src/components/ChatWindow.jsx and client/src/pages/UserProfile.jsx are the same code as the modelled ones and share the `Avatar` module.
- **Send without a socket.** `handleSend` with no socket connection (a thrown error) is not modelled. The join-room guard on the socket is modelled: it is the `hasSocket` parameter of `Reconciler.JoinRoomRequest`.
- `Sidebar.ChatRouteParam`: the router's percent-decoding of the parameter is not modelled; the parameter is the raw segment.
- `Avatar.Initials`: upper-cases ASCII letters only. JavaScript's `toUpperCase` maps every Unicode letter, and some characters become several ('ß' becomes "SS").
- `Avatar.Initials`: when the first character of a word lies above U+FFFF, the source takes one UTF-16 code unit (a lone surrogate); the model takes the whole character.
- `Avatar.StringToColor`: computes the hash with exact integers. JavaScript's floating-point loop is exact only while the hash stays within ±2^53, which `Avatar.HashBound` shows for names under 2^21 code units.
- `Reconciler.RoomKey`: orders ids by code point. `sort()` compares UTF-16 code units, which differ only between characters above U+FFFF and those from U+E000 to U+FFFF. Database ids are hexadecimal and never contain such characters.
- `Reconciler.ConversationView.HandleReceive`: a message whose fields are missing or not strings is not modelled. A record's fields are always strings.
