# Chatrax core, modelled in Dafny

Chatrax is a one-to-one chat application: an Express/MongoDB server with a
Socket.IO layer and a React client. This project models the core of it as
pure functions over immutable state and proves properties of that model:

- the live-connection layer (`server/socket/socketHandlers.js`): the
  presence registry from user id to socket, the routing helpers on top of
  it, each socket handler (`authenticate`, `send-message`, `typing`,
  `mark-read`, `disconnect`) and the 30-second stale-entry sweep, each as
  one atomic transition `Hub × Db → Step` that returns the new registry,
  the new store and the events emitted, in order;
- the REST routes over the document store: chats, friend requests, user
  search and friend list, registration / login / code-name check, and the
  admin routes, with the user schema's setters, validation and password
  check (`server/models/User.js`);
- the client reducers that keep the chat page's unread counters, the
  chat window's message list (optimistic sends, echoes, acknowledgements)
  and the friend list's filter and badges consistent.

Collections are sequences in store order. Mongoose casts a query's
filter values through the schema's path setters, so `findOne({ codeName })`
looks up the trimmed, lowercased input, the same normal form the schema
stores. An HTTP reply is
`Reply<T>` (`Ok(code, value)` or `Err(code, message)` with the route's own
message text); a route that writes returns an `Answer` (new store plus
reply) or an `Outcome` (new store, reply and socket emits). The clock,
fresh ids, the decoded JWT and store faults are parameters.

Modules, one per source file: `Common` (results, filtering, counting),
`Text` (JavaScript `trim`, ASCII `toLowerCase`, `includes`), `Store`
(entities and the queries several files share), `Ordering` (`createdAt`
sorts), `UserModel`, `Presence`, `PresenceFacts` (multi-step properties
of the socket layer), `ChatRoutes`, `FriendRoutes`, `UserRoutes`,
`AuthRoutes`, `AdminRoutes`, `ClientModel` (the client's friend record),
`ChatPage`, `ChatWindow`, `FriendsList`.

Behaviours of the code a reader might not expect:

- a socket may authenticate a second time as another user (the handler
  does not refuse it), which leaves the first user's entry pointing at a
  socket that will never unbind it (`PresenceFacts.ReauthenticationOrphansOldEntry`);
- the REST send and the socket send store the same message but notify
  differently: the REST route broadcasts `new-message` to both parties,
  the socket path sends `new-message` to the receiver and `message-sent`
  to the sender;
- `typing` and `mark-read` from an unauthenticated socket are dropped
  silently, with no error event;
- the sweep removes every entry whose socket is not connected without
  notifying friends.

## Model

| member | source | states |
|---|---|---|
| Presence.Route | server/socket/socketHandlers.js:39-40 | delivery goes to the registered socket exactly when the user has an entry and that socket is still connected |
| Presence.IsUserOnline | server/socket/socketHandlers.js:20-22 | a user is reported online exactly when the registry has an entry for them; the connection state is not consulted |
| Presence.EmitToUser | server/socket/socketHandlers.js:25-32 | returns true with one emit to the registered socket when it is connected, otherwise false and no emit |
| Presence.OnlineButUndeliverable | server/socket/socketHandlers.js:20-32 | a user whose registered socket dropped is still reported online, yet nothing can be delivered to them |
| Presence.BroadcastMessage | server/socket/socketHandlers.js:35-50 | at most two `new-message` emits, receiver first then sender, each only when that party is routable |
| Presence.Bind | server/socket/socketHandlers.js:76-86 | last bind wins: the user's entry now names this socket, every other entry is unchanged and no socket is closed |
| Presence.UnbindIfCurrent | server/socket/socketHandlers.js:222-224 | the entry is removed only when it still names this socket; otherwise the registry is unchanged |
| Presence.StatusNotices | server/socket/socketHandlers.js:108-117 | one `user-status` per listed friend with a connected entry, each to a connected socket; per socket, as many notices as friends routed there |
| Presence.NoticeReachesConnectedFriend | server/socket/socketHandlers.js:108-117 | every listed friend with a connected entry receives the presence notice |
| Presence.Snapshot | server/socket/socketHandlers.js:120-126 | one `user-status` per friend to the new socket, in friend order, `isOnline` being registry membership |
| Presence.Authenticate | server/socket/socketHandlers.js:60-134 | no token, a failed decode and an unknown user each give one `auth-error` and leave the registry alone; a known user is bound, then friends are notified, then the snapshot, then `authenticated`; a failing friend query after the bind leaves the user bound |
| Presence.SendMessage | server/socket/socketHandlers.js:137-182 | the sender always gets exactly one answer carrying its tempId, as the last emit; unauthenticated, not friends and a failing save are errors that store nothing; otherwise the trimmed message is stored, forwarded to a connected receiver and acknowledged |
| Presence.Typing | server/socket/socketHandlers.js:185-195 | an authenticated socket's typing flag is routed to the receiver with no friendship check; an unauthenticated one emits nothing |
| Presence.MarkRead | server/socket/socketHandlers.js:198-214 | the caller's unread messages from the friend become read and the friend is told, when routable |
| Presence.Disconnect | server/socket/socketHandlers.js:217-257 | the socket is marked dropped; the user's entry goes only if it still names this socket, and only then are friends told the user went offline; no notice goes to the dropped socket |
| Presence.Sweep | server/socket/socketHandlers.js:261-272 | keeps exactly the entries whose socket is connected, unchanged, and emits nothing |
| PresenceFacts.StaleDisconnectKeepsNewerBinding | server/socket/socketHandlers.js:79-86 | after a re-bind on a newer socket, the stale socket's disconnect neither evicts the newer entry nor notifies anyone |
| PresenceFacts.ReauthenticationOrphansOldEntry | server/socket/socketHandlers.js:76-86 | re-authenticating a socket as another user leaves the old entry pointing at it; its disconnect clears only the new user, the old entry stays online until a sweep |
| PresenceFacts.SweepAlignsPresenceWithDelivery | server/socket/socketHandlers.js:261-272 | after a sweep, being reported online and being deliverable coincide |
| PresenceFacts.SweepIdempotent | server/socket/socketHandlers.js:261-272 | a second sweep changes nothing |
| PresenceFacts.SweepOnlyShrinks | server/socket/socketHandlers.js:261-272 | the sweep adds no entry and never evicts a connected one |
| PresenceFacts.SweepClearsStaleEntry | server/socket/socketHandlers.js:263-267 | a user whose registered socket dropped is offline after one sweep |
| PresenceFacts.AliceAuthenticatesWhileBobOnline | server/socket/socketHandlers.js:60-134 | with Bob connected, Alice's authentication emits exactly: Bob's online notice for Alice, Bob's status to Alice, then `authenticated` |
| PresenceFacts.AliceSendsHi | server/socket/socketHandlers.js:137-182 | Alice's socket send stores one message, emits `new-message` to Bob then `message-sent` with the tempId to Alice |
| Presence.Connect | server/socket/socketHandlers.js:56-57 | a new connection adds one connected socket with no user and leaves the registry alone |
| Store.FindUser | server/socket/socketHandlers.js:68 | `findById`: the stored user with that id, or none exactly when no user has it |
| Store.AreFriends | server/routes/chat.js:15-20 | two users are friends exactly when some accepted request has them, as an unordered pair, as its two parties |
| Store.FriendIds | server/socket/socketHandlers.js:96-105 | one id per accepted request involving the user, in store order, each the request's other party |
| Store.AreFriendsSymmetric | server/routes/chat.js:15-20 | the friendship gate (an accepted request in either direction) is symmetric |
| Store.FriendIdsAreFriends | server/socket/socketHandlers.js:96-105 | an id is in the friend-id list exactly when an accepted request joins the two users |
| Store.MarkConversationRead | server/routes/chat.js:149-152 | exactly the unread messages from the friend to the caller become read; every other message is unchanged |
| UserModel.NormalizeCodeName | server/models/User.js:9-15 | the stored code name is the trimmed, lowercased input, and is itself lowercase |
| UserModel.Build | server/models/User.js:3-52 | a record exists exactly when the required fields are non-empty after setters, the password is at least 6 UTF-16 code units long (JavaScript `length`) and both coordinates are given; the defaults are not admin, not online, both dates now |
| UserModel.Utf16Length | server/models/User.js:21-25 | the length `minlength` measures: between one and two units per character, one each exactly when no character lies above U+FFFF |
| UserModel.AstralPasswordAdmissible | server/models/User.js:21-25 | a password of three characters above U+FFFF (three emoji) is shorter than 6 characters yet passes the bound |
| UserModel.ComparePassword | server/models/User.js:55-57 | the candidate matches exactly when it equals the stored password; an absent candidate never matches |
| UserModel.NormalizeIsNormal | server/models/User.js:9-15 | normalising yields a lowercase, trimmed code name (a fixed point of the setters) |
| Ordering.SortBy | server/routes/chat.js:34 | `.sort({ createdAt })`: a permutation of the input, ordered by creation time in the requested direction |
| ChatRoutes.Conversation | server/routes/chat.js:28-34 | the messages between the two users in both directions, oldest first, a permutation of the store's selection |
| ChatRoutes.GetConversation | server/routes/chat.js:14-48 | non-friends get 403; friends get the conversation read before the read marks (each selected message once, as a multiset, oldest first), the marks applied, and the friend told |
| ChatRoutes.PostMessage | server/routes/chat.js:60-92 | blank content is a 400, non-friends a 403; otherwise the trimmed message is stored, broadcast and returned with 201 |
| ChatRoutes.RestAndSocketSendAgree | server/routes/chat.js:78-84 | the REST send and the socket send store the same message |
| ChatRoutes.UnreadCount | server/routes/chat.js:102-105 | the number of stored messages matching the filter "to the caller and unread" |
| ChatRoutes.UnreadToCounts | server/routes/chat.js:102-105 | the running unread tally used by the grouping proofs equals the count of the `countDocuments` filter |
| ChatRoutes.GroupUnread | server/routes/chat.js:116-129 | one row per distinct sender, each count at least 1 and equal to that sender's unread messages to the caller; the rows sum to the caller's unread total |
| ChatRoutes.BumpTotal | server/routes/chat.js:124-127 | counting one more message raises the total by one |
| ChatRoutes.ToCountsRows | server/routes/chat.js:132-135 | the map has exactly the rows' senders as keys, each holding its row's count |
| ChatRoutes.UnreadPerFriend | server/routes/chat.js:114-137 | every key holds that sender's unread count, at least 1; a sender with unread messages is a key |
| ChatRoutes.MarkReadRoute | server/routes/chat.js:144-159 | only the friend's unread messages to the caller change, to read; the friend is told; the reply is success |
| ChatRoutes.RestAndSocketMarkReadAgree | server/routes/chat.js:149-157 | the REST mark-read and the socket mark-read make the same store update and the same emit |
| ChatRoutes.MarkReadLowersUnread | server/routes/chat.js:149-152 | after mark-read the friend's unread count is 0 and the caller's total drops by exactly that count |
| FriendRoutes.CreateRequest | server/routes/friend.js:12-45 | a request to oneself is a 400, a request when any request already joins the pair is a 400; otherwise one pending request is appended and returned with 201 |
| FriendRoutes.PendingFor | server/routes/friend.js:55-58 | the pending requests addressed to the caller, in store order, as many as the store holds (so exactly the store's selection) |
| FriendRoutes.RequestIndex | server/routes/friend.js:72 | `findById`: the position of the first request with that id, or none exactly when no request has it |
| FriendRoutes.Respond | server/routes/friend.js:72-92 | an unknown id is a 404, a caller who is not the receiver gets 403; otherwise only that request's status changes, to the value sent |
| FriendRoutes.CreatePreservesInvariants | server/routes/friend.js:12-35 | creating keeps "no self requests" and "at most one request per pair" |
| FriendRoutes.RespondPreservesInvariants | server/routes/friend.js:72-83 | responding keeps both request invariants |
| FriendRoutes.RejectedBlocksRerequest | server/routes/friend.js:19-28 | once a pair's request is rejected, neither party can send a new one |
| FriendRoutes.AcceptMakesFriends | server/routes/friend.js:78-83 | accepting a request addressed to the caller makes the pair friends |
| UserRoutes.Status | server/routes/user.js:69-86 | a status other than "none" is the classification of some request between the two users; with no such request it is "none" |
| UserRoutes.StatusOfPair | server/routes/user.js:69-86 | with one request per pair, the search status is the classification of that pair's request |
| UserRoutes.StatusUnrelated | server/routes/user.js:76-86 | with no request between the two users the status is "none" |
| UserRoutes.StatusMeaning | server/routes/user.js:69-86 | "friends" exactly when the pair is friends, "sent" exactly when a pending request goes from the caller, "received" exactly when one comes to the caller |
| UserRoutes.Annotate | server/routes/user.js:69-92 | each returned user carries the status of its pair with the caller |
| UserRoutes.Search | server/routes/user.js:52-94 | an empty query is a 400; otherwise at most 10 users, none the caller, each matching the query case-insensitively, each annotated; the i-th result is the i-th matching user in store order |
| UserRoutes.SearchReturnsAllBelowLimit | server/routes/user.js:56-61 | when at most 10 users match, every matching user is returned |
| UserRoutes.EntryFor | server/routes/user.js:130-156 | an entry exists exactly when both parties resolve; it is the counterparty's stored record without password, with `isOnline` from the registry |
| UserRoutes.FriendEntries | server/routes/user.js:126-159 | at most one entry per accepted request, each the counterparty's stored record without password, with `isOnline` from the registry |
| UserRoutes.FriendEntriesKeepOrder | server/routes/user.js:126-159 | the entries name, in request order, the counterparty of each request whose parties resolve |
| UserRoutes.FriendEntriesComplete | server/routes/user.js:130-159 | no entry is dropped exactly when both parties of every request resolve |
| UserRoutes.FriendsRoute | server/routes/user.js:117-162 | every listed user is a friend of the caller, listed as the stored record without password and with `isOnline` equal to registry membership, in the order of the accepted requests whose parties resolve |
| UserRoutes.FriendsRouteMatchesSocketFriends | server/routes/user.js:117-159 | when every request resolves, the REST friend list names exactly the friends the socket layer notifies, in the same order |
| AuthRoutes.CodeNameIndex | server/routes/auth.js:76 | `findOne`: the first user stored under exactly that code name, or none exactly when no user has it |
| AuthRoutes.LookupKey | server/routes/auth.js:18-20 | the code name a query looks up is the trimmed, lowercased input, already in the stored normal form |
| AuthRoutes.Register | server/routes/auth.js:13-64 | missing fields are a 400; a code name whose trimmed, lowercased form is taken is a 400; a taken mobile is a 400; a draft the schema rejects is a 500; otherwise one normalised user is appended and returned with 201 |
| AuthRoutes.RegisterPreservesInvariants | server/routes/auth.js:17-42 | registration keeps both unique indexes and the code-name normal form |
| AuthRoutes.CheckCodeName | server/routes/auth.js:123-130 | an absent code name is a 500; otherwise available exactly when no stored code name equals the trimmed, lowercased input |
| AuthRoutes.CaseVariantsUnavailable | server/routes/auth.js:123-130 | after registering a code name, every variant of it in letter case or outer whitespace is reported unavailable |
| AuthRoutes.VariantRegistrationRefused | server/routes/auth.js:17-23 | after registering a code name, registering any such variant is the "already taken" 400 and stores nothing |
| AuthRoutes.NewLocation | server/routes/auth.js:88-93 | the location is replaced exactly when both coordinates are given and non-zero |
| AuthRoutes.Login | server/routes/auth.js:74-115 | an absent code name is a 500; an unknown code name (after trimming and lowercasing) and a wrong password both give the same 401; otherwise last-seen and, when given, the location of that one user are updated |
| AuthRoutes.LoginPreservesInvariants | server/routes/auth.js:86-94 | login changes no code name, mobile or password, so both indexes and the normal form survive |
| AuthRoutes.LoginSucceedsIffPasswordMatches | server/routes/auth.js:76-84 | login succeeds exactly when the first user under the trimmed, lowercased code name has the given password |
| AuthRoutes.RegisteredVariantLogsIn | server/routes/auth.js:76-84 | a freshly registered user logs in with any case or whitespace variant of the code name and the registered password, and gets the account registration returned |
| AdminRoutes.ListUsers | server/routes/admin.js:11 | the i-th entry is the i-th non-admin user in store order, without password; as many entries as non-admin users |
| AdminRoutes.AdminMessages | server/routes/admin.js:23-33 | a sub-multiset of the selected messages of size min(selection, 100), newest first; exactly the selection, as a multiset, when it has at most 100 |
| AdminRoutes.AdminMessagesKeepNewest | server/routes/admin.js:30-33 | a selected message left out is no newer than any message returned |
| AdminRoutes.DeleteUser | server/routes/admin.js:47-52 | every message to or from the user is deleted, the user is removed; every other message and user is kept, in order and with its multiplicity (count clauses) |
| AdminRoutes.DeleteKeepsMessagesResolved | server/routes/admin.js:47-52 | if every message's parties resolved before, they still do after, and the deleted user no longer resolves |
| AdminRoutes.AdminFriends | server/routes/admin.js:71-83 | fails exactly when some accepted request has an unresolved sender; otherwise one entry per request, the counterparty or none when it did not resolve |
| AdminRoutes.FriendsOfRoute | server/routes/admin.js:65-88 | a 500 exactly when a request's sender does not resolve, otherwise one entry per accepted request, each the counterparty's record without password, or null when the caller sent it and the receiver no longer exists |
| AdminRoutes.AdminFriendsMatchFriendIds | server/routes/admin.js:71-83 | when every party resolves, the admin friend list names exactly the socket layer's friend ids |
| AdminRoutes.AdminChat | server/routes/admin.js:96-103 | the messages between the two users, each once (the same multiset as the store's selection), oldest first |
| AdminRoutes.AdminChatMatchesParticipantView | server/routes/admin.js:96-103 | the admin's view of a conversation equals the participant's |
| AdminRoutes.GetStats | server/routes/admin.js:114-125 | online non-admins are at most all non-admins, who are at most all users and as many as the user listing returns; the message total is the store's |
| ClientModel.PatchStatus | client/src/pages/ChatPage.jsx:142-148 | the friend's online flag is replaced and last-seen kept unless a new one is given; identity fields are unchanged |
| ClientModel.PatchFriends | client/src/pages/ChatPage.jsx:142-148 | only friends with the given id are patched; every other entry is unchanged |
| ClientModel.PatchFriendsIdempotent | client/src/pages/ChatPage.jsx:142-148 | applying the same status twice is applying it once |
| ChatPage.OnNewMessage | client/src/pages/ChatPage.jsx:118-130 | a message from me or from the open chat changes nothing; otherwise the sender's counter and the total both rise by one |
| ChatPage.Lowered | client/src/pages/ChatPage.jsx:165 | subtraction clamped at zero |
| ChatPage.OnMessagesRead | client/src/pages/ChatPage.jsx:159-168 | the reader's counter is deleted, other counters are unchanged, the total drops by the deleted count, clamped at zero |
| ChatPage.OnSelectFriend | client/src/pages/ChatPage.jsx:237-256 | opening a chat selects the friend and deletes its counter |
| ChatPage.SelectAgreesWithRead | client/src/pages/ChatPage.jsx:243-255 | opening a chat updates the counters exactly as a read receipt from that friend does |
| ChatPage.MessagesReadIdempotent | client/src/pages/ChatPage.jsx:159-168 | a repeated read receipt changes nothing more |
| ChatPage.NewThenReadRestores | client/src/pages/ChatPage.jsx:118-168 | a counted message followed by that sender's read receipt restores the page |
| ChatPage.OnUserStatus | client/src/pages/ChatPage.jsx:142-156 | the friend list and, when it is that friend, the selected friend take the new status; counters are untouched |
| ChatPage.UserStatusSettles | client/src/pages/ChatPage.jsx:142-156 | after a status event every copy of that friend shows the new online flag |
| ChatWindow.OnNewMessage | client/src/components/ChatWindow.jsx:86-129 | an irrelevant message changes nothing; a known id changes nothing; otherwise my message replaces the first pending row with the same text, or any message is appended; a read is requested exactly for the friend's messages |
| ChatWindow.NewMessageIdempotent | client/src/components/ChatWindow.jsx:106-124 | delivering the same message twice is delivering it once |
| ChatWindow.OnMessageSent | client/src/components/ChatWindow.jsx:152-168 | the row with the tempId becomes the message; without one, the message is appended unless already present; afterwards it is present |
| ChatWindow.AckSettlesSend | client/src/components/ChatWindow.jsx:152-168 | the `message-sent` acknowledgement of an optimistic send turns its pending row into the stored message: the list becomes the old list plus that message |
| ChatWindow.AckTwiceIsOnce | client/src/components/ChatWindow.jsx:152-168 | a repeated acknowledgement of the same send changes nothing more |
| ChatWindow.SendOptimistic | client/src/components/ChatWindow.jsx:310-334 | blank input or a missing id sends nothing; otherwise a pending row with the trimmed text is appended and the input cleared |
| ChatWindow.OnSendSuccess | client/src/components/ChatWindow.jsx:344-352 | the row with the tempId becomes the stored message; without one the list is unchanged |
| ChatWindow.OnSendFailure | client/src/components/ChatWindow.jsx:353-357 | the rows with the tempId are removed and every other row kept, in order, with its multiplicity; the input is restored |
| ChatWindow.FailureUndoesSend | client/src/components/ChatWindow.jsx:331-357 | an optimistic send followed by its failure restores the list and the input |
| ChatWindow.ReplyAndEchoCommute | client/src/components/ChatWindow.jsx:106-124 | the REST reply and the socket echo of my message, in either order, leave the same list: one row for the message where the pending row was, no pending row |
| ChatWindow.OnTyping | client/src/components/ChatWindow.jsx:132-136 | only the open friend's typing events change the indicator |
| ChatWindow.TypingReachesOpenWindow | server/socket/socketHandlers.js:185-195 | an authenticated sender's `typing` reaches a routable receiver as one `user-typing` event, which the window open on the sender takes and any other window ignores; an unroutable receiver gets nothing |
| ChatWindow.OnFriendStatus | client/src/components/ChatWindow.jsx:138-150 | only the open friend's status events patch it |
| ChatWindow.WindowAndPageAgreeOnStatus | client/src/components/ChatWindow.jsx:138-150 | the window patches the open friend exactly as the page patches its list |
| FriendsList.FilterFriends | client/src/components/FriendsList.jsx:14-18 | the friends whose name or code name contains the query case-insensitively, in list order, repeated entries kept |
| FriendsList.EmptyQueryKeepsAll | client/src/components/FriendsList.jsx:14-18 | an empty query keeps the whole list |
| FriendsList.HeaderCount | client/src/components/FriendsList.jsx:65-67 | the header counts the filtered list, which is the whole list when the query is empty |
| FriendsList.Badge | client/src/components/FriendsList.jsx:118-125 | a badge shows exactly when the count is positive: "9+" exactly above 9, otherwise the count's digit |
| Text.Trim | server/routes/chat.js:60 | `trim` removes exactly the leading and trailing whitespace: the result is a slice with whitespace on either side removed and none left at its ends |
| Text.TrimEmptyIffAllWhitespace | server/routes/chat.js:60 | content trims to nothing exactly when it is all whitespace |
| Text.TrimLowerCommute | server/models/User.js:13-14 | trimming and lowercasing commute, so the setter order does not matter |
| Text.Lower | server/routes/auth.js:19 | `toLowerCase` keeps the length and maps each character through the ASCII lowercase map |
| Text.Includes | client/src/components/FriendsList.jsx:16-17 | `includes` holds exactly when the text occurs at some position |

## Left out

- JWT signing and verification, cookies and the auth middleware: the decoded user id is a parameter.
- Socket.IO rooms and the room-addressed emits (`friend-request`, `friend-request-response`, `account-deleted`).
- Timers (the sweep interval, the typing timeout), `Date` values and `Math.random` temp ids: time is a `nat` parameter and ids are parameters.
- Coordinates are integers, not floating point.
- Store faults other than the modelled flags (the socket friend query and the socket save); a REST route's generic 500 on a thrown store error is not modelled.
- `populate`, field projection beyond dropping the password, and logging.
- The message and friend-request schemas: their files are not part of this model, so the default status "pending" and message `createdAt` are taken as given.
- The search regex is a plain case-insensitive substring test: regex metacharacters in the query are not interpreted.
- `toLowerCase` covers ASCII letters only; no other case folding.
- UI rendering, scrolling, the emoji picker, the friend-request and search components.
- The debug endpoint, `/me` and `/logout`: they read or clear state the model does not hold.
- The client's loaders (`loadFriends`, `loadUnreadCounts` and the like) only copy a route's reply into state.
- The stored `isOnline` flag that the stats route counts is never written by any handler; the model counts the stored flag as the route does, not the registry.
- `findByIdAndDelete` is modelled as removing every user with that id, which is the same thing when ids are unique.
