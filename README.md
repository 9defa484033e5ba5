# Talk backend: a verified model of the message store

Talk is a FastAPI chat backend. Each direct chat or group keeps its messages
in two tiers:

- the **hot list**: a Redis list `chat:{id}:messages` or
  `group:{id}:messages` of JSON messages, numbered by `message_sequence`;
- the **cold buckets**: MongoDB `messages` documents. A background archiver
  fills them, and each is numbered by `message_bucket_sequence`;
- the **unseen flag**: a Redis key `{kind}:{id}:unseen_in_mongo`. It records
  that some archived message may still be unseen.

Route handlers append to the hot list and rewrite it. They also rewrite
buckets, answer history queries and publish events on Redis pub/sub. A
subscriber relays those events to an in-process registry of open websockets.

This Dafny project models that core and proves its properties:

- `Storage.Conversation` is a class holding the three tiers of one
  conversation.
- The route handlers and the archiver are methods on it. Each is verified
  against a specification function.
- The websocket registry is the class `ConnectionManager.ConnectionManager`
  with a map field.
- The pure helpers are functions, with lemmas about them:
  - channel naming and parsing;
  - the JSON conversion of Mongo documents;
  - the membership rules for groups;
  - the request validators.

Modules follow the source files:

- `common.dfy`: Option, Result, and the Python values whose cross-type
  equality matters: `str` against `ObjectId` against a websocket object.
- `messages.dfy`, `storage.dfy`: the message and bucket records, sequencing,
  and the conversation's tiers.
- `batch_save_messages.dfy`: the archiver.
- `chat_route.dfy`, `group_route.dfy`: the handlers.
- `connection_manager.dfy`: the registry.
- `redis_pubsub.dfy`, `json_wire.dfy`: publish, subscribe, and the JSON text
  as a token stream.
- `convert_to_json.dfy`: the document converter.
- `validation.dfy`, `user_schema.dfy`, `group_schema.dfy`: the request
  models.

Each handler and each archiver tick is one atomic step. Ids, clock readings,
socket behaviour and the set of known user ids are inputs.

Three behaviours of the code are easy to miss, and the model keeps them:

- The next message sequence looks only at the hot list, so it is 0 whenever
  the hot list is empty, even when buckets exist.
- unsend_older_message clears replies to the removed id in the cold buckets
  only, never in the hot list.
- mark_as_seen deletes the unseen flag right after the bulk update, before
  the hot list is swept.

Four handlers behave differently from what their code evidently intends.
The model states each as the code behaves and as intended, and the
Findings section lists them. `MarkAsSeen` takes the value its sender test compares with, so
it covers both versions, and `UnsendOlder` answers as written.

## Model

| member | source | states |
|---|---|---|
| Common.NoneIfFalsy | routes/chats/chat_route.py:57-58 | `x if x else None`: the result is present exactly when the text is present and non-empty, and it is then that text |
| Storage.Conversation.constructor | routes/chats/chat_route.py:18-25 | a conversation with nothing stored has an empty hot list, no bucket and no flag, and is well formed |
| Messages.NextSequence | routes/chats/chat_route.py:18-25 | `get_message_sequence_plus_one`: the tail's `message_sequence` plus one, or 0 for an empty hot list; only the hot list is read. Its properties are in `NextSequenceIsFresh` |
| Messages.NextSequenceIsFresh | routes/chats/chat_route.py:18-25 | on an ordered hot list the next sequence (tail + 1, or 0 when empty) exceeds every stored sequence; appending a message with it keeps the list ordered and raises the next sequence by one |
| Messages.NextBucketSequence | background_tasks/batch_save_messages.py:7-15 | 0 when there is no bucket; otherwise one above the highest bucket number, which exists |
| Messages.AddBucketHistory | background_tasks/batch_save_messages.py:42-49 | inserting a bucket under the next bucket number appends exactly its messages to the archived history and raises the next number by one |
| Messages.ColdHistoryMap | routes/chats/chat_route.py:119-136 | `MapBuckets`, the array-filtered `update_many`, keeps every bucket number and rewrites the archived history message by message: nothing is moved, added or lost |
| BatchSaveMessages.GetLastMessageBucketSequence | background_tasks/batch_save_messages.py:7-15 | the scan returns the highest bucket number plus one, or 0 when there is none |
| BatchSaveMessages.Drain | background_tasks/batch_save_messages.py:25-54 | one conversation's share of a tick: over the threshold (250 chats, 300 groups), all but the last 50 or 100 messages become a bucket under the next number, the flag is raised when one of them is unseen, and the rest stay hot. Its properties are in `DrainShape` and `DrainPreservesHistory` |
| BatchSaveMessages.DrainShape | background_tasks/batch_save_messages.py:30-49 | a list at or under the threshold is untouched. For a longer one: the new bucket has a fresh number above all others; moved ++ retained == the old list, the moved part has len − retained messages and the hot list keeps exactly the retained count; old buckets are unchanged; the flag is set iff it was set or some moved message is unseen |
| BatchSaveMessages.DrainPreservesHistory | background_tasks/batch_save_messages.py:49-54 | buckets in order followed by the hot list are the same sequence of messages before and after a drain |
| BatchSaveMessages.GroupDrainRaisesFlag | background_tasks/batch_save_messages.py:65-74 | group messages have no `seen` key, so every group drain sets the flag |
| BatchSaveMessages.FirstChatDrain | background_tasks/batch_save_messages.py:30-49 | a chat list of 251 messages with no archive yet puts the first 201 in bucket 0 and keeps the last 50 |
| BatchSaveMessages.DrainKeepsNextSequence | background_tasks/batch_save_messages.py:30-32 | a drain keeps the tail of the hot list, so the next message sequence is the same before and after it |
| BatchSaveMessages.DrainIdempotent | background_tasks/batch_save_messages.py:30-32 | the retained count (50, 100) is below the threshold (250, 300), so the tick after a drain leaves that conversation unchanged |
| BatchSaveMessages.DrainKeepsValid | background_tasks/batch_save_messages.py:42-54 | a drain keeps every bucket under its own number and owned by the conversation, and keeps the hot list ordered |
| BatchSaveMessages.DrainConversation | background_tasks/batch_save_messages.py:25-54 | the tick's read, cut, flag, insert, delete and re-push steps give the state `Drain` describes; they report whether a drain happened and keep the history |
| BatchSaveMessages.DrainAll | background_tasks/batch_save_messages.py:25-54 | every listed conversation is drained independently, each by `Drain` of its own old state |
| BatchSaveMessages.BatchSaveTick | background_tasks/batch_save_messages.py:17-89 | one loop iteration: every chat is drained with the chat constants, then every group with the group constants, all staying well formed |
| ChatRoute.AppendChatMessage | routes/chats/chat_route.py:54-67 | the frame becomes a message numbered after the tail: unseen, with no seen timestamp, falsy reply fields dropped; it is pushed at the end and nothing else changes |
| ChatRoute.ChatSession | routes/chats/chat_route.py:50-67 | the frames of one connection become consecutive sequences after the old tail, appended in order |
| ChatRoute.HotSweepExact | routes/chats/chat_route.py:143-152 | for any caller value, the hot sweep changes exactly the entries whose str sender differs from it and that are not yet seen. It sets their flag and timestamp, keeps length, ids and sequences, and leaves no selectable entry |
| ChatRoute.HotSweepIdempotent | routes/chats/chat_route.py:143-152 | a second sweep, at any timestamp, changes nothing |
| ChatRoute.HotSweepKeepsOrder | routes/chats/chat_route.py:143-152 | the sweep keeps the hot list ordered by sequence |
| ChatRoute.ColdSweepHistory | routes/chats/chat_route.py:118-136 | the bulk cold update applies the cold test (sender differs from the caller value, `seen` false) to every archived message and keeps the archive's order |
| ChatRoute.MarkAsSeen | routes/chats/chat_route.py:117-152 | with the flag set, every bucket is swept with the cold test; without it, no bucket changes. Afterwards the flag is gone and the hot list is swept with the hot test. The caller value is what the tests compare with: the ObjectId as written, the str id as intended |
| ChatRoute.MarkAsSeenAsWrittenMarksOwn | routes/chats/chat_route.py:117-147 | as written, the caller is an ObjectId that no str sender equals, so every unseen message is marked in the hot list and in the buckets, the caller's own included |
| ChatRoute.MarkAsSeenSparesOwn | routes/chats/chat_route.py:143-147 | with the ids compared as the same type, the sweep never changes a message the caller sent, and it marks every unseen message of the other participant |
| ChatRoute.AfterUnsendRecent | routes/chats/chat_route.py:299-321 | the hot list after unsend_recent_message: the tombstoned list with every placeholder removed. `AfterUnsendIsReference` proves it equal to `UnsendReference` |
| ChatRoute.UnsendReference | routes/chats/chat_route.py:299-321 | the independent one-pass reference: drop each message with the id sent by the caller, clear the reply fields of each message replying to the id, keep the rest in order |
| ChatRoute.AfterUnsendIsReference | routes/chats/chat_route.py:299-321 | `Tombstoned` (a placeholder at each owned index, a reply-cleared copy at each reply) followed by the `lrem` compaction gives the one-pass result: owned entries dropped, replies to the id cleared, order kept |
| ChatRoute.UnsendReferenceFacts | routes/chats/chat_route.py:299-321 | the result shrinks by the number of owned entries. It keeps no owned entry and no reply to the id, and each entry is an old one, possibly with its reply cleared |
| ChatRoute.UnsendReferenceKeepsOrder | routes/chats/chat_route.py:312-321 | compaction keeps the list ordered by sequence |
| ChatRoute.UnsendUntouched | routes/chats/chat_route.py:299-321 | with no owned entry and no reply, the list is unchanged |
| ChatRoute.CollectUpdates | routes/chats/chat_route.py:298-309 | one update per owned or replying index and none for any other, in strictly increasing index order, each carrying what that index becomes; the list is empty iff no entry is owned or replies to the id |
| ChatRoute.ApplyUpdates | routes/chats/chat_route.py:311-318 | writing the updates by index gives the tombstoned list; a write happened iff there was an update |
| ChatRoute.LastMessageOf | routes/chats/chat_route.py:341-353 | the projection is the new tail's content, sender and time, or `("", "", None)` for an empty list |
| ChatRoute.UnsendRecent | routes/chats/chat_route.py:291-373 | the two index loops and the compaction leave `AfterUnsendRecent` of the old list. The answer is success with the new tail's projection iff some entry was owned or replied to the id, else 404 |
| ChatRoute.UnsendRecentIdempotent | routes/chats/chat_route.py:299-323 | after an unsend nothing is owned or replies to the id, so a repeat leaves the list alone and answers 404 |
| ChatRoute.UnsendRecentClearsRepliesOfOthers | routes/chats/chat_route.py:302-309 | a caller who owns nothing with that id still clears replies to it, and gets a success |
| ChatRoute.NoOwnedCompact | routes/chats/chat_route.py:302-321 | with no owned entry, nothing is removed, and each index keeps its entry, reply cleared where it pointed at the id |
| ChatRoute.PullId | routes/chats/chat_route.py:400-402 | `$pull` by id keeps exactly the elements without that id, never lengthens the list, and returns it unchanged when no element has the id |
| ChatRoute.PullIdConcat | routes/chats/chat_route.py:400-402 | pulling from a concatenation concatenates the pulls, so the surviving elements keep their order |
| ChatRoute.AfterUnsendOlder | routes/chats/chat_route.py:393-426 | the buckets after a matched unsend_older_message: the id pulled from the addressed bucket, then reply fields cleared wherever they point at it, in every bucket |
| ChatRoute.UnsendOlderStatusAsWritten | routes/chats/chat_route.py:404-442 | the body's outcome passed through `except Exception`: a response keeps its status, and any raised HTTPException, the 404 included, becomes 500 |
| ChatRoute.UnsendOlderMissingIs500 | routes/chats/chat_route.py:404-442 | as written: 500 exactly when the filter misses (a negative or unstored bucket number, no element with the id, or none from the caller), 200 exactly when it matches, never 404; it differs from the intended answer exactly on the misses |
| ChatRoute.UnsendOlderStatusIff | routes/chats/chat_route.py:404-411 | as intended: 200 exactly when the filter matches, 404 exactly when it misses, never 500 |
| ChatRoute.UnsendOlder | routes/chats/chat_route.py:392-442 | on a match, the id is pulled from the addressed bucket and replies to it are cleared in every bucket; otherwise the buckets are unchanged. The status is the as-written one: 200 on a match, 500 otherwise. The hot list is never touched |
| ChatRoute.UnsendOlderIdempotent | routes/chats/chat_route.py:392-426 | after a success the bucket numbers are unchanged, the bucket holds no element with the id, and no bucket references it, so a repeat fails the filter |
| ChatRoute.UnsendOlderRemovesOthersMessage | routes/chats/chat_route.py:393-402 | the two filter fields are not bound to the same element. A caller who sent any message in the bucket removes another sender's message with the id |
| ChatRoute.OlderBucket | routes/chats/chat_route.py:495-515 | the bucket numbered (highest number) − offset when there are buckets and that number is stored, otherwise none |
| ChatRoute.FetchOlder | routes/chats/chat_route.py:495-515 | the bucket numbered latest − offset, or none when there are no buckets or that number is missing; a result is a stored bucket with that number |
| ChatRoute.FetchAfterDrain | routes/chats/chat_route.py:505-511 | right after a drain, offset 0 returns the moved messages in order, and offset 1 returns what offset 0 returned before |
| GroupRoute.GroupMessageUnseen | routes/groups/group_route.py:56-63 | a group message has no `seen` key, so it counts as unseen |
| GroupRoute.AppendGroupMessage | routes/groups/group_route.py:56-65 | the frame becomes a message numbered after the tail, with the drawn id and clock reading and no seen, seen timestamp, reply content or action key; it is pushed at the end |
| GroupRoute.GroupSession | routes/groups/group_route.py:54-65 | the frames of one connection become consecutive sequences after the old tail, appended in order |
| GroupRoute.FoundAllIff | routes/groups/group_route.py:93-96 | the `$in` count equals the list length exactly when the ids are distinct and all known users |
| GroupRoute.CreateGroup | routes/groups/group_route.py:84-96 | create_group's participant checks in the code's order: a listed creator is refused, the creator is appended, and the `$in` count must equal the list length. `CreateGroupIff` characterises the outcome |
| GroupRoute.CreateGroupIff | routes/groups/group_route.py:84-96 | creation passes exactly when the creator is unlisted and is a known user, and the listed ids are distinct known users. Members are then the list followed by the creator, who is admin; a listed creator is refused first |
| GroupRoute.UpdateGroup | routes/groups/group_route.py:141-213 | update_group as written: 404, 403, the user check, the `$set` fields with the precedence-bound participant set, the three 400 refusals, then 200 with the differences, or 500 after the write when no participant list was given. Its lemmas follow |
| GroupRoute.WrittenIsUnion | routes/groups/group_route.py:159-164 | the written set (existing, united with new minus the removals) equals existing ∪ new, so every intended removal stays a member |
| GroupRoute.UpdateGroupAdminOnly | routes/groups/group_route.py:141-147 | 404 iff there is no group and 403 iff the caller is not the admin; anything written has at least one field and came from the admin |
| GroupRoute.UpdateGroupWritesUnion | routes/groups/group_route.py:150-164 | a 200 update lists distinct known users, writes old ∪ new members, and computes additions (new − old) and removals (old − new), which are disjoint; every removal is still written |
| GroupRoute.UpdateGroupWithoutParticipants | routes/groups/group_route.py:175-194 | without a participant list the admin gets 400 when nothing truthy is given. Otherwise the fields are written and the handler then fails; it never answers 200 |
| GroupRoute.UpdateGroupWouldBeEmptyIff | routes/groups/group_route.py:178-180 | the "no participants" 400 happens exactly when the admin sends an empty participant list for a group whose stored list is empty |
| GroupRoute.UpdateGroupKeepsRemoved | routes/groups/group_route.py:160-164 | as written, keeping only `a` in a group {a, b} answers 200 and writes {a, b}, while `b` is listed for removal |
| GroupRoute.UpdateGroupIntended | routes/groups/group_route.py:150-207 | update_group as evidently intended: the requested list replaces the members, and without a list the handler answers 200 after the write |
| GroupRoute.UpdateGroupIntendedHonoursRemovals | routes/groups/group_route.py:160-164 | as intended, the written members are exactly the requested ones: old minus removals plus additions, with no removal left in |
| GroupRoute.UpdateGroupIntendedWithoutParticipants | routes/groups/group_route.py:183-207 | as intended, a request that the written handler fails after writing is answered 200 with the same fields and no inbox change |
| GroupRoute.RemoveFirst | routes/groups/group_route.py:274-275 | `list.remove` of a member shortens the list by one; of a non-member, the list is unchanged |
| GroupRoute.PullAll | routes/groups/group_route.py:280-283 | `$pull` removes every copy of the user and keeps everyone else |
| GroupRoute.LeaveGroup | routes/groups/group_route.py:263-289 | leave_group's decisions in the code's order: 404, 403 for a non-member, 403 for an admin with others left, then the `$pull`, and deletion when the admin left it empty. `LeaveGroupRules` and `LeaveGroupRemovesUser` characterise it |
| GroupRoute.SoleMember | routes/groups/group_route.py:272-283 | removing a member leaves nobody exactly when they were the only entry, and then the pull empties the list |
| GroupRoute.LeaveGroupRules | routes/groups/group_route.py:263-289 | a non-admin member always leaves, losing every copy of their id. The admin leaves only as the sole member, which deletes the group; while others remain, the admin is refused |
| GroupRoute.LeaveGroupRemovesUser | routes/groups/group_route.py:263-289 | whoever leaves is no longer listed, was not the admin, and the admin is unchanged; 403 iff the caller is not a participant |
| ConnectionManager.WithoutId | helpers/utils/websocket_connection_manager.py:33-36 | the kept entries are exactly those whose id differs from the given one; an id of another Python type matches nothing |
| ConnectionManager.Added | helpers/utils/websocket_connection_manager.py:11-26 | the registry after `connect`: the entry appended to its key's list, created when absent |
| ConnectionManager.AddedShape | helpers/utils/websocket_connection_manager.py:11-26 | connect appends at the end of its key's list, creating the key if absent, keeps every other key, and keeps keys str with non-empty lists |
| ConnectionManager.Removed | helpers/utils/websocket_connection_manager.py:28-41 | the registry after `disconnect`: the key's entries with that id filtered out and an emptied key deleted; an absent key is left alone |
| ConnectionManager.RemovedShape | helpers/utils/websocket_connection_manager.py:28-41 | disconnect removes every entry with that id under that key and nothing elsewhere, deletes an emptied key, and keeps the invariant |
| ConnectionManager.WithoutIdTwice | helpers/utils/websocket_connection_manager.py:33-36 | filtering out an id twice is filtering it once |
| ConnectionManager.RemovedIdempotent | helpers/utils/websocket_connection_manager.py:28-41 | disconnecting twice is disconnecting once |
| ConnectionManager.DisconnectUnknownIsNoop | helpers/utils/websocket_connection_manager.py:28-41 | disconnecting an unknown key, or an id not under the key, changes nothing |
| ConnectionManager.SwappedDisconnectIsNoop | helpers/utils/websocket_connection_manager.py:32 | the route call sites pass the websocket as the key; that key is never a registered str, so the call removes nothing |
| ConnectionManager.Settled | helpers/utils/websocket_connection_manager.py:47-61 | the registry after a broadcast's disconnects: the key's entries whose id is in the dead set removed, an emptied key deleted |
| ConnectionManager.HealthyBroadcast | helpers/utils/websocket_connection_manager.py:47-53 | when every socket is connected and accepts the frame, each one is reached in order and nothing is removed |
| ConnectionManager.DeadIdsExact | helpers/utils/websocket_connection_manager.py:52-61 | the ids broadcast disconnects are exactly those of entries not connected or whose send hit a disconnect; other errors remove nothing |
| ConnectionManager.ConnectionManager.constructor | helpers/utils/websocket_connection_manager.py:7-9 | the registry starts empty |
| ConnectionManager.ConnectionManager.Connect | helpers/utils/websocket_connection_manager.py:11-26 | an accepted socket is appended under its key; if accepting fails the registry is unchanged |
| ConnectionManager.ConnectionManager.Disconnect | helpers/utils/websocket_connection_manager.py:28-41 | the registry becomes `Removed(old, key, id)` and stays well formed |
| ConnectionManager.ConnectionManager.Broadcast | helpers/utils/websocket_connection_manager.py:43-61 | over a snapshot in registration order: the sockets reached are the connected ones that accepted. Every dead entry's id is removed from the key, other keys stay, and an absent key is a no-op |
| JsonWire.DecodeEncode | helpers/utils/redis_pubsub.py:8-22 | decoding the token text of a JSON-safe value, followed by anything, returns that value and exactly the rest |
| JsonWire.DecodeEncodeItems | helpers/utils/redis_pubsub.py:8-22 | the same for the items of a list |
| JsonWire.DecodeEncodeFields | helpers/utils/redis_pubsub.py:8-22 | the same for the fields of a dict |
| JsonWire.RoundTrip | helpers/utils/redis_pubsub.py:8-22 | `json.loads(json.dumps(d))` returns `d` for a JSON-safe value |
| RedisPubSub.Publish | helpers/utils/redis_pubsub.py:6-12 | `publish_message`: the channel named by the flags and the `json.dumps` text of the message. `PublishedIsForwarded` proves the subscriber gets it back |
| RedisPubSub.GroupFlagWins | helpers/utils/redis_pubsub.py:6-12 | with the group flag set the channel is `group:` + id whatever the call flag, and no prefix contains `:` |
| RedisPubSub.SplitFirstField | helpers/utils/redis_pubsub.py:21 | the first field of `str.split` is the text before the first separator |
| RedisPubSub.ChannelIdOfName | helpers/utils/redis_pubsub.py:6-21 | the subscriber recovers the id up to its first colon: the whole id exactly when it has no colon, and the same key for chat, group and call events |
| RedisPubSub.PublishedIsForwarded | helpers/utils/redis_pubsub.py:6-23 | an event published for an id without a colon is broadcast to that id with the very dict published |
| RedisPubSub.StepOf | helpers/utils/redis_pubsub.py:19-23 | one listened item: a non-`pmessage` is skipped; a channel without a second field or data that does not decode raises; otherwise a broadcast of the decoded dict to the second field |
| RedisPubSub.OtherTypesIgnored | helpers/utils/redis_pubsub.py:20 | items whose type is not `pmessage` change neither the broadcasts nor whether the loop crashes |
| RedisPubSub.Handle | helpers/utils/redis_pubsub.py:20-23 | one item: another type is skipped; a channel without a second field or data that does not decode raises; otherwise the decoded dict is broadcast to the second field and the registry changes by that one broadcast |
| RedisPubSub.Subscriber | helpers/utils/redis_pubsub.py:14-23 | the broadcasts made are those of the feed up to the first item that raises; the loop crashes iff such an item exists, and the registry is the result of those broadcasts in order |
| ConvertToJson.Convert | helpers/utils/convert_to_json_serializeble_object.py:6-15 | the output is JSON-safe at every depth. A dict keeps its keys and a list its length; an ObjectId becomes its hex string and a datetime its ISO text; everything else is returned unchanged |
| ConvertToJson.ConvertElementwise | helpers/utils/convert_to_json_serializeble_object.py:6-9 | list items and dict values are each converted in place, in order |
| ConvertToJson.ConvertFixesJsonSafe | helpers/utils/convert_to_json_serializeble_object.py:6-15 | a value with no ObjectId or datetime anywhere is returned unchanged |
| ConvertToJson.ConvertIdempotent | helpers/utils/convert_to_json_serializeble_object.py:6-15 | converting twice is converting once |
| Validation.RequiredText | schemas/users/user_schema.py:6-9 | a required `str`/`constr` field accepts exactly a present string within its bounds and keeps it; otherwise missing or invalid |
| Validation.OptionalText | schemas/users/user_schema.py:21-27 | an `Optional` text field is None exactly when absent or null; otherwise it accepts exactly a string within bounds |
| Validation.RequiredTextList | schemas/groups/group_schema.py:10 | a `List[str]` field accepts exactly a present list of strings and keeps them in order |
| Validation.OptionalTextList | schemas/groups/group_schema.py:19 | an `Optional[List[str]]` field is None exactly when absent or null; otherwise it needs a list of strings |
| UserSchema.ParseUserCreate | schemas/users/user_schema.py:6-9 | the UserCreate model: each field validated in declaration order, the first failure reported. `UserCreateIff` characterises it |
| UserSchema.UserCreateIff | schemas/users/user_schema.py:6-9 | sign-up requires a 3–16 character username, an email string and an 8–16 character password, keeping them |
| UserSchema.ParseUserLogin | schemas/users/user_schema.py:14-16 | the UserLogin model: username, then password, the first failure reported. `UserLoginIff` characterises it |
| UserSchema.UserLoginIff | schemas/users/user_schema.py:14-16 | login requires the same two ranges; any valid sign-up body is a valid login with the same values |
| UserSchema.CheckUserUpdate | schemas/users/user_schema.py:29-38 | the pre root validator on the raw values: the emptiness error first, then the password-pair error, else the values unchanged |
| UserSchema.CheckUserUpdateIff | schemas/users/user_schema.py:29-38 | the root validator passes iff some value is truthy and, if either password key is present, both are non-null; it returns the values unchanged |
| UserSchema.EmptinessCheckedFirst | schemas/users/user_schema.py:31-36 | an empty old password alone gets the emptiness error; a non-empty one alone gets the password-pair error |
| UserSchema.ParseUserUpdate | schemas/users/user_schema.py:21-38 | the UserUpdate model: the root validator first, then each optional field in declaration order |
| UserSchema.UserUpdateAccepted | schemas/users/user_schema.py:21-38 | an accepted update carries both passwords or neither, each 8–16 characters; the username is 3–16 and the description at most 60 |
| UserSchema.UserUpdateIff | schemas/users/user_schema.py:21-38 | an update is accepted exactly when it passes the root validator and each field is absent, null or a string within its bound (username 3–16, description at most 60, passwords 8–16, email and image any string); every given field is kept as sent |
| UserSchema.DefaultInbox | schemas/users/user_schema.py:51-53 | the default inbox has exactly the keys `chats` and `groups`, both empty |
| UserSchema.NewUser | schemas/users/user_schema.py:43-53 | a new user keeps the three given fields; description, status and image are None, the inbox is the default and the time is the clock reading |
| GroupSchema.ParseGroupCreate | schemas/groups/group_schema.py:6-10 | the GroupCreate model: name, image, description and participants validated in declaration order |
| GroupSchema.GroupCreateAccepted | schemas/groups/group_schema.py:6-10 | a create body is accepted exactly when it has a string name, a list of strings as participants, an absent, null or string image and an absent, null or at most 60 character description; the name, the participant strings and any given image or description are kept, the others default to None; without a name, the error is its absence |
| GroupSchema.CheckGroupUpdate | schemas/groups/group_schema.py:22-25 | GroupUpdate's pre root validator: the emptiness error when no value is truthy, else the values unchanged |
| GroupSchema.ParseGroupUpdate | schemas/groups/group_schema.py:15-25 | the GroupUpdate model: the root validator first, then each optional field in declaration order |
| GroupSchema.GroupUpdateValidator | schemas/groups/group_schema.py:15-25 | the validator refuses exactly the bodies with nothing truthy and returns the rest unchanged; an accepted description is at most 60 |
| GroupSchema.EmptyParticipantsAloneRefused | schemas/groups/group_schema.py:23-24 | a body holding only an empty participant list is refused as empty |
| GroupSchema.NewGroup | schemas/groups/group_schema.py:30-36 | the record is built iff the description is absent or at most 60 characters, and it keeps admin, members and time |
| GroupSchema.CreateThenRecord | routes/groups/group_route.py:99-105 | building the record from an accepted create body never fails |

## Left out

- Redis and MongoDB are abstract. A conversation's three tiers are the fields of `Storage.Conversation`. Query matching, `json.dumps` spacing and byte encoding are not modelled, and JSON text is a token stream.
- Concurrency is not modelled. Each handler and each archiver tick is one atomic step. The lost-write races are therefore not represented: read-then-push in the append loops, read-delete-repush in the drain, and the archiver running beside the handlers.
- `asyncio.sleep`, `datetime.now`/`utcnow` and ISO formatting: timestamps are opaque inputs. The six-character random ids of group messages and the uuid4 websocket ids are inputs too.
- Authentication and tokens are not modelled. The caller's id is an input; only the fact that it is an `ObjectId` is used, in the mark_as_seen finding.
- The handlers' chat and group lookups and their participation checks are left out. This covers the 404 and 401 answers before the storage steps, the "Participant not found" 404 after unsend_recent_message, and the websocket close codes.
- Side effects besides the tiers are left out: publishing each new message from the append loops (routes/chats/chat_route.py:68, routes/groups/group_route.py:66), publishing the delete and seen events, the inbox `last_message` updates, and the inbox additions and removals after create, update and leave. Two of those inbox pulls match nothing as written: update_group pulls `str(group_id)` where an ObjectId was stored, and leave_group pulls on the key `id` where `group_id` was stored.
- `redis.keys("chat:*")` and `redis.keys("group:*")` also return the `unseen_in_mongo` flag keys, and `lrange` on such a key raises a wrong-type error. batch_save_messages has no `try` and runs as a background task (routes/main.py:28), so the first tick after any flag key exists ends the archiver for good. Every group drain sets the group flag and no handler deletes it, so the first group drain ends archiving. The archiver model visits only message lists and keeps running.
- ConnectionManager.ConnectionManager.Broadcast: the frame sent, `json.dumps(message)`, is the same for every socket it reaches, so the model reports only which sockets it reaches and takes no message parameter.
- A dict value is a list of fields, so it may repeat a key, which no Python dict does. `JsonSafe` does not forbid it, and `RoundTrip` returns repeated keys, while `json.loads` would keep only the last one.
- The JSON value type has no floats, so a `0.0` field is not modelled as falsy for `any(values.values())`.
- The websocket frames' fields are typed as strings (`ChatFrame`, `GroupFrame`), while the handlers copy any JSON value.
- A frame missing a key raises `KeyError` in the receive loop. The handler then closes the socket with code 1011 and the session ends. The session models take only complete frames.
- Pydantic's type coercion, `EmailStr` syntax checking, and the failure of `ObjectId(...)` on malformed id strings (an unhandled 500) are left out. A validator reports its first failing field, not the aggregated error list.
- create_group's `isinstance(participants, list)` check always passes after validation, so it is not modelled. delete_group, create_chat, delete_chat and fetch_recent_chat only touch the database.
- The user, search and upload routes and the call websocket are not part of this model. They wrap bcrypt, Atlas Search, Cloudinary and a module not present.
- The sharing of the `default_factory` inbox between users is not modelled; each new user gets a fresh value.

## Findings

| source | as written | input that shows it | evidently intended | confidence | as-written member | corrected member |
|---|---|---|---|---|---|---|
| routes/chats/chat_route.py:124-147 | the stored `sender_id` is a `str`, and it is compared with the `ObjectId` that `validate_token` returns (helpers/middleware/authentication.py:21), so the sender test always passes | the caller's own message with `seen: false` in the hot list, or in a bucket with the flag set | mark only messages sent by the other participant | not executed | ChatRoute.MarkAsSeenAsWrittenMarksOwn | ChatRoute.MarkAsSeenSparesOwn |
| routes/chats/chat_route.py:407-442 | the `HTTPException(404)` raised inside the `try` is caught by `except Exception` and re-raised as 500 | unsend_older_message for a bucket number that does not exist, or a message id not in that bucket | answer 404 when nothing was removed | not executed | ChatRoute.UnsendOlderMissingIs500 | ChatRoute.UnsendOlderStatusIff |
| routes/groups/group_route.py:164 | the difference binds tighter than the set union, so the written set is existing ∪ (new − removals), which is existing ∪ new | group {a, b}, admin asks for participants [a] | write exactly the requested members, dropping the removals | not executed | GroupRoute.UpdateGroupKeepsRemoved | GroupRoute.UpdateGroupIntendedHonoursRemovals |
| routes/groups/group_route.py:183-213 | without `participants`, `participants_to_add` is never bound. The NameError at line 194 comes after the write at 183 and ends in the 500 handler | admin sends only a new `group_name` | answer 200 after the write and skip the inbox step | not executed | GroupRoute.UpdateGroupWithoutParticipants | GroupRoute.UpdateGroupIntendedWithoutParticipants |
