/** The group handlers of routes/groups/group_route.py: the websocket append
    loop on the group's hot list, and the membership rules of create_group,
    update_group and leave_group over a group document. */
module GroupRoute {
  import opened Common
  import opened Messages
  import opened Storage

  // ---------------------------------------------------------------------
  // Appending (websocket_group_chat_endpoint)
  // ---------------------------------------------------------------------

  /** The fields of one client frame that the handler copies. */
  datatype GroupFrame = GroupFrame(replyToId: Option<Id>, content: string)

  /** The dict the handler builds: an id, the sender, the reply target if
      truthy, the content, the sequence and the creation time. A group
      message has no `seen`, `seen_timestamp`, `reply_to_content` or
      `action` key. */
  function NewGroupMessage(id: Id, sender: Id, f: GroupFrame, sequence: int, createdAt: Timestamp): Message
  {
    Message(id, sender, NoneIfFalsy(f.replyToId), None, f.content, sequence, None, None, None, createdAt)
  }

  /** A group message is never seen, so the archiver treats it as unseen. */
  lemma GroupMessageUnseen(id: Id, sender: Id, f: GroupFrame, sequence: int, createdAt: Timestamp)
    ensures !IsSeen(NewGroupMessage(id, sender, f, sequence, createdAt))
    ensures NewGroupMessage(id, sender, f, sequence, createdAt).seen.None?
  {
  }

  /** One message of the receive loop. The random six-character id and the
      clock reading are inputs. */
  method AppendGroupMessage(c: Conversation, id: Id, sender: Id, f: GroupFrame, now: Timestamp)
    returns (m: Message)
    requires c.Valid() && c.kind == Group
    modifies c`hot
    ensures c.Valid()
    ensures m.sequence == NextSequence(old(c.hot))
    ensures m.id == id && m.senderId == sender && m.content == f.content && m.createdAt == now
    ensures m.seen.None? && m.seenTimestamp.None? && m.replyToContent.None? && m.action.None?
    ensures m == NewGroupMessage(id, sender, f, m.sequence, now)
    ensures c.hot == old(c.hot) + [m]
  {
    m := NewGroupMessage(id, sender, f, NextSequence(c.hot), now);
    NextSequenceIsFresh(c.hot, m);
    c.hot := c.hot + [m];
  }

  /** The receive loop over the frames of one connection, with the ids and
      clock readings it draws: consecutive sequence numbers after the tail. */
  method GroupSession(c: Conversation, sender: Id, frames: seq<GroupFrame>, ids: seq<Id>, times: seq<Timestamp>)
    returns (sent: seq<Message>)
    requires c.Valid() && c.kind == Group
    requires |ids| == |frames| && |times| == |frames|
    modifies c`hot
    ensures c.Valid()
    ensures |sent| == |frames|
    ensures c.hot == old(c.hot) + sent
    ensures forall i :: 0 <= i < |frames| ==>
      sent[i] == NewGroupMessage(ids[i], sender, frames[i], NextSequence(old(c.hot)) + i, times[i])
  {
    sent := [];
    for i := 0 to |frames|
      invariant c.Valid()
      invariant |sent| == i
      invariant c.hot == old(c.hot) + sent
      invariant forall j :: 0 <= j < i ==>
        sent[j] == NewGroupMessage(ids[j], sender, frames[j], NextSequence(old(c.hot)) + j, times[j])
      invariant NextSequence(c.hot) == NextSequence(old(c.hot)) + i
    {
      var m := AppendGroupMessage(c, ids[i], sender, frames[i], times[i]);
      sent := sent + [m];
    }
  }

  // ---------------------------------------------------------------------
  // Membership arithmetic
  // ---------------------------------------------------------------------

  function SetOf(s: seq<Id>): set<Id>
  {
    set x | x in s
  }

  predicate Distinct(s: seq<Id>)
  {
    forall i, j :: 0 <= i < j < |s| ==> s[i] != s[j]
  }

  /** `len(list(db.users.find({"_id": {"$in": ids}})))`: each known user is
      found once, however often it is listed. */
  function FoundUsers(ids: seq<Id>, known: set<Id>): nat
  {
    |SetOf(ids) * known|
  }

  /** A list has as many distinct elements as entries exactly when no entry
      repeats. */
  lemma {:induction false} DistinctCard(s: seq<Id>)
    ensures |SetOf(s)| <= |s|
    ensures |SetOf(s)| == |s| <==> Distinct(s)
  {
    if s != [] {
      var tail := s[1..];
      DistinctCard(tail);
      assert SetOf(s) == {s[0]} + SetOf(tail) by {
        assert forall x :: x in s ==> x == s[0] || x in tail;
      }
      if s[0] in SetOf(tail) {
        assert SetOf(s) == SetOf(tail);
        var j :| 0 <= j < |tail| && tail[j] == s[0];
        assert s[j + 1] == s[0];
      } else {
        assert |SetOf(s)| == 1 + |SetOf(tail)|;
        assert Distinct(s) <==> Distinct(tail) by {
          if Distinct(s) {
            forall i, j | 0 <= i < j < |tail| ensures tail[i] != tail[j] {
              assert tail[i] == s[i + 1] && tail[j] == s[j + 1];
            }
          }
          if Distinct(tail) {
            forall i, j | 0 <= i < j < |s| ensures s[i] != s[j] {
              if i == 0 {
                assert s[j] == tail[j - 1];
              } else {
                assert s[i] == tail[i - 1] && s[j] == tail[j - 1];
              }
            }
          }
        }
      }
    }
  }

  /** A set meets another in all its elements exactly when it is contained
      in it. */
  lemma IntersectionCard(a: set<Id>, k: set<Id>)
    ensures |a * k| <= |a|
    ensures |a * k| == |a| <==> a <= k
  {
    var inside := a * k;
    var outside := a - k;
    assert a == inside + outside;
    assert inside * outside == {};
    if !(a <= k) {
      var x :| x in a && x !in k;
      assert x in outside;
    }
  }

  /** The count check passes exactly when every listed id is a known user
      and no id is listed twice. */
  lemma FoundAllIff(ids: seq<Id>, known: set<Id>)
    ensures FoundUsers(ids, known) == |ids| <==> Distinct(ids) && SetOf(ids) <= known
  {
    DistinctCard(ids);
    IntersectionCard(SetOf(ids), known);
  }

  // ---------------------------------------------------------------------
  // create_group
  // ---------------------------------------------------------------------

  datatype CreateOutcome =
    | CreatorListed
    | UnknownParticipants
    | Created(participants: seq<Id>, admin: Id)

  /** The participant checks of create_group: the creator may not be listed,
      is appended last, and every member must be found as a user. */
  function CreateGroup(creator: Id, listed: seq<Id>, known: set<Id>): CreateOutcome
  {
    if creator in listed then CreatorListed
    else
      var members := listed + [creator];
      if FoundUsers(members, known) != |members| then UnknownParticipants
      else Created(members, creator)
  }

  /** A group is created exactly when the creator is not listed, the listed
      ids are distinct known users and the creator is a known user; it then
      has the listed members followed by the creator, who is its admin. */
  lemma CreateGroupIff(creator: Id, listed: seq<Id>, known: set<Id>)
    ensures CreateGroup(creator, listed, known).Created? <==>
      creator !in listed && Distinct(listed) && SetOf(listed) <= known && creator in known
    ensures CreateGroup(creator, listed, known).Created? ==>
      CreateGroup(creator, listed, known) == Created(listed + [creator], creator)
    ensures CreateGroup(creator, listed, known) == CreatorListed <==> creator in listed
  {
    var members := listed + [creator];
    FoundAllIff(members, known);
    assert SetOf(members) == SetOf(listed) + {creator};
    if creator !in listed {
      assert Distinct(members) <==> Distinct(listed) by {
        if Distinct(listed) {
          forall i, j | 0 <= i < j < |members| ensures members[i] != members[j] {
            if j == |listed| {
              assert members[i] == listed[i];
            } else {
              assert members[i] == listed[i] && members[j] == listed[j];
            }
          }
        }
        if Distinct(members) {
          forall i, j | 0 <= i < j < |listed| ensures listed[i] != listed[j] {
            assert members[i] == listed[i] && members[j] == listed[j];
          }
        }
      }
    }
  }

  // ---------------------------------------------------------------------
  // update_group
  // ---------------------------------------------------------------------

  /** The stored group document, as far as these handlers read it. */
  datatype GroupDoc = GroupDoc(
    name: string,
    image: Option<string>,
    description: Option<string>,
    participants: seq<Id>,
    admin: Id)

  /** The request body; omitted fields are None. */
  datatype UpdateRequest = UpdateRequest(
    participants: Option<seq<Id>>,
    name: Option<string>,
    image: Option<string>,
    description: Option<string>)

  /** The `$set` document the handler builds; an absent key is None. */
  datatype UpdateFields = UpdateFields(
    participants: Option<set<Id>>,
    name: Option<string>,
    image: Option<string>,
    description: Option<string>)

  datatype UpdateOutcome =
    | GroupNotFound
    | NotAdmin
    | InvalidUsers
    | NothingToUpdate
    | WouldBeEmpty
      /** 200: the fields written and the two inbox differences. */
    | Updated(fields: UpdateFields, toAdd: set<Id>, toRemove: set<Id>)
      /** 500: the fields were written, then the handler failed. */
    | FailedAfterWrite(fields: UpdateFields)

  predicate Empty(u: UpdateFields)
  {
    u.participants.None? && u.name.None? && u.image.None? && u.description.None?
  }

  /** The participant set written: `existing | new - to_remove`, where the
      difference binds tighter than the union. */
  function WrittenParticipants(existing: set<Id>, incoming: set<Id>): set<Id>
  {
    existing + (incoming - (existing - incoming))
  }

  /** update_group. With a participant list the differences are computed
      and the set written; without one, `participants_to_add` is never bound,
      so once the other fields are written the handler fails. */
  function UpdateGroup(group: Option<GroupDoc>, user: Id, req: UpdateRequest, known: set<Id>): UpdateOutcome
  {
    if group.None? then GroupNotFound
    else if group.value.admin != user then NotAdmin
    else if req.participants.Some? && FoundUsers(req.participants.value, known) != |req.participants.value| then
      InvalidUsers
    else
      var existing := SetOf(group.value.participants);
      var incoming := if req.participants.Some? then SetOf(req.participants.value) else {};
      var fields := UpdateFields(
        if req.participants.Some? then Some(WrittenParticipants(existing, incoming)) else None,
        NoneIfFalsy(req.name),
        NoneIfFalsy(req.image),
        NoneIfFalsy(req.description));
      if Empty(fields) then NothingToUpdate
      else if fields.participants.Some? && fields.participants.value == {} then WouldBeEmpty
      else if req.participants.None? then FailedAfterWrite(fields)
      else Updated(fields, incoming - existing, existing - incoming)
  }

  /** The written set is the union of old and new members: nobody is ever
      removed, and the intended removals stay in the document. */
  lemma WrittenIsUnion(existing: set<Id>, incoming: set<Id>)
    ensures WrittenParticipants(existing, incoming) == existing + incoming
    ensures existing - incoming <= WrittenParticipants(existing, incoming)
  {
  }

  /** The "no participants" refusal: since the written set is the union, it
      happens exactly when the admin sends an empty participant list for a
      group whose stored list is empty. */
  lemma UpdateGroupWouldBeEmptyIff(group: Option<GroupDoc>, user: Id, req: UpdateRequest, known: set<Id>)
    ensures UpdateGroup(group, user, req, known) == WouldBeEmpty <==>
      && group.Some? && group.value.admin == user
      && req.participants == Some([])
      && group.value.participants == []
  {
    if group.Some? && req.participants.Some? {
      var existing := group.value.participants;
      var incoming := req.participants.value;
      if existing != [] {
        assert existing[0] in SetOf(existing);
      }
      if incoming != [] {
        assert incoming[0] in SetOf(incoming);
      }
      WrittenIsUnion(SetOf(existing), SetOf(incoming));
    }
  }

  /** Only the admin of an existing group gets anything written; a write
      always carries at least one field. */
  lemma UpdateGroupAdminOnly(group: Option<GroupDoc>, user: Id, req: UpdateRequest, known: set<Id>)
    ensures var r := UpdateGroup(group, user, req, known);
      (r.Updated? || r.FailedAfterWrite?) ==> group.Some? && group.value.admin == user && !Empty(r.fields)
    ensures UpdateGroup(group, user, req, known) == NotAdmin <==> group.Some? && group.value.admin != user
    ensures UpdateGroup(group, user, req, known) == GroupNotFound <==> group.None?
  {
  }

  /** A successful update lists distinct known users and writes old members
      plus new ones; the additions and the removals are disjoint and every
      intended removal is still a member. */
  lemma UpdateGroupWritesUnion(group: Option<GroupDoc>, user: Id, req: UpdateRequest, known: set<Id>)
    requires UpdateGroup(group, user, req, known).Updated?
    ensures var r := UpdateGroup(group, user, req, known);
      && req.participants.Some?
      && Distinct(req.participants.value)
      && SetOf(req.participants.value) <= known
      && r.fields.participants == Some(SetOf(group.value.participants) + SetOf(req.participants.value))
      && r.toAdd == SetOf(req.participants.value) - SetOf(group.value.participants)
      && r.toRemove == SetOf(group.value.participants) - SetOf(req.participants.value)
      && r.toAdd * r.toRemove == {}
      && r.toRemove <= r.fields.participants.value
  {
    FoundAllIff(req.participants.value, known);
    WrittenIsUnion(SetOf(group.value.participants), SetOf(req.participants.value));
  }

  /** Without a participant list, the admin's request either has nothing
      truthy to write (400) or writes and then fails (500); it never
      answers 200. */
  lemma UpdateGroupWithoutParticipants(group: Option<GroupDoc>, user: Id, req: UpdateRequest, known: set<Id>)
    requires group.Some? && group.value.admin == user && req.participants.None?
    ensures var r := UpdateGroup(group, user, req, known);
      && !r.Updated?
      && (r.FailedAfterWrite? <==> TruthyText(req.name) || TruthyText(req.image) || TruthyText(req.description))
      && (r == NothingToUpdate <==> !(TruthyText(req.name) || TruthyText(req.image) || TruthyText(req.description)))
  {
  }

  /** As written, asking to keep only "a" of a group {a, b} writes both
      back while listing "b" as removed. */
  lemma UpdateGroupKeepsRemoved(admin: Id)
    requires admin != "a" && admin != "b"
    ensures var g := GroupDoc("g", None, None, ["a", "b"], admin);
      var r := UpdateGroup(Some(g), admin, UpdateRequest(Some(["a"]), None, None, None), {"a", "b"});
      && r.Updated?
      && r.toRemove == {"b"}
      && r.fields.participants == Some({"a", "b"})
  {
    var g := GroupDoc("g", None, None, ["a", "b"], admin);
    assert SetOf(["a"]) == {"a"} by {
      assert forall x :: x in ["a"] <==> x == "a";
    }
    assert SetOf(g.participants) == {"a", "b"} by {
      assert forall x :: x in ["a", "b"] <==> x == "a" || x == "b";
    }
    assert "a" != "b";
    assert SetOf(["a"]) * {"a", "b"} == {"a"};
    assert FoundUsers(["a"], {"a", "b"}) == |["a"]|;
    assert {"a", "b"} - {"a"} == {"b"};
    assert WrittenParticipants({"a", "b"}, {"a"}) == {"a", "b"};
    var req := UpdateRequest(Some(["a"]), None, None, None);
    assert NoneIfFalsy(req.name) == None;
  }

  /** update_group as evidently intended: the requested list replaces the
      members, and without a list the inbox step is skipped. */
  function UpdateGroupIntended(group: Option<GroupDoc>, user: Id, req: UpdateRequest, known: set<Id>): UpdateOutcome
  {
    if group.None? then GroupNotFound
    else if group.value.admin != user then NotAdmin
    else if req.participants.Some? && FoundUsers(req.participants.value, known) != |req.participants.value| then
      InvalidUsers
    else
      var existing := SetOf(group.value.participants);
      var incoming := if req.participants.Some? then SetOf(req.participants.value) else {};
      var fields := UpdateFields(
        if req.participants.Some? then Some(incoming) else None,
        NoneIfFalsy(req.name),
        NoneIfFalsy(req.image),
        NoneIfFalsy(req.description));
      if Empty(fields) then NothingToUpdate
      else if fields.participants.Some? && fields.participants.value == {} then WouldBeEmpty
      else if req.participants.None? then Updated(fields, {}, {})
      else Updated(fields, incoming - existing, existing - incoming)
  }

  /** As intended, the written members are exactly the requested ones:
      every removal leaves the group and every addition joins it. */
  lemma UpdateGroupIntendedHonoursRemovals(group: Option<GroupDoc>, user: Id, req: UpdateRequest, known: set<Id>)
    requires UpdateGroupIntended(group, user, req, known).Updated? && req.participants.Some?
    ensures var r := UpdateGroupIntended(group, user, req, known);
      && r.fields.participants == Some(SetOf(req.participants.value))
      && r.toRemove * r.fields.participants.value == {}
      && r.toAdd <= r.fields.participants.value
      && r.fields.participants.value == (SetOf(group.value.participants) - r.toRemove) + r.toAdd
  {
  }

  /** As intended, a request without a participant list that the written
      handler answers with 500 after writing is answered 200 with the same
      fields and no inbox change. */
  lemma UpdateGroupIntendedWithoutParticipants(group: Option<GroupDoc>, user: Id, req: UpdateRequest, known: set<Id>)
    requires UpdateGroup(group, user, req, known).FailedAfterWrite?
    ensures UpdateGroupIntended(group, user, req, known) ==
      Updated(UpdateGroup(group, user, req, known).fields, {}, {})
  {
  }

  // ---------------------------------------------------------------------
  // leave_group
  // ---------------------------------------------------------------------

  /** `list.remove`: the first occurrence goes. */
  function RemoveFirst(s: seq<Id>, x: Id): (r: seq<Id>)
    ensures x in s ==> |r| == |s| - 1
    ensures x !in s ==> r == s
  {
    if s == [] then []
    else if s[0] == x then s[1..]
    else [s[0]] + RemoveFirst(s[1..], x)
  }

  /** `$pull`: every occurrence goes. */
  function PullAll(s: seq<Id>, x: Id): (r: seq<Id>)
    ensures x !in r
    ensures forall y :: y in r <==> y in s && y != x
  {
    if s == [] then []
    else (if s[0] == x then [] else [s[0]]) + PullAll(s[1..], x)
  }

  datatype LeaveOutcome =
    | LeaveNotFound
    | NotParticipant
    | AdminNotLast
    | GroupDeleted
    | Left(group: GroupDoc)

  /** leave_group: non-members are refused, the admin only leaves last;
      otherwise every copy of the user is pulled, and a group whose admin
      left it empty is deleted. */
  function LeaveGroup(group: Option<GroupDoc>, user: Id): LeaveOutcome
  {
    if group.None? then LeaveNotFound
    else
      var g := group.value;
      if user !in g.participants then NotParticipant
      else if g.admin == user && |RemoveFirst(g.participants, user)| > 0 then AdminNotLast
      else
        var after := g.(participants := PullAll(g.participants, user));
        if after.admin == user && |after.participants| == 0 then GroupDeleted
        else Left(after)
  }

  /** For a member, `remove` leaves nothing exactly when they are the sole
      entry, and then the pull leaves nothing either. */
  lemma SoleMember(s: seq<Id>, x: Id)
    requires x in s
    ensures |RemoveFirst(s, x)| == 0 <==> s == [x]
    ensures s == [x] ==> PullAll(s, x) == []
  {
    if s == [x] {
      assert s[1..] == [];
    }
  }

  /** A member who is not the admin always leaves, losing every copy of
      their id and nobody else; the admin leaves only as the sole member,
      and that deletes the group. */
  lemma LeaveGroupRules(g: GroupDoc, user: Id)
    requires user in g.participants
    ensures g.admin != user ==> LeaveGroup(Some(g), user) == Left(g.(participants := PullAll(g.participants, user)))
    ensures g.admin == user ==>
      (LeaveGroup(Some(g), user) == GroupDeleted <==> g.participants == [user])
    ensures g.admin == user ==>
      (LeaveGroup(Some(g), user) == AdminNotLast <==> g.participants != [user])
  {
    SoleMember(g.participants, user);
  }

  /** Whoever leaves is no longer listed and was not the admin; a
      non-member is refused. */
  lemma LeaveGroupRemovesUser(group: Option<GroupDoc>, user: Id)
    ensures LeaveGroup(group, user).Left? ==>
      && user !in LeaveGroup(group, user).group.participants
      && group.value.admin != user
      && LeaveGroup(group, user).group.admin == group.value.admin
    ensures LeaveGroup(group, user) == NotParticipant <==> group.Some? && user !in group.value.participants
  {
    if group.Some? && user in group.value.participants {
      SoleMember(group.value.participants, user);
    }
  }
}
