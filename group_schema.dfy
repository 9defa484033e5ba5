/** The group request models and the stored group record of
    schemas/groups/group_schema.py. */
module GroupSchema {
  import opened Common
  import opened ConvertToJson
  import opened Validation

  const GroupDescriptionLength: Constraint := Length(0, 60)

  datatype GroupCreate = GroupCreate(
    name: string,
    image: Option<string>,
    description: Option<string>,
    participants: seq<string>)

  function ParseGroupCreate(values: map<string, Value>): Result<GroupCreate, Error>
  {
    var name := RequiredText(values, "group_name", Unbounded);
    var image := OptionalText(values, "group_image", Unbounded);
    var description := OptionalText(values, "group_description", GroupDescriptionLength);
    var participants := RequiredTextList(values, "participants");
    if name.Err? then Err(name.error)
    else if image.Err? then Err(image.error)
    else if description.Err? then Err(description.error)
    else if participants.Err? then Err(participants.error)
    else Ok(GroupCreate(name.value, image.value, description.value, participants.value))
  }

  /** A create request is accepted exactly when it has a string name, a
      list of id strings, an absent, null or string image, and an absent,
      null or at most 60 character description; the values are kept, and
      image and description default to None. */
  lemma GroupCreateAccepted(values: map<string, Value>)
    ensures ParseGroupCreate(values).Ok? <==>
      && "group_name" in values && values["group_name"].Str?
      && "participants" in values && values["participants"].List? && AllText(values["participants"].items)
      && OptionalTextOk(values, "group_image", Unbounded)
      && OptionalTextOk(values, "group_description", GroupDescriptionLength)
    ensures ParseGroupCreate(values).Ok? ==>
      && (var g := ParseGroupCreate(values).value;
          && values["group_name"] == Str(g.name)
          && g.participants == Texts(values["participants"].items)
          && (g.description.Some? ==> |g.description.value| <= 60)
          && (IsNone(values, "group_image") ==> g.image.None?)
          && (!IsNone(values, "group_image") ==> g.image == Some(values["group_image"].s))
          && (IsNone(values, "group_description") ==> g.description.None?)
          && (!IsNone(values, "group_description") ==> g.description == Some(values["group_description"].s)))
    ensures "group_name" !in values ==> ParseGroupCreate(values) == Err(Missing("group_name"))
  {
  }

  /** check_at_least_one_field of GroupUpdate. */
  function CheckGroupUpdate(values: map<string, Value>): Result<map<string, Value>, Error>
  {
    if !AnyTruthy(values) then Err(NoFieldProvided) else Ok(values)
  }

  datatype GroupUpdate = GroupUpdate(
    name: Option<string>,
    image: Option<string>,
    description: Option<string>,
    participants: Option<seq<string>>)

  function ParseGroupUpdate(values: map<string, Value>): Result<GroupUpdate, Error>
  {
    var checked := CheckGroupUpdate(values);
    if checked.Err? then Err(checked.error)
    else
      var name := OptionalText(values, "group_name", Unbounded);
      var image := OptionalText(values, "group_image", Unbounded);
      var description := OptionalText(values, "group_description", GroupDescriptionLength);
      var participants := OptionalTextList(values, "participants");
      if name.Err? then Err(name.error)
      else if image.Err? then Err(image.error)
      else if description.Err? then Err(description.error)
      else if participants.Err? then Err(participants.error)
      else Ok(GroupUpdate(name.value, image.value, description.value, participants.value))
  }

  /** The validator refuses exactly the requests with nothing truthy and
      passes the values on unchanged; an accepted description has at most
      60 characters. */
  lemma GroupUpdateValidator(values: map<string, Value>)
    ensures CheckGroupUpdate(values).Ok? <==> AnyTruthy(values)
    ensures CheckGroupUpdate(values).Ok? ==> CheckGroupUpdate(values).value == values
    ensures !AnyTruthy(values) ==> ParseGroupUpdate(values) == Err(NoFieldProvided)
    ensures ParseGroupUpdate(values).Ok? && ParseGroupUpdate(values).value.description.Some? ==>
      |ParseGroupUpdate(values).value.description.value| <= 60
  {
  }

  /** An empty participant list is falsy, so a request holding only that is
      refused before the handler runs. */
  lemma EmptyParticipantsAloneRefused()
    ensures ParseGroupUpdate(map["participants" := List([])]) == Err(NoFieldProvided)
  {
    var v := map["participants" := List([])];
    assert forall k :: k in v ==> k == "participants";
  }

  /** The stored group record; `participants` holds ObjectIds. */
  datatype Group = Group(
    admin: Id,
    name: string,
    description: Option<string>,
    image: Option<string>,
    participants: seq<Id>,
    createdAt: Timestamp)

  /** `Group(...)` re-validates the description bound. */
  function NewGroup(admin: Id, name: string, description: Option<string>, image: Option<string>,
                    participants: seq<Id>, now: Timestamp): (r: Result<Group, Error>)
    ensures r.Ok? <==> description.None? || |description.value| <= 60
    ensures r.Ok? ==> r.value.admin == admin && r.value.participants == participants && r.value.createdAt == now
  {
    if description.Some? && !Satisfies(description.value, GroupDescriptionLength) then
      Err(Invalid("group_description"))
    else Ok(Group(admin, name, description, image, participants, now))
  }

  /** Building the record from an accepted create request never fails, so
      create_group's 500 path is unreachable from this check. */
  lemma CreateThenRecord(values: map<string, Value>, admin: Id, participants: seq<Id>, now: Timestamp)
    requires ParseGroupCreate(values).Ok?
    ensures var g := ParseGroupCreate(values).value;
      NewGroup(admin, g.name, g.description, g.image, participants, now).Ok?
  {
  }
}
