/** backend/accounts/serializers.py, `SignupSerializer`: the role-dependent
    checks of `validate` and the username and capacity rules of `create`.
    Field-level validation (required e-mail, role choices, the password
    validators) happens before `validate` and is not part of this model. */
module AccountSerializers {
  import opened Common
  import opened AccountModels

  /** The serializer's `attrs`: the optional text fields are kept by name in
      `text`, absent when the request did not send them. */
  datatype Attrs = Attrs(
    username: Option<string>,
    email: string,
    role: Option<Role>,
    text: map<string, string>,
    capacityKg: Option<int>)

  datatype Validated = Accepted(attrs: Attrs) | Rejected(errors: map<string, string>)

  datatype Created = CreatedUser(user: User) | CreateRejected(errors: map<string, string>)

  /** The four profile fields, in the order `validate` visits them. */
  const ProfileFields: seq<string> := ["first_name", "last_name", "phone", "cne"]

  /** The message for a profile field a courier left blank. */
  function MissingMessage(field: string): string
  {
    if field == "first_name" then "Le prénom est requis pour un livreur."
    else if field == "last_name" then "Le nom est requis pour un livreur."
    else if field == "phone" then "Le téléphone est requis pour un livreur."
    else "Le CNE est requis pour un livreur."
  }

  /** `(attrs.get(field) or "")`. */
  function Get(text: map<string, string>, field: string): string
  {
    if field in text then text[field] else ""
  }

  /** `attrs.get("role", CUSTOMER)`. */
  function RoleOf(attrs: Attrs): Role
  {
    if attrs.role.Some? then attrs.role.value else Customer
  }

  /** The profile fields that are blank once stripped. */
  ghost predicate Blank(attrs: Attrs, field: string)
  {
    Strip(Get(attrs.text, field)) == []
  }

  /** Every profile field stored stripped; all other entries untouched. */
  ghost predicate StrippedFields(before: map<string, string>, after: map<string, string>)
  {
    && (forall f :: f in ProfileFields ==> f in after && after[f] == Strip(Get(before, f)))
    && (forall f :: f !in ProfileFields ==> (f in after <==> f in before))
    && (forall f :: f !in ProfileFields && f in before ==> after[f] == before[f])
  }

  /** The loop over the profile fields: strip each, and record a message for
      each one left blank. */
  method StripProfile(text: map<string, string>) returns (stripped: map<string, string>, missing: map<string, string>)
    ensures StrippedFields(text, stripped)
    ensures forall f :: f in missing <==> f in ProfileFields && Strip(Get(text, f)) == []
    ensures forall f :: f in missing ==> missing[f] == MissingMessage(f)
  {
    stripped := text;
    missing := map[];
    var i := 0;
    assert ProfileFields[..0] == [];
    while i < |ProfileFields|
      invariant 0 <= i <= |ProfileFields|
      invariant Stripping(text, stripped, missing, ProfileFields[..i])
    {
      var field := ProfileFields[i];
      NextField(i);
      var value := Strip(Get(stripped, field));
      StripStep(text, stripped, missing, ProfileFields[..i], field);
      stripped := stripped[field := value];
      if value == [] {
        missing := missing[field := MissingMessage(field)];
      }
      i := i + 1;
    }
    StripDone(text, stripped, missing);
  }

  /** The fields are distinct, so the next one is not among those handled. */
  lemma NextField(i: nat)
    requires i < |ProfileFields|
    ensures ProfileFields[i] !in ProfileFields[..i]
    ensures ProfileFields[..i + 1] == ProfileFields[..i] + [ProfileFields[i]]
  {
    // the four names start with four different letters
    assert "first_name"[0] == 'f' && "last_name"[0] == 'l' && "phone"[0] == 'p' && "cne"[0] == 'c';
  }

  /** Once every field is handled, the loop's state is the promised result. */
  lemma StripDone(text: map<string, string>, stripped: map<string, string>, missing: map<string, string>)
    requires Stripping(text, stripped, missing, ProfileFields[..|ProfileFields|])
    ensures StrippedFields(text, stripped)
    ensures forall f :: f in missing <==> f in ProfileFields && Strip(Get(text, f)) == []
    ensures forall f :: f in missing ==> missing[f] == MissingMessage(f)
  {
    assert ProfileFields[..|ProfileFields|] == ProfileFields;
  }

  /** The state of the loop once the fields in `done` are handled. */
  ghost predicate Stripping(text: map<string, string>, stripped: map<string, string>, missing: map<string, string>,
                            done: seq<string>)
  {
    StrippedSoFar(text, stripped, done) && MissingSoFar(text, missing, done)
  }

  ghost predicate StrippedSoFar(text: map<string, string>, stripped: map<string, string>, done: seq<string>)
  {
    && (forall f :: f in done ==> f in stripped && stripped[f] == Strip(Get(text, f)))
    && (forall f :: f !in done ==> (f in stripped <==> f in text))
    && (forall f :: f !in done && f in text ==> stripped[f] == text[f])
  }

  ghost predicate MissingSoFar(text: map<string, string>, missing: map<string, string>, done: seq<string>)
  {
    && (forall f :: f in missing <==> f in done && Strip(Get(text, f)) == [])
    && (forall f :: f in missing ==> missing[f] == MissingMessage(f))
  }

  /** Handling one more field keeps the loop's state. */
  lemma StripStep(text: map<string, string>, stripped: map<string, string>, missing: map<string, string>,
                  done: seq<string>, field: string)
    requires Stripping(text, stripped, missing, done) && field !in done
    ensures var value := Strip(Get(stripped, field));
            Stripping(text, stripped[field := value],
                      if value == [] then missing[field := MissingMessage(field)] else missing, done + [field])
  {
    assert Get(stripped, field) == Get(text, field);
    StrippedStep(text, stripped, done, field);
    MissingStep(text, missing, done, field);
  }

  lemma StrippedStep(text: map<string, string>, stripped: map<string, string>, done: seq<string>, field: string)
    requires StrippedSoFar(text, stripped, done) && field !in done
    requires Get(stripped, field) == Get(text, field)
    ensures StrippedSoFar(text, stripped[field := Strip(Get(text, field))], done + [field])
  {
  }

  lemma MissingStep(text: map<string, string>, missing: map<string, string>, done: seq<string>, field: string)
    requires MissingSoFar(text, missing, done) && field !in done
    ensures MissingSoFar(text, if Strip(Get(text, field)) == [] then missing[field := MissingMessage(field)] else missing,
                         done + [field])
  {
  }

  /** `validate`: a courier must give all four profile fields (blank ones are
      reported together); the fields are stored stripped and the capacity is
      forced to 10 for a courier and 0 for anyone else. */
  method Validate(attrs: Attrs) returns (r: Validated)
    ensures r.Rejected? <==> RoleOf(attrs) == Courier && exists f :: f in ProfileFields && Blank(attrs, f)
    ensures r.Rejected? ==> forall f :: f in r.errors <==> f in ProfileFields && Blank(attrs, f)
    ensures r.Rejected? ==> forall f :: f in r.errors ==> r.errors[f] == MissingMessage(f)
    ensures r.Accepted? ==> StrippedFields(attrs.text, r.attrs.text)
    ensures r.Accepted? ==> r.attrs.capacityKg == Some(if RoleOf(attrs) == Courier then 10 else 0)
    ensures r.Accepted? ==> r.attrs == attrs.(text := r.attrs.text, capacityKg := r.attrs.capacityKg)
  {
    var role := RoleOf(attrs);
    var stripped, missing := StripProfile(attrs.text);
    if role == Courier {
      if missing != map[] {
        return Rejected(missing);
      }
      return Accepted(attrs.(text := stripped, capacityKg := Some(10)));
    }
    return Accepted(attrs.(text := stripped, capacityKg := Some(0)));
  }

  /** `create`: the username falls back to the e-mail; a courier's stored
      capacity above 10 is refused, and the capacity ends 10 for a courier
      and 0 for anyone else. */
  method Create(id: nat, data: Attrs) returns (r: Created)
    ensures r.CreateRejected? <==> RoleOf(data) == Courier && data.capacityKg.Some? && data.capacityKg.value > 10
    ensures r.CreateRejected? ==> r.errors == map["capacity_kg" := "La capacité maximale est de 10 kg."]
    ensures r.CreatedUser? ==> r.user.capacityKg == if RoleOf(data) == Courier then 10 else 0
    ensures r.CreatedUser? ==> r.user.username == if data.username.Some? && data.username.value != [] then data.username.value else data.email
    ensures r.CreatedUser? ==> r.user.role == RoleOf(data) && r.user.email == data.email && r.user.id == id
    ensures r.CreatedUser? ==> r.user.firstName == Get(data.text, "first_name") && r.user.lastName == Get(data.text, "last_name")
    ensures r.CreatedUser? ==> r.user.phone == Get(data.text, "phone") && r.user.cne == Get(data.text, "cne")
    ensures r.CreatedUser? ==> CapacityInRange(r.user)
  {
    var role := RoleOf(data);
    var username := if data.username.Some? && data.username.value != [] then data.username.value else data.email;
    var capacity: nat;
    if role == Courier {
      var given := if data.capacityKg.Some? then data.capacityKg.value else 10;
      if given > 10 {
        return CreateRejected(map["capacity_kg" := "La capacité maximale est de 10 kg."]);
      }
      capacity := 10;
    } else {
      capacity := 0;
    }
    var user := User(id, username, data.email, Get(data.text, "first_name"), Get(data.text, "last_name"),
                     role, capacity, Get(data.text, "phone"), Get(data.text, "cne"), None, None);
    return CreatedUser(user);
  }

  /** Data that passed `validate` is never refused by `create`'s capacity
      check, and a courier created from it has every profile field non-blank. */
  lemma ValidatedIsCreatable(attrs: Attrs, v: Attrs)
    requires StrippedFields(attrs.text, v.text)
    requires v.capacityKg == Some(if RoleOf(attrs) == Courier then 10 else 0)
    requires v == attrs.(text := v.text, capacityKg := v.capacityKg)
    requires RoleOf(attrs) == Courier ==> forall f :: f in ProfileFields ==> !Blank(attrs, f)
    ensures !(RoleOf(v) == Courier && v.capacityKg.Some? && v.capacityKg.value > 10)
    ensures RoleOf(v) == Courier ==> forall f :: f in ProfileFields ==> Get(v.text, f) != []
  {
    if RoleOf(v) == Courier {
      forall f | f in ProfileFields ensures Get(v.text, f) != [] {
        assert v.text[f] == Strip(Get(attrs.text, f));
      }
    }
  }
}
